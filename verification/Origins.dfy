/** Nothing getPkt accepts was not framed on the wire with a matching checksum. */
module Origins {
  import opened Bytes
  import opened Framing
  import opened Receiver

  /** Where an accepted payload came from: `before`, then `$`, the body and its two digits. */
  datatype Origin = Origin(before: seq<byte>, body: seq<byte>, hi: byte, lo: byte, rejections: nat)

  ghost predicate Explains(o: Origin, s: seq<byte>, r: Reception, cfg: Config)
    requires r.outcome.Accepted?
  {
    && Plain(o.body) && IsHexDigit(o.hi) && IsHexDigit(o.lo)
    && s == o.before + [DOLLAR] + o.body + [HASH, o.hi, o.lo] + r.rest
    && (cfg.eraseAtStart ==> r.outcome.payload == o.body)
    && |o.body| <= |r.outcome.payload| < cfg.capacity
    && r.outcome.payload[|r.outcome.payload| - |o.body|..] == o.body
    && (cfg.noAck ==> r.replies == [] && o.rejections == 0)
    && (!cfg.noAck ==> Checksum(o.body) == DigitPair(o.hi, o.lo)
                       && r.replies == Repeat([MINUS], o.rejections) + [PLUS])
  }

  lemma Later(o: Origin, pre: seq<byte>, s: seq<byte>, r: Reception, cfg: Config) returns (o': Origin)
    requires r.outcome.Accepted? && Explains(o, s, r, cfg)
    ensures Explains(o', pre + s, r, cfg) && o'.rejections == o.rejections
  {
    o' := o.(before := pre + o.before);
  }

  ghost predicate EndsWith(buf: seq<byte>, sofar: seq<byte>, cfg: Config) {
    && Plain(sofar) && |sofar| <= |buf| && buf[|buf| - |sofar|..] == sofar
    && (cfg.eraseAtStart ==> buf == sofar)
  }

  /** Everything getPkt accepts was framed on the wire: the payload ends with the body of the last
      frame (and is that body, as intended), its checksum matches, and the replies are one `-` for
      each rejection and a final `+`. */
  lemma {:induction false} AcceptedWasFramed(s: seq<byte>, buf: seq<byte>, cfg: Config, credit: nat) returns (o: Origin)
    requires |buf| <= cfg.capacity && Hunt(s, buf, cfg, credit).outcome.Accepted?
    ensures Explains(o, s, Hunt(s, buf, cfg, credit), cfg)
    decreases |s|, 0
  {
    HuntTurn(s, buf, cfg, credit);
    ChecksumNext([], 0);
    hide Hunt, Body, Explains, Checksum;
    if s[0] != DOLLAR {
      o := AcceptedWasFramed(s[1..], buf, cfg, credit);
      o := Later(o, [s[0]], s[1..], Hunt(s[1..], buf, cfg, credit), cfg);
      assert [s[0]] + s[1..] == s;
    } else {
      var start := if cfg.eraseAtStart then [] else buf;
      assert EndsWith(start, [], cfg);
      o := AcceptedBodyWasFramed(s[1..], start, [], cfg, credit);
      assert [DOLLAR] + [] + s[1..] == s;
    }
  }

  /** One turn of Hunt; nothing is accepted without reading. */
  lemma HuntTurn(s: seq<byte>, buf: seq<byte>, cfg: Config, credit: nat)
    requires |buf| <= cfg.capacity
    ensures Hunt(s, buf, cfg, credit)
         == if s == [] then Reception(CommsFailure, [], [])
            else if s[0] != DOLLAR then Hunt(s[1..], buf, cfg, credit)
            else Body(s[1..], if cfg.eraseAtStart then [] else buf, 0, cfg, credit)
  {
  }

  /** The same once the frame at the front, in `pre`, has been answered with `-`. */
  lemma Rejected(o: Origin, pre: seq<byte>, s: seq<byte>, r: Reception, cfg: Config) returns (o': Origin)
    requires r.outcome.Accepted? && !cfg.noAck && Explains(o, s, r, cfg)
    ensures Explains(o', pre + s, After(MINUS, r), cfg)
  {
    o' := Later(o, pre, s, r, cfg);
    o' := o'.(rejections := o.rejections + 1);
    assert [MINUS] + (Repeat([MINUS], o.rejections) + [PLUS]) == Repeat([MINUS], o.rejections + 1) + [PLUS];
  }

  /** One turn of Body. */
  lemma BodyTurn(s: seq<byte>, buf: seq<byte>, sum: byte, cfg: Config, credit: nat)
    requires |buf| <= cfg.capacity
    ensures Body(s, buf, sum, cfg, credit)
         == if |buf| == cfg.capacity then Hunt(s, buf, cfg, credit)
            else if s == [] then Reception(CommsFailure, [], [])
            else if s[0] == DOLLAR then Body(s[1..], [], 0, cfg, credit)
            else if s[0] == HASH then Trailer(s[1..], buf, sum, cfg, credit)
            else Body(s[1..], buf + [s[0]], (sum + s[0]) % 256, cfg, credit)
  {
  }

  lemma EndsWithNext(buf: seq<byte>, sofar: seq<byte>, b: byte, cfg: Config)
    requires EndsWith(buf, sofar, cfg) && b != DOLLAR && b != HASH
    ensures EndsWith(buf + [b], sofar + [b], cfg)
  {
  }

  lemma {:induction false} AcceptedBodyWasFramed(
      s: seq<byte>, buf: seq<byte>, sofar: seq<byte>, cfg: Config, credit: nat) returns (o: Origin)
    requires |buf| <= cfg.capacity && EndsWith(buf, sofar, cfg)
    requires Body(s, buf, Checksum(sofar), cfg, credit).outcome.Accepted?
    ensures Explains(o, [DOLLAR] + sofar + s, Body(s, buf, Checksum(sofar), cfg, credit), cfg)
    decreases |s|, 1
  {
    BodyTurn(s, buf, Checksum(sofar), cfg, credit);
    hide Body, Hunt, Trailer, Checksum, Explains;
    var r := Body(s, buf, Checksum(sofar), cfg, credit);
    if |buf| == cfg.capacity {
      o := AcceptedWasFramed(s, buf, cfg, credit);
      o := Later(o, [DOLLAR] + sofar, s, r, cfg);
    } else if s[0] == DOLLAR {
      ChecksumNext([], 0);
      o := AcceptedBodyWasFramed(s[1..], [], [], cfg, credit);
      assert [DOLLAR] + [] + s[1..] == s;
      o := Later(o, [DOLLAR] + sofar, s, r, cfg);
    } else if s[0] == HASH {
      o := AcceptedTrailerWasFramed(s[1..], buf, sofar, cfg, credit);
      assert [DOLLAR] + sofar + [HASH] + s[1..] == [DOLLAR] + sofar + s;
    } else {
      ChecksumNext(sofar, s[0]);
      EndsWithNext(buf, sofar, s[0], cfg);
      o := AcceptedBodyWasFramed(s[1..], buf + [s[0]], sofar + [s[0]], cfg, credit);
      assert [DOLLAR] + (sofar + [s[0]]) + s[1..] == [DOLLAR] + sofar + s;
    }
  }

  lemma TrailerTurn(s: seq<byte>, buf: seq<byte>, sum: byte, cfg: Config, credit: nat)
    requires |buf| <= cfg.capacity
    ensures Trailer(s, buf, sum, cfg, credit).outcome.Accepted? ==>
              && |s| >= 2 && IsHexDigit(s[0]) && IsHexDigit(s[1])
              && Trailer(s, buf, sum, cfg, credit)
                 == if cfg.noAck || sum == DigitPair(s[0], s[1])
                    then Reception(Accepted(buf), s[2..], if cfg.noAck then [] else [PLUS])
                    else if credit == 0 then Reception(CommsFailure, s[2..], [])
                    else After(MINUS, Hunt(s[2..], buf, cfg, credit - 1))
  {
  }

  lemma {:induction false} AcceptedTrailerWasFramed(
      s: seq<byte>, buf: seq<byte>, sofar: seq<byte>, cfg: Config, credit: nat) returns (o: Origin)
    requires |buf| < cfg.capacity && EndsWith(buf, sofar, cfg)
    requires Trailer(s, buf, Checksum(sofar), cfg, credit).outcome.Accepted?
    ensures Explains(o, [DOLLAR] + sofar + [HASH] + s, Trailer(s, buf, Checksum(sofar), cfg, credit), cfg)
    decreases |s|, 2
  {
    TrailerTurn(s, buf, Checksum(sofar), cfg, credit);
    hide Trailer, Hunt, Checksum;
    var r := Trailer(s, buf, Checksum(sofar), cfg, credit);
    var all := [DOLLAR] + sofar + [HASH] + s;
    if cfg.noAck || Checksum(sofar) == DigitPair(s[0], s[1]) {
      o := AcceptedHere(s, buf, sofar, r, cfg);
    } else {
      hide Explains;
      o := AcceptedWasFramed(s[2..], buf, cfg, credit - 1);
      var pre := [DOLLAR] + sofar + [HASH] + s[..2];
      o := Rejected(o, pre, s[2..], Hunt(s[2..], buf, cfg, credit - 1), cfg);
      assert pre + s[2..] == all;
    }
  }

  lemma AcceptedHere(s: seq<byte>, buf: seq<byte>, sofar: seq<byte>, r: Reception, cfg: Config) returns (o: Origin)
    requires |buf| < cfg.capacity && EndsWith(buf, sofar, cfg)
    requires |s| >= 2 && IsHexDigit(s[0]) && IsHexDigit(s[1])
    requires cfg.noAck || Checksum(sofar) == DigitPair(s[0], s[1])
    requires r == Reception(Accepted(buf), s[2..], if cfg.noAck then [] else [PLUS])
    ensures Explains(o, [DOLLAR] + sofar + [HASH] + s, r, cfg)
  {
    hide Checksum;
    o := Origin([], sofar, s[0], s[1], 0);
    assert [DOLLAR] + sofar + [HASH] + s == [] + [DOLLAR] + sofar + [HASH, s[0], s[1]] + s[2..];
    assert Repeat([MINUS], 0) + [PLUS] == [PLUS];
  }
}
