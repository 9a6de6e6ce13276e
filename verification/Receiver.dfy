/** What AbstractConnection::getPkt does with a stream of bytes, as a function of the stream.

    Hunt, Body and Trailer are the three phases of the source's loop.  `eraseAtStart` selects
    between the loop as written (false: the buffer survives a rejected frame) and the stated
    intent (true: a leading `$` starts an empty packet). */
module Receiver {
  import opened Bytes
  import opened Framing

  datatype Config = Config(capacity: nat, noAck: bool, eraseAtStart: bool)

  datatype Outcome = Accepted(payload: seq<byte>) | CommsFailure | AssertFailure

  /** The outcome, the bytes left unread, and the acknowledgements written. */
  datatype Reception = Reception(outcome: Outcome, rest: seq<byte>, replies: seq<byte>)

  function After(reply: byte, r: Reception): Reception {
    r.(replies := [reply] + r.replies)
  }

  /** Wait for `$`; `credit` is how many more bytes the client will take from us. */
  function Hunt(s: seq<byte>, buf: seq<byte>, cfg: Config, credit: nat): Reception
    requires |buf| <= cfg.capacity
    decreases |s|, 0
  {
    if s == [] then Reception(CommsFailure, [], [])
    else if s[0] != DOLLAR then Hunt(s[1..], buf, cfg, credit)
    else Body(s[1..], if cfg.eraseAtStart then [] else buf, 0, cfg, credit)
  }

  /** Accumulate up to `#`, an embedded `$`, or the end of the buffer. */
  function Body(s: seq<byte>, buf: seq<byte>, sum: byte, cfg: Config, credit: nat): Reception
    requires |buf| <= cfg.capacity
    decreases |s|, 1
  {
    if |buf| == cfg.capacity then Hunt(s, buf, cfg, credit)  // overrun
    else if s == [] then Reception(CommsFailure, [], [])
    else if s[0] == DOLLAR then Body(s[1..], [], 0, cfg, credit)
    else if s[0] == HASH then Trailer(s[1..], buf, sum, cfg, credit)
    else Body(s[1..], buf + [s[0]], (sum + s[0]) % 256, cfg, credit)
  }

  /** Read the two checksum digits and answer. */
  function Trailer(s: seq<byte>, buf: seq<byte>, sum: byte, cfg: Config, credit: nat): Reception
    requires |buf| <= cfg.capacity
    decreases |s|, 2
  {
    if s == [] then Reception(CommsFailure, [], [])
    else if !IsHexDigit(s[0]) then Reception(AssertFailure, s[1..], [])
    else if |s| == 1 then Reception(CommsFailure, [], [])
    else if !IsHexDigit(s[1]) then Reception(AssertFailure, s[2..], [])
    else if cfg.noAck then Reception(Accepted(buf), s[2..], [])
    else if credit == 0 then Reception(CommsFailure, s[2..], [])
    else if sum != DigitPair(s[0], s[1]) then After(MINUS, Hunt(s[2..], buf, cfg, credit - 1))
    else Reception(Accepted(buf), s[2..], [PLUS])
  }

  function DigitPair(hi: byte, lo: byte): byte
    requires IsHexDigit(hi) && IsHexDigit(lo)
  {
    Char2Hex(hi) * 16 + Char2Hex(lo)
  }

  // ---- The wire, described from the client's side ----

  /** One transmission: noise, `$`, any number of abandoned pieces each cut short by a fresh
      `$`, a body, `#` and two digits. */
  datatype Attempt = Attempt(noise: seq<byte>, abandoned: seq<seq<byte>>, body: seq<byte>, hi: byte, lo: byte)

  predicate WellFormed(a: Attempt) {
    Without(a.noise, DOLLAR) && (forall f | f in a.abandoned :: Plain(f)) && Plain(a.body)
    && IsHexDigit(a.hi) && IsHexDigit(a.lo)
  }

  predicate ChecksumOk(a: Attempt)
    requires WellFormed(a)
  {
    DigitPair(a.hi, a.lo) == Checksum(a.body)
  }

  function Pieces(abandoned: seq<seq<byte>>): seq<byte> {
    if abandoned == [] then [] else abandoned[0] + [DOLLAR] + Pieces(abandoned[1..])
  }

  function Wire(a: Attempt): seq<byte> {
    a.noise + [DOLLAR] + Pieces(a.abandoned) + a.body + [HASH, a.hi, a.lo]
  }

  function Wires(attempts: seq<Attempt>): seq<byte> {
    if attempts == [] then [] else Wire(attempts[0]) + Wires(attempts[1..])
  }

  /** What is in the packet buffer once an attempt has been read. */
  function Kept(buf: seq<byte>, a: Attempt, erase: bool): seq<byte> {
    if erase || a.abandoned != [] then a.body else buf + a.body
  }

  function KeptAll(buf: seq<byte>, attempts: seq<Attempt>, erase: bool): seq<byte>
    decreases attempts
  {
    if attempts == [] then buf else KeptAll(Kept(buf, attempts[0], erase), attempts[1..], erase)
  }

  /** Each piece ends while the buffer still has room. */
  predicate Fits(buf: seq<byte>, a: Attempt, cfg: Config) {
    var start := if cfg.eraseAtStart then [] else buf;
    && (a.abandoned != [] ==> |start| + |a.abandoned[0]| < cfg.capacity)
    && (forall i | 0 < i < |a.abandoned| :: |a.abandoned[i]| < cfg.capacity)
    && |Kept(buf, a, cfg.eraseAtStart)| < cfg.capacity
  }

  predicate AllFit(buf: seq<byte>, attempts: seq<Attempt>, cfg: Config)
    decreases attempts
  {
    attempts == []
    || (Fits(buf, attempts[0], cfg) && AllFit(Kept(buf, attempts[0], cfg.eraseAtStart), attempts[1..], cfg))
  }

  // ---- Reading one piece at a time ----

  lemma {:induction false} HuntSkipsNoise(noise: seq<byte>, s: seq<byte>, buf: seq<byte>, cfg: Config, credit: nat)
    requires Without(noise, DOLLAR) && |buf| <= cfg.capacity
    ensures Hunt(noise + s, buf, cfg, credit) == Hunt(s, buf, cfg, credit)
  {
    if noise == [] {
      assert noise + s == s;
    } else {
      HuntSkipsNoise(noise[1..], s, buf, cfg, credit);
      assert (noise + s)[1..] == noise[1..] + s;
    }
  }

  lemma {:induction false} BodyReadsPlain(
      piece: seq<byte>, s: seq<byte>, buf: seq<byte>, sum: byte, cfg: Config, credit: nat)
    requires Plain(piece) && |buf| + |piece| <= cfg.capacity
    ensures Body(piece + s, buf, sum, cfg, credit) == Body(s, buf + piece, RunSum(sum, piece), cfg, credit)
    decreases piece
  {
    if piece == [] {
      assert piece + s == s && buf + piece == buf;
    } else {
      BodyReadsPlain(piece[1..], s, buf + [piece[0]], (sum + piece[0]) % 256, cfg, credit);
      assert (piece + s)[1..] == piece[1..] + s;
      assert buf + [piece[0]] + piece[1..] == buf + piece;
    }
  }

  /** Abandoned pieces leave no trace beyond the erasure of what came before them. */
  lemma {:induction false} BodyDropsPieces(
      abandoned: seq<seq<byte>>, s: seq<byte>, buf: seq<byte>, sum: byte, cfg: Config, credit: nat)
    requires forall f | f in abandoned :: Plain(f)
    requires abandoned != [] ==> |buf| + |abandoned[0]| < cfg.capacity
    requires forall i | 0 < i < |abandoned| :: |abandoned[i]| < cfg.capacity
    requires |buf| <= cfg.capacity
    ensures Body(Pieces(abandoned) + s, buf, sum, cfg, credit)
         == if abandoned == [] then Body(s, buf, sum, cfg, credit) else Body(s, [], 0, cfg, credit)
    decreases abandoned
  {
    hide Body, RunSum;
    if abandoned == [] {
      assert Pieces(abandoned) + s == s;
    } else {
      hide Pieces;
      var first, rest := abandoned[0], Pieces(abandoned[1..]) + s;
      PiecesNext(abandoned, s);
      BodyReadsPlain(first, [DOLLAR] + rest, buf, sum, cfg, credit);
      BodyAtDollar(rest, buf + first, RunSum(sum, first), cfg, credit);
      BodyDropsPieces(abandoned[1..], s, [], 0, cfg, credit);
    }
  }

  lemma PiecesNext(abandoned: seq<seq<byte>>, s: seq<byte>)
    requires abandoned != []
    ensures Pieces(abandoned) + s == abandoned[0] + ([DOLLAR] + (Pieces(abandoned[1..]) + s))
  {
  }

  lemma BodyAtDollar(s: seq<byte>, buf: seq<byte>, sum: byte, cfg: Config, credit: nat)
    requires |buf| < cfg.capacity
    ensures Body([DOLLAR] + s, buf, sum, cfg, credit) == Body(s, [], 0, cfg, credit)
  {
    assert ([DOLLAR] + s)[1..] == s;
  }

  lemma HuntAtStart(s: seq<byte>, buf: seq<byte>, cfg: Config, credit: nat)
    requires |buf| <= cfg.capacity
    ensures Hunt([DOLLAR] + s, buf, cfg, credit) == Body(s, if cfg.eraseAtStart then [] else buf, 0, cfg, credit)
  {
    assert ([DOLLAR] + s)[1..] == s;
  }

  lemma BodyAtEnd(s: seq<byte>, buf: seq<byte>, sum: byte, cfg: Config, credit: nat)
    requires |buf| < cfg.capacity
    ensures Body([HASH] + s, buf, sum, cfg, credit) == Trailer(s, buf, sum, cfg, credit)
  {
    assert ([HASH] + s)[1..] == s;
  }

  /** An attempt up to and including its `#`. */
  function Opening(a: Attempt): seq<byte> {
    a.noise + [DOLLAR] + Pieces(a.abandoned) + a.body + [HASH]
  }

  predicate PlainParts(a: Attempt) {
    Without(a.noise, DOLLAR) && (forall f | f in a.abandoned :: Plain(f)) && Plain(a.body)
  }

  lemma HuntReadsOpening(a: Attempt, s: seq<byte>, buf: seq<byte>, cfg: Config, credit: nat)
    requires PlainParts(a) && Fits(buf, a, cfg) && |buf| <= cfg.capacity
    ensures Hunt(Opening(a) + s, buf, cfg, credit)
         == Trailer(s, Kept(buf, a, cfg.eraseAtStart), Checksum(a.body), cfg, credit)
  {
    hide RunSum, Pieces, Trailer, Hunt, Body;
    var end := [HASH] + s;
    var inner := Pieces(a.abandoned) + (a.body + end);
    assert Opening(a) + s == a.noise + ([DOLLAR] + inner);
    HuntSkipsNoise(a.noise, [DOLLAR] + inner, buf, cfg, credit);
    HuntAtStart(inner, buf, cfg, credit);
    var start := if cfg.eraseAtStart then [] else buf;
    BodyDropsPieces(a.abandoned, a.body + end, start, 0, cfg, credit);
    var kept := if a.abandoned == [] then start else [];
    BodyReadsPlain(a.body, end, kept, 0, cfg, credit);
    assert kept + a.body == Kept(buf, a, cfg.eraseAtStart);
    BodyAtEnd(s, kept + a.body, Checksum(a.body), cfg, credit);
  }

  /** One attempt, read through to its checksum digits. */
  lemma HuntReadsAttempt(a: Attempt, s: seq<byte>, buf: seq<byte>, cfg: Config, credit: nat)
    requires WellFormed(a) && Fits(buf, a, cfg) && |buf| <= cfg.capacity
    ensures Hunt(Wire(a) + s, buf, cfg, credit)
         == Trailer([a.hi, a.lo] + s, Kept(buf, a, cfg.eraseAtStart), Checksum(a.body), cfg, credit)
  {
    hide Pieces, Trailer, Hunt, Checksum;
    assert Wire(a) + s == Opening(a) + ([a.hi, a.lo] + s);
    HuntReadsOpening(a, [a.hi, a.lo] + s, buf, cfg, credit);
  }

  /** An attempt with a wrong checksum is answered with `-` and the loop goes on. */
  lemma HuntRejects(a: Attempt, s: seq<byte>, buf: seq<byte>, cfg: Config, credit: nat)
    requires WellFormed(a) && !ChecksumOk(a) && Fits(buf, a, cfg) && |buf| <= cfg.capacity
    requires !cfg.noAck && credit > 0
    ensures |Kept(buf, a, cfg.eraseAtStart)| <= cfg.capacity
    ensures Hunt(Wire(a) + s, buf, cfg, credit)
         == After(MINUS, Hunt(s, Kept(buf, a, cfg.eraseAtStart), cfg, credit - 1))
  {
    hide Hunt, Wire, Checksum;
    HuntReadsAttempt(a, s, buf, cfg, credit);
    assert ([a.hi, a.lo] + s)[2..] == s;
  }

  /** One with the right checksum is accepted. */
  lemma HuntAccepts(a: Attempt, s: seq<byte>, buf: seq<byte>, cfg: Config, credit: nat)
    requires WellFormed(a) && ChecksumOk(a) && Fits(buf, a, cfg) && |buf| <= cfg.capacity
    requires cfg.noAck || credit > 0
    ensures Hunt(Wire(a) + s, buf, cfg, credit)
         == Reception(Accepted(Kept(buf, a, cfg.eraseAtStart)), s, if cfg.noAck then [] else [PLUS])
  {
    hide Hunt, Wire, Checksum;
    HuntReadsAttempt(a, s, buf, cfg, credit);
    assert ([a.hi, a.lo] + s)[2..] == s;
  }

  /** With acknowledgements off the check digits are read but not compared, and nothing is sent. */
  lemma NoAckTakesAnyDigits(a: Attempt, s: seq<byte>, buf: seq<byte>, cfg: Config, credit: nat)
    requires WellFormed(a) && Fits(buf, a, cfg) && |buf| <= cfg.capacity && cfg.noAck
    ensures Hunt(Wire(a) + s, buf, cfg, credit) == Reception(Accepted(Kept(buf, a, cfg.eraseAtStart)), s, [])
  {
    hide Hunt, Wire, Checksum;
    HuntReadsAttempt(a, s, buf, cfg, credit);
    assert ([a.hi, a.lo] + s)[2..] == s;
  }

  /** How reading fails after the `#` of a frame: the stream ends before both digits, one of the two
      is no hex digit, or the client takes no acknowledgement.  What was read stays read. */
  lemma DigitsFail(a: Attempt, x: byte, y: byte, s: seq<byte>, buf: seq<byte>, cfg: Config, credit: nat)
    requires PlainParts(a) && Fits(buf, a, cfg) && |buf| <= cfg.capacity
    ensures Hunt(Opening(a), buf, cfg, credit) == Reception(CommsFailure, [], [])
    ensures IsHexDigit(x) ==> Hunt(Opening(a) + [x], buf, cfg, credit) == Reception(CommsFailure, [], [])
    ensures !IsHexDigit(x) ==> Hunt(Opening(a) + [x] + s, buf, cfg, credit) == Reception(AssertFailure, s, [])
    ensures IsHexDigit(x) && !IsHexDigit(y) ==>
              Hunt(Opening(a) + [x, y] + s, buf, cfg, credit) == Reception(AssertFailure, s, [])
    ensures IsHexDigit(x) && IsHexDigit(y) && !cfg.noAck && credit == 0 ==>
              Hunt(Opening(a) + [x, y] + s, buf, cfg, credit) == Reception(CommsFailure, s, [])
  {
    hide Hunt, Opening, Checksum;
    assert Opening(a) + [] == Opening(a);
    HuntReadsOpening(a, [], buf, cfg, credit);
    HuntReadsOpening(a, [x], buf, cfg, credit);
    assert Opening(a) + [x] + s == Opening(a) + ([x] + s) && ([x] + s)[1..] == s;
    HuntReadsOpening(a, [x] + s, buf, cfg, credit);
    assert Opening(a) + [x, y] + s == Opening(a) + ([x, y] + s) && ([x, y] + s)[2..] == s;
    HuntReadsOpening(a, [x, y] + s, buf, cfg, credit);
  }

  /** A stream that ends before a `$`, or within a body, is a failed connection; nothing is sent. */
  lemma CutShort(noise: seq<byte>, piece: seq<byte>, buf: seq<byte>, cfg: Config, credit: nat)
    requires Without(noise, DOLLAR) && Plain(piece) && |buf| + |piece| < cfg.capacity
    ensures Hunt(noise, buf, cfg, credit) == Reception(CommsFailure, [], [])
    ensures Hunt(noise + [DOLLAR] + piece, buf, cfg, credit) == Reception(CommsFailure, [], [])
  {
    assert noise + [] == noise;
    HuntSkipsNoise(noise, [], buf, cfg, credit);
    assert Hunt([], buf, cfg, credit) == Reception(CommsFailure, [], []);
    hide Hunt, RunSum;
    var start := if cfg.eraseAtStart then [] else buf;
    assert noise + [DOLLAR] + piece == noise + ([DOLLAR] + (piece + []));
    HuntSkipsNoise(noise, [DOLLAR] + (piece + []), buf, cfg, credit);
    HuntAtStart(piece + [], buf, cfg, credit);
    BodyReadsPlain(piece, [], start, 0, cfg, credit);
  }

  // ---- Main results ----

  /** Any number of transmissions with a bad checksum, then one with a good checksum: each bad
      one is answered by exactly one `-`, the good one by `+`, exactly these bytes are consumed,
      and the payload is what the buffer rule of the chosen variant keeps. */
  lemma {:induction false} ReceiveAfterRejections(
      rejected: seq<Attempt>, good: Attempt, tail: seq<byte>, buf: seq<byte>, cfg: Config, credit: nat)
    requires forall a | a in rejected :: WellFormed(a) && !ChecksumOk(a)
    requires WellFormed(good) && ChecksumOk(good)
    requires !cfg.noAck && |rejected| < credit
    requires |buf| <= cfg.capacity && AllFit(buf, rejected + [good], cfg)
    ensures Hunt(Wires(rejected) + Wire(good) + tail, buf, cfg, credit)
         == Reception(Accepted(KeptAll(buf, rejected + [good], cfg.eraseAtStart)), tail,
                      Repeat([MINUS], |rejected|) + [PLUS])
    decreases rejected
  {
    hide Hunt, Wire, WellFormed, ChecksumOk, Fits;
    if rejected == [] {
      assert rejected + [good] == [good];
      assert Wires(rejected) + Wire(good) + tail == Wire(good) + tail;
      HuntAccepts(good, tail, buf, cfg, credit);
    } else {
      var a, more := rejected[0], rejected[1..];
      var kept := Kept(buf, a, cfg.eraseAtStart);
      var s := Wires(more) + Wire(good) + tail;
      assert Wires(rejected) + Wire(good) + tail == Wire(a) + s;
      assert (rejected + [good])[1..] == more + [good];
      HuntRejects(a, s, buf, cfg, credit);
      ReceiveAfterRejections(more, good, tail, kept, cfg, credit - 1);
    }
  }

  /** With the buffer erased at each leading `$`, only the last body counts. */
  lemma {:induction false} ErasedKeepsLast(attempts: seq<Attempt>, good: Attempt, buf: seq<byte>)
    ensures KeptAll(buf, attempts + [good], true) == good.body
  {
    if attempts == [] {
      assert attempts + [good] == [good];
    } else {
      assert (attempts + [good])[1..] == attempts[1..] + [good];
      ErasedKeepsLast(attempts[1..], good, Kept(buf, attempts[0], true));
    }
  }

  /** The bytes rejected attempts leave behind: every body since the last embedded `$`. */
  function Stale(rejected: seq<Attempt>): seq<byte> {
    if rejected == [] then []
    else
      var last := rejected[|rejected| - 1];
      if last.abandoned != [] then last.body else Stale(rejected[..|rejected| - 1]) + last.body
  }

  lemma {:induction false} WrittenKeepsStale(rejected: seq<Attempt>, good: Attempt)
    ensures KeptAll([], rejected, false) == Stale(rejected)
    ensures KeptAll([], rejected + [good], false)
         == if good.abandoned != [] then good.body else Stale(rejected) + good.body
    decreases |rejected|
  {
    KeptAllAppend([], rejected, good, false);
    if rejected != [] {
      var n := |rejected| - 1;
      WrittenKeepsStale(rejected[..n], rejected[n]);
      assert rejected[..n] + [rejected[n]] == rejected;
    }
  }

  lemma {:induction false} KeptAllAppend(buf: seq<byte>, attempts: seq<Attempt>, a: Attempt, erase: bool)
    ensures KeptAll(buf, attempts + [a], erase) == Kept(KeptAll(buf, attempts, erase), a, erase)
    decreases attempts
  {
    if attempts == [] {
      assert attempts + [a] == [a];
    } else {
      assert (attempts + [a])[1..] == attempts[1..] + [a];
      KeptAllAppend(Kept(buf, attempts[0], erase), attempts[1..], a, erase);
    }
  }

  /** Once the buffer is full the loop as written never accepts another packet and never answers:
      it swallows the rest of the stream. */
  lemma {:induction false} FullBufferSwallowsStream(s: seq<byte>, buf: seq<byte>, cfg: Config, credit: nat)
    requires |buf| == cfg.capacity && !cfg.eraseAtStart
    ensures Hunt(s, buf, cfg, credit) == Reception(CommsFailure, [], [])
    decreases |s|
  {
    if s != [] {
      FullBufferSwallowsStream(s[1..], buf, cfg, credit);
    }
  }

  /** How many attempts are read to their end before one overruns the buffer. */
  function FitCount(buf: seq<byte>, attempts: seq<Attempt>, cfg: Config): nat
    decreases attempts
  {
    if attempts == [] || !Fits(buf, attempts[0], cfg) then 0
    else 1 + FitCount(Kept(buf, attempts[0], cfg.eraseAtStart), attempts[1..], cfg)
  }

  /** A piece that does not fit behind what the buffer holds fills it, and the rest is lost. */
  lemma PieceOverruns(noise: seq<byte>, piece: seq<byte>, s: seq<byte>, buf: seq<byte>, cfg: Config, credit: nat)
    requires Without(noise, DOLLAR) && Plain(piece) && !cfg.eraseAtStart
    requires |buf| <= cfg.capacity <= |buf| + |piece|
    ensures Hunt(noise + ([DOLLAR] + (piece + s)), buf, cfg, credit) == Reception(CommsFailure, [], [])
  {
    hide Hunt, RunSum;
    var k := cfg.capacity - |buf|;
    var head, rest := piece[..k], piece[k..] + s;
    assert piece + s == head + rest;
    HuntSkipsNoise(noise, [DOLLAR] + (piece + s), buf, cfg, credit);
    HuntAtStart(head + rest, buf, cfg, credit);
    BodyReadsPlain(head, rest, buf, 0, cfg, credit);
    FullBufferSwallowsStream(rest, buf + head, cfg, credit);
  }

  /** An attempt that fits an empty buffer but not this one. */
  lemma AttemptOverruns(a: Attempt, s: seq<byte>, buf: seq<byte>, cfg: Config, credit: nat)
    requires WellFormed(a) && |buf| <= cfg.capacity && !cfg.eraseAtStart
    requires Fits([], a, cfg.(eraseAtStart := true)) && !Fits(buf, a, cfg)
    ensures Hunt(Wire(a) + s, buf, cfg, credit) == Reception(CommsFailure, [], [])
  {
    hide Hunt;
    var end := a.body + [HASH, a.hi, a.lo] + s;
    if a.abandoned == [] {
      var rest := [HASH, a.hi, a.lo] + s;
      assert Pieces([]) == [];
      assert Wire(a) + s == a.noise + ([DOLLAR] + (a.body + rest));
      PieceOverruns(a.noise, a.body, rest, buf, cfg, credit);
    } else {
      var rest := [DOLLAR] + Pieces(a.abandoned[1..]) + end;
      assert Wire(a) + s == a.noise + ([DOLLAR] + (a.abandoned[0] + rest));
      PieceOverruns(a.noise, a.abandoned[0], rest, buf, cfg, credit);
    }
  }

  /** When the bytes left over make a later attempt overrun the buffer, everything from there on is
      lost, although each attempt would have fitted on its own. */
  lemma {:induction false} ReceiveUntilOverrun(
      rejected: seq<Attempt>, good: Attempt, tail: seq<byte>, buf: seq<byte>, buf': seq<byte>, cfg: Config, credit: nat)
    requires forall a | a in rejected :: WellFormed(a) && !ChecksumOk(a)
    requires WellFormed(good)
    requires !cfg.noAck && !cfg.eraseAtStart && |rejected| < credit && |buf| <= cfg.capacity
    requires AllFit(buf', rejected + [good], cfg.(eraseAtStart := true)) && !AllFit(buf, rejected + [good], cfg)
    ensures Hunt(Wires(rejected) + Wire(good) + tail, buf, cfg, credit)
         == Reception(CommsFailure, [], Repeat([MINUS], FitCount(buf, rejected + [good], cfg)))
    decreases rejected
  {
    hide Hunt, Wire, WellFormed, ChecksumOk, Fits;
    if rejected == [] {
      assert rejected + [good] == [good];
      assert Wires(rejected) + Wire(good) + tail == Wire(good) + tail;
      AttemptAlone(good, buf, buf', cfg);
      AttemptOverruns(good, tail, buf, cfg, credit);
    } else {
      var a, more := rejected[0], rejected[1..];
      var s := Wires(more) + Wire(good) + tail;
      assert Wires(rejected) + Wire(good) + tail == Wire(a) + s;
      assert (rejected + [good])[1..] == more + [good];
      AttemptAlone(a, buf, buf', cfg);
      if Fits(buf, a, cfg) {
        var kept := Kept(buf, a, false);
        HuntRejects(a, s, buf, cfg, credit);
        ReceiveUntilOverrun(more, good, tail, kept, Kept(buf', a, true), cfg, credit - 1);
      } else {
        AttemptOverruns(a, s, buf, cfg, credit);
      }
    }
  }

  /** With erasure what is in the buffer does not matter; a kept body is within the buffer. */
  lemma AttemptAlone(a: Attempt, buf: seq<byte>, buf': seq<byte>, cfg: Config)
    ensures Fits(buf', a, cfg.(eraseAtStart := true)) ==> Fits([], a, cfg.(eraseAtStart := true))
    ensures Fits(buf, a, cfg) ==> |Kept(buf, a, cfg.eraseAtStart)| < cfg.capacity
  {
  }

  /** When the loop as written does what was intended: exactly when every transmission still fits
      behind the bytes earlier rejected ones left, and the accepted one was itself restarted by an
      embedded `$` or nothing was left over.  If one does not fit, it and everything after it are
      lost and unanswered.  If all fit, the left-over bytes come back in front of the payload. */
  lemma WrittenLoopIsRightIff(
      rejected: seq<Attempt>, good: Attempt, tail: seq<byte>, cfg: Config, credit: nat)
    requires forall a | a in rejected :: WellFormed(a) && !ChecksumOk(a)
    requires WellFormed(good) && ChecksumOk(good)
    requires !cfg.noAck && !cfg.eraseAtStart && |rejected| < credit
    requires AllFit([], rejected + [good], cfg.(eraseAtStart := true))
    ensures var s := Wires(rejected) + Wire(good) + tail;
            var written := Hunt(s, [], cfg, credit);
            var intended := Hunt(s, [], cfg.(eraseAtStart := true), credit);
            var room := AllFit([], rejected + [good], cfg);
            && intended == Reception(Accepted(good.body), tail, Repeat([MINUS], |rejected|) + [PLUS])
            && (written == intended <==> room && (good.abandoned != [] || Stale(rejected) == []))
            && (room ==> written == intended.(outcome := Accepted(
                  if good.abandoned != [] then good.body else Stale(rejected) + good.body)))
            && (!room ==> written == Reception(CommsFailure, [], Repeat([MINUS], FitCount([], rejected + [good], cfg))))
  {
    hide Hunt, AllFit, FitCount;
    ReceiveAfterRejections(rejected, good, tail, [], cfg.(eraseAtStart := true), credit);
    ErasedKeepsLast(rejected, good, []);
    if AllFit([], rejected + [good], cfg) {
      ReceiveAfterRejections(rejected, good, tail, [], cfg, credit);
      WrittenKeepsStale(rejected, good);
      assert |Stale(rejected) + good.body| == |Stale(rejected)| + |good.body|;
      if Stale(rejected) == [] {
        assert Stale(rejected) + good.body == good.body;
      }
    } else {
      ReceiveUntilOverrun(rejected, good, tail, [], [], cfg, credit);
    }
  }

  /** The frame of a payload is an attempt with a good checksum. */
  function AttemptOf(noise: seq<byte>, p: seq<byte>): Attempt {
    var c := Checksum(Escape(p));
    Attempt(noise, [], Escape(p), Hex2Char(c / 16), Hex2Char(c % 16))
  }

  /** Link round trip: after any `$`-free noise, the frame written for p is read back whole, with
      one `+`, and unescapes to p.  It holds for the loop as written and as intended. */
  lemma LinkRoundTrip(noise: seq<byte>, p: seq<byte>, tail: seq<byte>, cfg: Config, credit: nat)
    requires Without(noise, DOLLAR) && |Escape(p)| < cfg.capacity
    requires cfg.noAck || credit > 0
    ensures Hunt(noise + Frame(p) + tail, [], cfg, credit)
         == Reception(Accepted(Escape(p)), tail, if cfg.noAck then [] else [PLUS])
    ensures WellEscaped(Escape(p)) && Unescape(Escape(p)) == p
  {
    hide Hunt, Wire, Escape, Unescape, WellEscaped;
    UnescapeEscape(p);
    AttemptOfFrame(noise, p);
    HuntAccepts(AttemptOf(noise, p), tail, [], cfg, credit);
    assert [] + Escape(p) == Escape(p);
  }

  lemma AttemptOfFrame(noise: seq<byte>, p: seq<byte>)
    requires Without(noise, DOLLAR)
    ensures WellFormed(AttemptOf(noise, p)) && ChecksumOk(AttemptOf(noise, p))
    ensures Wire(AttemptOf(noise, p)) == noise + Frame(p)
  {
    EscapedBodyIsClean(p);
    hide Escape, Checksum;
    assert Pieces([]) == [];
  }

  /** The commonest repair: only the check digits of the first copy were damaged, and the sender
      repeats its frame.  The payload comes back twice over, or, if two copies do not fit the
      buffer, nothing ever comes back; so it is right exactly for the empty payload. */
  lemma RepeatedFrameComesTwice(
      noise: seq<byte>, p: seq<byte>, hi: byte, lo: byte, tail: seq<byte>, cfg: Config, credit: nat)
    requires Without(noise, DOLLAR) && IsHexDigit(hi) && IsHexDigit(lo)
    requires DigitPair(hi, lo) != Checksum(Escape(p)) && |Escape(p)| < cfg.capacity
    requires !cfg.noAck && !cfg.eraseAtStart && credit > 1
    ensures var damaged := [DOLLAR] + Escape(p) + [HASH, hi, lo];
            var written := Hunt(noise + damaged + Frame(p) + tail, [], cfg, credit);
            && (2 * |Escape(p)| < cfg.capacity ==>
                  written == Reception(Accepted(Escape(p + p)), tail, [MINUS, PLUS]))
            && (2 * |Escape(p)| >= cfg.capacity ==> written == Reception(CommsFailure, [], [MINUS]))
            && (written.outcome == Accepted(Escape(p)) <==> p == [])
    ensures WellEscaped(Escape(p + p)) && Unescape(Escape(p + p)) == p + p
  {
    EscapedBodyIsClean(p);
    hide Hunt, Checksum, Unescape, WellEscaped, Escape, AllFit, FitCount, Stale;
    UnescapeEscape(p + p);
    EscapeAppend(p, p);
    EscapedLength(p);
    var e := Escape(p);
    var first, second := Attempt(noise, [], e, hi, lo), AttemptOf([], p);
    TwoAttempts(first, second, cfg);
    AttemptOfFrame([], p);
    assert Wires([first]) + Wire(second) == noise + ([DOLLAR] + e + [HASH, hi, lo]) + Frame(p) by {
      hide Frame;
      assert Pieces([]) == [] && [first][1..] == [];
    }
    WrittenLoopIsRightIff([first], second, tail, cfg, credit);
    assert Repeat([MINUS], 1) == [MINUS] by {
      assert Repeat([MINUS], 0) == [];
    }
  }

  lemma TwoAttempts(a: Attempt, b: Attempt, cfg: Config)
    requires !cfg.eraseAtStart && a.abandoned == [] == b.abandoned && |a.body| < cfg.capacity && |b.body| < cfg.capacity
    ensures AllFit([], [a] + [b], cfg.(eraseAtStart := true))
    ensures AllFit([], [a] + [b], cfg) <==> |a.body| + |b.body| < cfg.capacity
    ensures !AllFit([], [a] + [b], cfg) ==> FitCount([], [a] + [b], cfg) == 1
    ensures Stale([a]) == a.body
  {
    assert ([a] + [b])[1..] == [b] && [b][1..] == [] && [a][..0] == [];
    assert Kept([], a, false) == a.body;
    assert AllFit(a.body, [b], cfg) <==> Fits(a.body, b, cfg);
  }

  /** What is left to read when an overlong frame has filled the buffer. */
  function Spill(p: seq<byte>, capacity: nat): seq<byte>
    requires capacity <= |Escape(p)|
  {
    Escape(p)[capacity..] + [HASH] + HexPair(Checksum(Escape(p)))
  }

  lemma OverlongFrameOverruns(noise: seq<byte>, p: seq<byte>, tail: seq<byte>, cfg: Config, credit: nat)
    requires Without(noise, DOLLAR) && |Escape(p)| >= cfg.capacity
    ensures Hunt(noise + Frame(p) + tail, [], cfg, credit)
         == Hunt(Spill(p, cfg.capacity) + tail, Escape(p)[..cfg.capacity], cfg, credit)
    ensures Without(Spill(p, cfg.capacity), DOLLAR)
  {
    EscapedBodyIsClean(p);
    hide Escape, RunSum, Hunt;
    var head := Escape(p)[..cfg.capacity];
    var s := Spill(p, cfg.capacity) + tail;
    assert noise + Frame(p) + tail == noise + ([DOLLAR] + (head + s));
    HuntSkipsNoise(noise, [DOLLAR] + (head + s), [], cfg, credit);
    HuntAtStart(head + s, [], cfg, credit);
    BodyReadsPlain(head, s, [], 0, cfg, credit);
    assert [] + head == head;
  }

  /** The capacity bound of the round trip is exact: with a longer body the loop as written reads
      the frame and everything after it without ever succeeding. */
  lemma OverlongFrameIsFatal(noise: seq<byte>, p: seq<byte>, tail: seq<byte>, cfg: Config, credit: nat)
    requires Without(noise, DOLLAR) && |Escape(p)| >= cfg.capacity && !cfg.eraseAtStart
    ensures Hunt(noise + Frame(p) + tail, [], cfg, credit) == Reception(CommsFailure, [], [])
  {
    OverlongFrameOverruns(noise, p, tail, cfg, credit);
    FullBufferSwallowsStream(Spill(p, cfg.capacity) + tail, Escape(p)[..cfg.capacity], cfg, credit);
  }

  /** As intended, an overlong frame costs nothing but itself: the next frame is delivered. */
  lemma IntendedSurvivesOverrun(
      noise: seq<byte>, long: seq<byte>, between: seq<byte>, p: seq<byte>, tail: seq<byte>, cfg: Config, credit: nat)
    requires Without(noise, DOLLAR) && Without(between, DOLLAR) && cfg.eraseAtStart
    requires |Escape(long)| >= cfg.capacity && |Escape(p)| < cfg.capacity
    requires cfg.noAck || credit > 0
    ensures Hunt(noise + Frame(long) + (between + Frame(p) + tail), [], cfg, credit)
         == Reception(Accepted(Escape(p)), tail, if cfg.noAck then [] else [PLUS])
  {
    var s := between + Frame(p) + tail;
    var buf := Escape(long)[..cfg.capacity];
    OverlongFrameOverruns(noise, long, s, cfg, credit);
    HuntSkipsNoise(Spill(long, cfg.capacity), s, buf, cfg, credit);
    HuntIgnoresBuffer(s, buf, [], cfg, credit);
    LinkRoundTrip(between, p, tail, cfg, credit);
  }

  lemma {:induction false} HuntIgnoresBuffer(
      s: seq<byte>, buf: seq<byte>, buf': seq<byte>, cfg: Config, credit: nat)
    requires cfg.eraseAtStart && |buf| <= cfg.capacity && |buf'| <= cfg.capacity
    ensures Hunt(s, buf, cfg, credit) == Hunt(s, buf', cfg, credit)
  {
    if s != [] && s[0] != DOLLAR {
      HuntIgnoresBuffer(s[1..], buf, buf', cfg, credit);
    }
  }

  /** Whatever the outcome, bytes come off the front of the stream and no more than `credit` replies
      are written. */
  lemma {:induction false} HuntReadsPrefix(s: seq<byte>, buf: seq<byte>, cfg: Config, credit: nat)
    requires |buf| <= cfg.capacity
    ensures var r := Hunt(s, buf, cfg, credit);
            |r.rest| <= |s| && s[|s| - |r.rest|..] == r.rest && |r.replies| <= credit
    ensures s != [] || Hunt(s, buf, cfg, credit).outcome.Accepted? ==> |Hunt(s, buf, cfg, credit).rest| < |s|
    decreases |s|, 0
  {
    if s != [] {
      if s[0] != DOLLAR {
        HuntReadsPrefix(s[1..], buf, cfg, credit);
      } else {
        BodyReadsPrefix(s[1..], if cfg.eraseAtStart then [] else buf, 0, cfg, credit);
      }
    }
  }

  lemma {:induction false} BodyReadsPrefix(s: seq<byte>, buf: seq<byte>, sum: byte, cfg: Config, credit: nat)
    requires |buf| <= cfg.capacity
    ensures var r := Body(s, buf, sum, cfg, credit);
            |r.rest| <= |s| && s[|s| - |r.rest|..] == r.rest && |r.replies| <= credit
    decreases |s|, 1
  {
    if |buf| == cfg.capacity {
      HuntReadsPrefix(s, buf, cfg, credit);
    } else if s != [] {
      if s[0] == DOLLAR {
        BodyReadsPrefix(s[1..], [], 0, cfg, credit);
      } else if s[0] == HASH {
        TrailerReadsPrefix(s[1..], buf, sum, cfg, credit);
      } else {
        BodyReadsPrefix(s[1..], buf + [s[0]], (sum + s[0]) % 256, cfg, credit);
      }
    }
  }

  lemma {:induction false} TrailerReadsPrefix(s: seq<byte>, buf: seq<byte>, sum: byte, cfg: Config, credit: nat)
    requires |buf| <= cfg.capacity
    ensures var r := Trailer(s, buf, sum, cfg, credit);
            |r.rest| <= |s| && s[|s| - |r.rest|..] == r.rest && |r.replies| <= credit
    decreases |s|, 2
  {
    if |s| >= 2 && credit > 0 {
      HuntReadsPrefix(s[2..], buf, cfg, credit - 1);
    }
  }
}
