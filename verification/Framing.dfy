/** Packet framing: escaping, the modulo-256 checksum and the frame `$body#hh`
    (AbstractConnection.cpp, Utils.cpp). */
module Framing {
  import opened Bytes

  predicate NeedsEscape(b: byte) {
    b == DOLLAR || b == HASH || b == STAR || b == BRACE
  }

  function EscapeByte(b: byte): seq<byte> {
    if NeedsEscape(b) then [BRACE, FlipBit5(b)] else [b]
  }

  function Escape(p: seq<byte>): seq<byte> {
    if p == [] then [] else EscapeByte(p[0]) + Escape(p[1..])
  }

  /** Every `}` is followed by the byte it escapes. */
  predicate WellEscaped(s: seq<byte>) {
    s == [] || if s[0] == BRACE then |s| >= 2 && WellEscaped(s[2..]) else WellEscaped(s[1..])
  }

  function Unescape(s: seq<byte>): seq<byte>
    requires WellEscaped(s)
  {
    if s == [] then []
    else if s[0] == BRACE then [FlipBit5(s[1])] + Unescape(s[2..])
    else [s[0]] + Unescape(s[1..])
  }

  /** The running 8-bit sum both ends keep while a body goes by. */
  function RunSum(sum: byte, s: seq<byte>): byte
    decreases s
  {
    if s == [] then sum else RunSum((sum + s[0]) % 256, s[1..])
  }

  function Checksum(body: seq<byte>): byte { RunSum(0, body) }

  function HexPair(c: byte): seq<byte> { [Hex2Char(c / 16), Hex2Char(c % 16)] }

  /** The frame PutPkt writes for a payload. */
  function Frame(p: seq<byte>): seq<byte> {
    [DOLLAR] + Escape(p) + [HASH] + HexPair(Checksum(Escape(p)))
  }

  /** A body the receiver reads through: no start and no end character. */
  predicate Plain(s: seq<byte>) {
    Without(s, DOLLAR) && Without(s, HASH)
  }

  lemma {:induction false} EscapeAppend(p: seq<byte>, q: seq<byte>)
    ensures Escape(p + q) == Escape(p) + Escape(q)
  {
    hide EscapeByte;
    if p == [] {
      assert p + q == q;
    } else {
      var first, rest := EscapeByte(p[0]), Escape(p[1..]);
      EscapeAppend(p[1..], q);
      assert (p + q)[1..] == p[1..] + q;
      assert first + (rest + Escape(q)) == first + rest + Escape(q);
    }
  }

  lemma {:induction false} RunSumAppend(sum: byte, s: seq<byte>, t: seq<byte>)
    ensures RunSum(sum, s + t) == RunSum(RunSum(sum, s), t)
    decreases s
  {
    if s == [] {
      assert s + t == t;
    } else {
      RunSumAppend((sum + s[0]) % 256, s[1..], t);
      assert (s + t)[1..] == s[1..] + t;
    }
  }

  /** No raw `$`, `#` or `*` is left in an escaped body. */
  lemma {:induction false} EscapedBodyIsClean(p: seq<byte>)
    ensures Plain(Escape(p)) && Without(Escape(p), STAR)
  {
    if p != [] {
      EscapedBodyIsClean(p[1..]);
    }
  }

  lemma {:induction false} UnescapeEscape(p: seq<byte>)
    ensures WellEscaped(Escape(p)) && Unescape(Escape(p)) == p
  {
    if p != [] {
      UnescapeEscape(p[1..]);
      FlipBit5Twice(p[0]);
      var e := EscapeByte(p[0]);
      assert Escape(p)[|e|..] == Escape(p[1..]);
      assert p == [p[0]] + p[1..];
    }
  }

  /** What each byte becomes on the wire, spelt out: these four are escaped, nothing else is, and a
      payload is escaped byte by byte (EscapeAppend). */
  lemma EscapedForms(b: byte)
    ensures Escape([b]) == match b
                           case 36 => [125, 4]    // '$'
                           case 35 => [125, 3]    // '#'
                           case 42 => [125, 10]   // '*'
                           case 125 => [125, 93]  // '}'
                           case _ => [b]
  {
    assert [b][1..] == [];
    assert EscapeByte(b) + Escape([]) == EscapeByte(b);
  }

  /** Unescaping goes piece by piece too: a plain byte is itself, and after `}` comes the byte that
      differs in the binary digit worth 32, whether or not it had to be escaped. */
  lemma UnescapedForms(a: seq<byte>, x: byte)
    requires WellEscaped(a)
    ensures WellEscaped([125, x] + a) && Unescape([125, x] + a) == [if (x / 32) % 2 == 0 then x + 32 else x - 32] + Unescape(a)
    ensures x != 125 ==> WellEscaped([x] + a) && Unescape([x] + a) == [x] + Unescape(a)
    ensures !WellEscaped([125])
  {
    assert ([125, x] + a)[2..] == a && ([x] + a)[1..] == a;
    FlipBit5Flips(x);
  }

  /** The sum of the bytes of a body. */
  function Total(s: seq<byte>): nat {
    if s == [] then 0 else Total(s[..|s| - 1]) + s[|s| - 1]
  }

  /** The checksum is the sum of the bytes as they stand on the wire, modulo 256. */
  lemma {:induction false} ChecksumIsSum(s: seq<byte>)
    ensures Checksum(s) == Total(s) % 256
  {
    ChecksumNext(if s == [] then [] else s[..|s| - 1], if s == [] then 0 else s[|s| - 1]);
    hide Checksum;
    if s != [] {
      var front, last := s[..|s| - 1], s[|s| - 1];
      ChecksumIsSum(front);
      assert front + [last] == s;
    }
  }

  lemma ChecksumNext(s: seq<byte>, b: byte)
    ensures Checksum([]) == 0 && Checksum(s + [b]) == (Checksum(s) + b) % 256
  {
    RunSumAppend(0, s, [b]);
    assert RunSum(Checksum(s), [b]) == RunSum((Checksum(s) + b) % 256, []);
  }

  /** The bytes of a text. */
  function Text(s: string): seq<byte>
    requires forall i | 0 <= i < |s| :: s[i] as int < 256
  {
    seq(|s|, i requires 0 <= i < |s| => s[i] as int)
  }

  lemma SumOfTwo(a: byte, b: byte)
    ensures Checksum([a, b]) == (a + b) % 256
  {
    assert [a, b][..1] == [a] && [a][..0] == [];
    assert Total([a]) == Total([]) + a && Total([a, b]) == Total([a]) + b;
    ChecksumIsSum([a, b]);
  }

  lemma FrameFrom(p: seq<byte>, a: byte, b: byte, sum: byte)
    requires Escape(p) == [a, b] && sum == (a + b) % 256
    ensures Frame(p) == [DOLLAR, a, b, HASH, Hex2Char(sum / 16), Hex2Char(sum % 16)]
  {
    SumOfTwo(a, b);
    hide Checksum;
  }

  lemma FrameOfOk()
    ensures Frame([79, 75]) == [36, 79, 75, 35, 57, 97]
  {
    EscapeAppend([79], [75]);
    EscapedForms(79);
    EscapedForms(75);
    hide Escape, Frame, Checksum;
    assert [79] + [75] == [79, 75];
    FrameFrom([79, 75], 79, 75, 154);
  }

  lemma FrameOfBrace()
    ensures Frame([125]) == [36, 125, 93, 35, 100, 97]
  {
    EscapedForms(125);
    hide Escape, Frame, Checksum;
    FrameFrom([125], 125, 93, 218);
  }

  /** Frames as they are written. */
  lemma KnownFrames()
    ensures Frame([79, 75]) == [36, 79, 75, 35, 57, 97] == Text("$OK#9a")
    ensures Frame([125]) == [36, 125, 93, 35, 100, 97] == Text("$}]#da")
  {
    FrameOfOk();
    FrameOfBrace();
    hide Frame;
    assert Text("$OK#9a") == [36, 79, 75, 35, 57, 97];
    assert Text("$}]#da") == [36, 125, 93, 35, 100, 97];
  }

  /** Escaping never shrinks a payload and at most doubles it. */
  lemma {:induction false} EscapedLength(p: seq<byte>)
    ensures |p| <= |Escape(p)| <= 2 * |p|
  {
    if p != [] {
      EscapedLength(p[1..]);
    }
  }

  /** One turn of the unescape loop: the byte it writes and how far it moves. */
  lemma UnescapeStep(s: seq<byte>, from: nat, done: seq<byte>)
    requires from < |s| && WellEscaped(s[from..])
    ensures s[from] == BRACE ==> from + 1 < |s| && WellEscaped(s[from + 2..])
    ensures s[from] == BRACE ==>
              done + Unescape(s[from..]) == done + [FlipBit5(s[from + 1])] + Unescape(s[from + 2..])
    ensures s[from] != BRACE ==> WellEscaped(s[from + 1..])
    ensures s[from] != BRACE ==> done + Unescape(s[from..]) == done + [s[from]] + Unescape(s[from + 1..])
  {
    var rest := s[from..];
    assert rest[1..] == s[from + 1..];
    if s[from] == BRACE {
      assert rest[2..] == s[from + 2..];
    }
  }

  /** Utils::rspUnescape: unescape in place, return the new length. */
  method RspUnescape(buf: array<byte>, len: nat) returns (toOffset: nat)
    requires len <= buf.Length && WellEscaped(buf[..len])
    modifies buf
    ensures toOffset <= len
    ensures buf[..toOffset] == Unescape(old(buf[..len]))
    ensures forall k | len <= k < buf.Length :: buf[k] == old(buf[k])
  {
    hide Unescape, WellEscaped, FlipBit5;
    ghost var source := buf[..len];
    ghost var done: seq<byte> := [];
    ghost var goal := Unescape(source);
    var fromOffset := 0;
    toOffset := 0;
    assert source[0..] == source;
    while fromOffset < len
      invariant toOffset == |done| <= fromOffset <= len
      invariant buf[..toOffset] == done
      invariant forall k | fromOffset <= k < len :: buf[k] == source[k]
      invariant forall k | len <= k < buf.Length :: buf[k] == old(buf[k])
      invariant WellEscaped(source[fromOffset..])
      invariant done + Unescape(source[fromOffset..]) == goal
    {
      UnescapeStep(source, fromOffset, done);
      if buf[fromOffset] == BRACE {
        fromOffset := fromOffset + 1;
        buf[toOffset] := FlipBit5(buf[fromOffset]);
      } else {
        buf[toOffset] := buf[fromOffset];
      }
      done := done + [buf[toOffset]];
      fromOffset := fromOffset + 1;
      toOffset := toOffset + 1;
    }
    assert source[len..] == [];
    UnescapeEmpty();
  }

  lemma UnescapeEmpty()
    ensures WellEscaped([]) && Unescape([]) == []
  {
  }
}
