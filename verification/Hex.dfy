/** Numbers in hex: the minimal-length form of val2Hex and the fixed-size register form
    (Utils.cpp). */
module Hex {
  import opened Bytes
  import opened Framing

  const TWO_64: nat := 0x1_0000_0000_0000_0000

  // ---- val2Hex and hex2Val ----

  /** Most significant digit first, no leading zero. */
  function HexDigits(v: nat): (s: seq<byte>)
    ensures |s| >= 1 && forall i | 0 <= i < |s| :: IsLowerHexDigit(s[i])
  {
    if v < 16 then [Hex2Char(v)] else HexDigits(v / 16) + [Hex2Char(v % 16)]
  }

  function HexValue(s: seq<byte>): nat
    requires forall i | 0 <= i < |s| :: IsHexDigit(s[i])
  {
    if s == [] then 0 else HexValue(s[..|s| - 1]) * 16 + Char2Hex(s[|s| - 1])
  }

  function Pow16(k: nat): (p: nat)
    ensures p >= 1
  {
    if k == 0 then 1 else 16 * Pow16(k - 1)
  }

  lemma {:induction false} ValueOfDigits(v: nat)
    ensures HexValue(HexDigits(v)) == v
    ensures HexDigits(v) == [ZERO] <==> v == 0
    ensures v != 0 ==> HexDigits(v)[0] != ZERO
  {
    if v >= 16 {
      ValueOfDigits(v / 16);
      var s := HexDigits(v);
      assert s[..|s| - 1] == HexDigits(v / 16);
    } else {
      assert [Hex2Char(v)][..0] == [];
    }
  }

  lemma {:induction false} DigitCount(v: nat, k: nat)
    requires 1 <= k && v < Pow16(k)
    ensures |HexDigits(v)| <= k
  {
    if v >= 16 {
      assert Pow16(k) == 16 * Pow16(k - 1);
      assert k > 1;
      DigitCount(v / 16, k - 1);
    }
  }

  lemma {:induction false} ValueBelow(s: seq<byte>)
    requires forall i | 0 <= i < |s| :: IsHexDigit(s[i])
    ensures HexValue(s) < Pow16(|s|)
  {
    if s != [] {
      ValueBelow(s[..|s| - 1]);
    }
  }

  function Reversed(s: seq<byte>): (r: seq<byte>)
    ensures |r| == |s| && forall i | 0 <= i < |r| :: r[i] == s[|s| - 1 - i]
  {
    seq(|s|, i requires 0 <= i < |s| => s[|s| - 1 - i])
  }

  /** The digits in the order val2Hex finds them. */
  function BackDigits(v: nat): seq<byte> {
    [Hex2Char(v % 16)] + if v < 16 then [] else BackDigits(v / 16)
  }

  lemma {:induction false} BackDigitsReversed(v: nat)
    ensures HexDigits(v) == Reversed(BackDigits(v))
  {
    ReversedPrepend(Hex2Char(v % 16), if v < 16 then [] else BackDigits(v / 16));
    hide Reversed;
    if v >= 16 {
      BackDigitsReversed(v / 16);
    }
  }

  lemma ReversedPrepend(d: byte, s: seq<byte>)
    ensures Reversed([d] + s) == Reversed(s) + [d]
    ensures Reversed([]) == []
  {
  }

  /** Utils::val2Hex, writing at `off`: digits, a terminator, and the length. */
  method Val2Hex(val: nat, buf: array<byte>, off: nat) returns (len: nat)
    requires off + |HexDigits(val)| < buf.Length
    modifies buf
    ensures len == |HexDigits(val)| && buf[off..off + len] == HexDigits(val) && buf[off + len] == 0
    ensures buf[..off] == old(buf[..off]) && buf[off + len + 1..] == old(buf[off + len + 1..])
  {
    BackDigitsReversed(val);
    hide HexDigits, BackDigits;
    len := WriteBackDigits(val, buf, off);
    ReverseInPlace(buf, off, len);
    buf[off + len] := 0;
  }

  lemma BackDigitsNext(v: nat, done: seq<byte>)
    ensures |BackDigits(v)| > 0 && BackDigits(v)[1..] == if v / 16 == 0 then [] else BackDigits(v / 16)
    ensures done + BackDigits(v) == done + [Hex2Char(v % 16)] + BackDigits(v)[1..]
  {
  }

  /** The first half of val2Hex does it back to front. */
  method WriteBackDigits(val: nat, buf: array<byte>, off: nat) returns (numChars: nat)
    requires off + |BackDigits(val)| <= buf.Length
    modifies buf
    ensures numChars == |BackDigits(val)| && buf[off..off + numChars] == BackDigits(val)
    ensures buf[..off] == old(buf[..off]) && buf[off + numChars..] == old(buf[off + numChars..])
  {
    hide BackDigits;
    ghost var done: seq<byte>, todo := [], BackDigits(val);
    var rest := val;
    numChars := 0;
    var more := true;
    while more
      invariant numChars == |done| && off + numChars + |todo| <= buf.Length
      invariant todo == if more then BackDigits(rest) else []
      invariant done + todo == BackDigits(val)
      invariant buf[off..off + numChars] == done
      invariant buf[..off] == old(buf[..off]) && buf[off + numChars..] == old(buf[off + numChars..])
      decreases more, rest
    {
      BackDigitsNext(rest, done);
      buf[off + numChars] := Hex2Char(rest % 16);
      done, todo := done + [Hex2Char(rest % 16)], todo[1..];
      rest := rest / 16;
      numChars := numChars + 1;
      more := rest != 0;
    }
  }

  /** The outer `i` characters on each side of the slice have changed places. */
  ghost predicate HalfReversed(cur: seq<byte>, was: seq<byte>, off: nat, n: nat, i: nat) {
    && |cur| == |was| && off + n <= |was| && 2 * i <= n
    && (forall k | off <= k < off + i :: cur[k] == was[2 * off + n - 1 - k])
    && (forall k | off + n - i <= k < off + n :: cur[k] == was[2 * off + n - 1 - k])
    && (forall k | off + i <= k < off + n - i :: cur[k] == was[k])
    && cur[..off] == was[..off] && cur[off + n..] == was[off + n..]
  }

  method ReverseInPlace(buf: array<byte>, off: nat, n: nat)
    requires off + n <= buf.Length
    modifies buf
    ensures buf[off..off + n] == Reversed(old(buf[off..off + n]))
    ensures buf[..off] == old(buf[..off]) && buf[off + n..] == old(buf[off + n..])
  {
    ghost var was := buf[..];
    var i := 0;
    assert HalfReversed(was, was, off, n, 0);
    hide HalfReversed;
    while i < n / 2
      invariant 0 <= i <= n / 2 && HalfReversed(buf[..], was, off, n, i)
    {
      ghost var cur := buf[..];
      var tmp := buf[off + n - i - 1];
      buf[off + n - i - 1] := buf[off + i];
      buf[off + i] := tmp;
      assert buf[..] == cur[off + n - i - 1 := cur[off + i]][off + i := cur[off + n - i - 1]];
      SwapReverses(cur, was, off, n, i);
      i := i + 1;
    }
    FullyReversed(buf[..], was, off, n, i);
    assert buf[off..off + n] == buf[..][off..off + n] && was[off..off + n] == old(buf[off..off + n]);
    assert buf[..off] == buf[..][..off] && buf[off + n..] == buf[..][off + n..];
  }

  lemma SwapReverses(cur: seq<byte>, was: seq<byte>, off: nat, n: nat, i: nat)
    requires i < n / 2 && off + n <= |cur| && HalfReversed(cur, was, off, n, i)
    ensures var next := cur[off + n - i - 1 := cur[off + i]][off + i := cur[off + n - i - 1]];
            HalfReversed(next, was, off, n, i + 1)
  {
  }

  lemma FullyReversed(cur: seq<byte>, was: seq<byte>, off: nat, n: nat, i: nat)
    requires i == n / 2 && off + n <= |cur| && HalfReversed(cur, was, off, n, i)
    ensures cur[off..off + n] == Reversed(was[off..off + n])
    ensures cur[..off] == was[..off] && cur[off + n..] == was[off + n..]
  {
    var slice, back := cur[off..off + n], Reversed(was[off..off + n]);
    forall j | 0 <= j < n ensures slice[j] == back[j] {
      var k := off + j;
      assert slice[j] == cur[k] && back[j] == was[2 * off + n - 1 - k];
      assert k < off + i || k >= off + n - i || 2 * j == n - 1;
    }
  }

  /** Utils::hex2Val. */
  method Hex2Val(buf: seq<byte>) returns (val: nat)
    requires |buf| <= 8 && IsHexStr(buf)
    ensures val == HexValue(buf) && val < 0x1_0000_0000
  {
    val := 0;
    var i := 0;
    while i < |buf|
      invariant 0 <= i <= |buf| && val == HexValue(buf[..i])
    {
      assert buf[..i + 1][..i] == buf[..i];
      val := val * 16 + Char2Hex(buf[i]);
      i := i + 1;
    }
    assert buf[..|buf|] == buf;
    ValueFits32(buf);
  }

  lemma ValueFits32(s: seq<byte>)
    requires |s| <= 8 && forall i | 0 <= i < |s| :: IsHexDigit(s[i])
    ensures HexValue(s) < 0x1_0000_0000
  {
    ValueBelow(s);
    Pow16Mono(|s|, 8);
    Pow16Eight();
  }

  lemma Pow16Eight()
    ensures Pow16(8) == 0x1_0000_0000
  {
    assert Pow16(4) == 0x1_0000;
    assert Pow16(8) == 16 * (16 * (16 * (16 * Pow16(4))));
  }

  lemma {:induction false} Pow16Mono(a: nat, b: nat)
    requires a <= b
    ensures Pow16(a) <= Pow16(b)
  {
    if a < b {
      Pow16Mono(a, b - 1);
    }
  }

  // ---- regVal2Hex and hex2RegVal ----

  function Pow256(n: nat): (p: nat)
    ensures p >= 1
  {
    if n == 0 then 1 else 256 * Pow256(n - 1)
  }

  /** The low `n` bytes of `val`, two digits each, in target byte order. */
  function RegHex(val: nat, n: nat, little: bool): (s: seq<byte>)
    ensures |s| == 2 * n && forall i | 0 <= i < |s| :: IsLowerHexDigit(s[i])
    decreases n
  {
    if n == 0 then []
    else if little then HexPair(val % 256) + RegHex(val / 256, n - 1, little)
    else RegHex(val / 256, n - 1, little) + HexPair(val % 256)
  }

  /** Byte `k` of a number, the lowest first. */
  function ByteAt(val: nat, k: nat): byte {
    if k == 0 then val % 256 else ByteAt(val / 256, k - 1)
  }

  /** Which digits are whose: in a little-endian register the first pair is the lowest byte, in a
      big-endian one the last. */
  lemma {:induction false} RegHexPairs(val: nat, n: nat, little: bool, k: nat)
    requires k < n
    ensures var at := if little then 2 * k else 2 * (n - 1 - k);
            RegHex(val, n, little)[at..at + 2] == HexPair(ByteAt(val, k))
    decreases n
  {
    var rest, pair := RegHex(val / 256, n - 1, little), HexPair(val % 256);
    assert RegHex(val, n, little) == if little then pair + rest else rest + pair;
    if k > 0 {
      RegHexPairs(val / 256, n - 1, little, k - 1);
    }
    hide RegHex, HexPair;
    PairAtEnds(pair, rest);
    if k > 0 {
      PairBetween(pair, rest, if little then 2 * (k - 1) else 2 * (n - 1 - k));
    }
  }

  lemma PairAtEnds(pair: seq<byte>, rest: seq<byte>)
    requires |pair| == 2
    ensures (pair + rest)[0..2] == pair && (rest + pair)[|rest|..|rest| + 2] == pair
  {
  }

  lemma PairBetween(pair: seq<byte>, rest: seq<byte>, i: nat)
    requires |pair| == 2 && i + 2 <= |rest|
    ensures (pair + rest)[i + 2..i + 4] == rest[i..i + 2] == (rest + pair)[i..i + 2]
  {
  }

  predicate DigitPairs(s: seq<byte>) {
    |s| % 2 == 0 && forall i | 0 <= i < |s| :: IsHexDigit(s[i])
  }

  function RegValue(s: seq<byte>, little: bool): nat
    requires DigitPairs(s)
    decreases |s|
  {
    if s == [] then 0
    else if little then Char2Hex(s[0]) * 16 + Char2Hex(s[1]) + 256 * RegValue(s[2..], little)
    else
      var k := |s| - 2;
      Char2Hex(s[k]) * 16 + Char2Hex(s[k + 1]) + 256 * RegValue(s[..k], little)
  }

  /** A value that fits comes back unchanged. */
  lemma {:induction false} RegRoundTrip(val: nat, n: nat, little: bool)
    requires val < Pow256(n)
    ensures RegValue(RegHex(val, n, little), little) == val
    decreases n
  {
    if n > 0 {
      RegRoundTrip(val / 256, n - 1, little);
      var s := RegHex(val, n, little);
      if little {
        assert s[2..] == RegHex(val / 256, n - 1, little);
      } else {
        assert s[..|s| - 2] == RegHex(val / 256, n - 1, little);
      }
    }
  }

  lemma DivMod256(b: byte, r: nat)
    ensures (b + 256 * r) % 256 == b && (b + 256 * r) / 256 == r
  {
  }

  /** Lowercase digits come back unchanged. */
  lemma {:induction false} RegDigitsRoundTrip(s: seq<byte>, n: nat, little: bool)
    requires |s| == 2 * n && DigitPairs(s) && forall i | 0 <= i < |s| :: IsLowerHexDigit(s[i])
    ensures RegHex(RegValue(s, little), n, little) == s
    decreases n
  {
    hide RegHex, RegValue;
    if n == 0 {
      RegHexNone(RegValue(s, little), little);
    } else if little {
      RegDigitsRoundTrip(s[2..], n - 1, true);
      RegDigitsStep(s[0], s[1], s[2..], n, true);
      SplitPair(s, 0);
    } else {
      var k := |s| - 2;
      RegDigitsRoundTrip(s[..k], n - 1, false);
      RegDigitsStep(s[k], s[k + 1], s[..k], n, false);
      SplitPair(s, k);
    }
  }

  lemma RegHexNone(val: nat, little: bool)
    ensures RegHex(val, 0, little) == []
  {
  }

  lemma RegDigitsStep(hi: byte, lo: byte, rest: seq<byte>, n: nat, little: bool)
    requires n > 0 && IsLowerHexDigit(hi) && IsLowerHexDigit(lo)
    requires DigitPairs(rest) && RegHex(RegValue(rest, little), n - 1, little) == rest
    ensures var s := if little then [hi, lo] + rest else rest + [hi, lo];
            DigitPairs(s) && RegHex(RegValue(s, little), n, little) == s
  {
    hide RegHex, RegValue, HexPair, Char2Hex;
    PairRoundTrip(hi, lo);
    RegValuePair(hi, lo, rest, little);
    RegHexPrepend(Char2Hex(hi) * 16 + Char2Hex(lo), RegValue(rest, little), n, little);
  }

  lemma RegValuePair(hi: byte, lo: byte, rest: seq<byte>, little: bool)
    requires IsHexDigit(hi) && IsHexDigit(lo) && DigitPairs(rest)
    ensures var s := if little then [hi, lo] + rest else rest + [hi, lo];
            DigitPairs(s) && RegValue(s, little) == Char2Hex(hi) * 16 + Char2Hex(lo) + 256 * RegValue(rest, little)
  {
    if little {
      assert ([hi, lo] + rest)[2..] == rest;
    } else {
      assert (rest + [hi, lo])[..|rest|] == rest;
    }
  }

  lemma SplitPair(s: seq<byte>, k: nat)
    requires k + 2 <= |s|
    ensures k == 0 ==> s == [s[k], s[k + 1]] + s[2..]
    ensures k == |s| - 2 ==> s == s[..k] + [s[k], s[k + 1]]
  {
  }

  lemma PairRoundTrip(hi: byte, lo: byte)
    requires IsLowerHexDigit(hi) && IsLowerHexDigit(lo)
    ensures HexPair(Char2Hex(hi) * 16 + Char2Hex(lo)) == [hi, lo]
  {
    LowerHexDigitIsCanonical(hi);
    LowerHexDigitIsCanonical(lo);
  }

  lemma RegHexPrepend(b: byte, r: nat, n: nat, little: bool)
    requires n > 0
    ensures RegHex(b + 256 * r, n, little)
         == if little then HexPair(b) + RegHex(r, n - 1, little) else RegHex(r, n - 1, little) + HexPair(b)
  {
    DivMod256(b, r);
  }

  lemma {:induction false} RegValueBelow(s: seq<byte>, little: bool)
    requires DigitPairs(s)
    ensures RegValue(s, little) < Pow256(|s| / 2)
    decreases |s|
  {
    if s != [] {
      RegValueBelow(if little then s[2..] else s[..|s| - 2], little);
    }
  }

  /** Utils::regVal2Hex. */
  method RegVal2Hex(val: nat, buf: array<byte>, numBytes: nat, isLittleEndianP: bool)
    requires val < TWO_64 && numBytes <= 8 && 2 * numBytes < buf.Length
    modifies buf
    ensures buf[..2 * numBytes] == RegHex(val, numBytes, isLittleEndianP) && buf[2 * numBytes] == 0
    ensures forall i | 2 * numBytes < i < buf.Length :: buf[i] == old(buf[i])
  {
    if isLittleEndianP {
      RegVal2HexLittle(val, buf, numBytes);
    } else {
      RegVal2HexBig(val, buf, numBytes);
    }
    buf[numBytes * 2] := 0;
  }

  method RegVal2HexLittle(val: nat, buf: array<byte>, numBytes: nat)
    requires 2 * numBytes < buf.Length
    modifies buf
    ensures buf[..2 * numBytes] == RegHex(val, numBytes, true)
    ensures buf[2 * numBytes..] == old(buf[2 * numBytes..])
  {
    hide RegHex, HexPair;
    ghost var done: seq<byte> := [];
    var rest, n := val, 0;
    while n < numBytes
      invariant 0 <= n <= numBytes && buf[..2 * n] == done
      invariant done + RegHex(rest, numBytes - n, true) == RegHex(val, numBytes, true)
      invariant buf[2 * numBytes..] == old(buf[2 * numBytes..])
    {
      RegHexNext(rest, numBytes - n, done, true);
      ghost var was := buf[..];
      PutPair(buf, 2 * n, rest % 256);
      PairPut(was, buf[..], 2 * n, HexPair(rest % 256), 2 * numBytes);
      done := done + HexPair(rest % 256);
      rest := rest / 256;
      n := n + 1;
    }
  }

  method RegVal2HexBig(val: nat, buf: array<byte>, numBytes: nat)
    requires 2 * numBytes < buf.Length
    modifies buf
    ensures buf[..2 * numBytes] == RegHex(val, numBytes, false)
    ensures buf[2 * numBytes..] == old(buf[2 * numBytes..])
  {
    hide RegHex, HexPair;
    ghost var done: seq<byte> := [];
    assert RegHex(val, numBytes, false) + done == RegHex(val, numBytes, false);
    var rest, n := val, numBytes;
    while n > 0
      invariant 0 <= n <= numBytes && buf[2 * n..2 * numBytes] == done
      invariant RegHex(rest, n, false) + done == RegHex(val, numBytes, false)
      invariant buf[2 * numBytes..] == old(buf[2 * numBytes..])
    {
      RegHexNext(rest, n, done, false);
      n := n - 1;
      ghost var was := buf[..];
      PutPair(buf, 2 * n, rest % 256);
      PairPut(was, buf[..], 2 * n, HexPair(rest % 256), 2 * numBytes);
      done := HexPair(rest % 256) + done;
      rest := rest / 256;
    }
  }

  lemma RegHexNext(val: nat, n: nat, done: seq<byte>, little: bool)
    requires n > 0
    ensures little ==> done + RegHex(val, n, true) == done + HexPair(val % 256) + RegHex(val / 256, n - 1, true)
    ensures !little ==> RegHex(val, n, false) + done == RegHex(val / 256, n - 1, false) + (HexPair(val % 256) + done)
  {
  }

  /** What PutPair does to the slices the loops are about. */
  lemma PairPut(was: seq<byte>, now: seq<byte>, at: nat, pair: seq<byte>, end: nat)
    requires at + 2 <= end <= |was| && |pair| == 2 && now == was[..at] + pair + was[at + 2..]
    ensures now[..at + 2] == was[..at] + pair && now[at..end] == pair + was[at + 2..end] && now[end..] == was[end..]
  {
    var front, behind := was[..at] + pair, was[at + 2..];
    assert now == front + behind && |front| == at + 2;
    assert now[at..end] == (front + behind)[at..at + 2] + behind[..end - at - 2];
    assert behind[..end - at - 2] == was[at + 2..end];
  }

  method PutPair(buf: array<byte>, at: nat, b: byte)
    requires at + 2 <= buf.Length
    modifies buf
    ensures buf[..] == old(buf[..at]) + HexPair(b) + old(buf[at + 2..])
  {
    buf[at] := Hex2Char(b / 16);
    buf[at + 1] := Hex2Char(b % 16);
  }

  /** Utils::hex2RegVal. */
  method Hex2RegVal(buf: seq<byte>, numBytes: nat, isLittleEndianP: bool) returns (val: nat)
    requires numBytes <= 8 && 2 * numBytes <= |buf| && DigitPairs(buf[..2 * numBytes])
    ensures val == RegValue(buf[..2 * numBytes], isLittleEndianP)
  {
    hide RegValue, Char2Hex;
    ghost var digits := buf[..2 * numBytes];
    RegValueEmpty(digits);
    val := 0;
    if isLittleEndianP {
      var n := numBytes;
      while n > 0
        invariant 0 <= n <= numBytes && val == RegValue(digits[2 * n..], true)
      {
        n := n - 1;
        RegValueNext(digits, n);
        val := val * 16 + Char2Hex(buf[n * 2]);
        val := val * 16 + Char2Hex(buf[n * 2 + 1]);
      }
      assert digits[0..] == digits;
    } else {
      var n := 0;
      while n < numBytes
        invariant 0 <= n <= numBytes && val == RegValue(digits[..2 * n], false)
      {
        RegValueNext(digits, n);
        val := val * 16 + Char2Hex(buf[n * 2]);
        val := val * 16 + Char2Hex(buf[n * 2 + 1]);
        n := n + 1;
      }
      assert digits[..2 * numBytes] == digits;
    }
  }

  lemma RegValueEmpty(digits: seq<byte>)
    ensures RegValue(digits[|digits|..], true) == 0 == RegValue(digits[..0], false)
  {
  }

  lemma RegValueNext(digits: seq<byte>, n: nat)
    requires DigitPairs(digits) && 2 * n + 2 <= |digits|
    ensures var pair := Char2Hex(digits[2 * n]) * 16 + Char2Hex(digits[2 * n + 1]);
            && RegValue(digits[2 * n..], true) == pair + 256 * RegValue(digits[2 * n + 2..], true)
            && RegValue(digits[..2 * n + 2], false) == pair + 256 * RegValue(digits[..2 * n], false)
  {
    assert digits[2 * n..][2..] == digits[2 * n + 2..];
    assert digits[..2 * n + 2][..2 * n] == digits[..2 * n];
  }
}
