/** The `g` and `G` packets: all registers out and all registers in (GdbServer.cpp). */
module Registers {
  import opened Bytes
  import opened Hex
  import opened PacketBuilder

  /** The reply to `g` as the builder collects it: a register that does not fit is left out. */
  function ReadAllFrom(regs: seq<nat>, i: nat, size: nat, buf: seq<byte>, capacity: nat): seq<byte>
    decreases |regs| - i
  {
    if i >= |regs| then buf
    else ReadAllFrom(regs, i + 1, size, Add(buf, RegHex(regs[i], size, true), capacity), capacity)
  }

  function ReadAll(regs: seq<nat>, size: nat, capacity: nat): seq<byte> {
    ReadAllFrom(regs, 0, size, [], capacity)
  }

  /** The digits `G` expects for `count` registers. */
  predicate WellFormed(digits: seq<byte>, count: nat, size: nat) {
    |digits| == 2 * size * count && DigitPairs(digits)
  }

  /** The values of the registers in a `G` packet's digits. */
  function WriteAll(digits: seq<byte>, count: nat, size: nat): (regs: seq<nat>)
    requires WellFormed(digits, count, size)
    ensures |regs| == count
    decreases count
  {
    if count == 0 then []
    else
      SplitDigits(digits, count, size);
      [RegValue(digits[..2 * size], true)] + WriteAll(digits[2 * size..], count - 1, size)
  }

  lemma SplitDigits(digits: seq<byte>, count: nat, size: nat)
    requires WellFormed(digits, count, size) && count > 0
    ensures 2 * size <= |digits| && DigitPairs(digits[..2 * size]) && WellFormed(digits[2 * size..], count - 1, size)
  {
    assert 2 * size * count == 2 * size * (count - 1) + 2 * size;
    assert 2 * size * (count - 1) >= 0 by { NonNegative(2 * size, count - 1); }
    assert |digits[2 * size..]| % 2 == 0;
  }

  lemma NonNegative(a: nat, b: nat)
    ensures a * b >= 0
  {
  }

  /** All digits of registers `i` and up. */
  function AllHex(regs: seq<nat>, size: nat): (s: seq<byte>)
    ensures |s| == 2 * size * |regs| && forall i | 0 <= i < |s| :: IsLowerHexDigit(s[i])
  {
    if regs == [] then [] else
      assert 2 * size * |regs| == 2 * size * (|regs| - 1) + 2 * size;
      RegHex(regs[0], size, true) + AllHex(regs[1..], size)
  }

  lemma {:induction false} ReadAllFits(regs: seq<nat>, i: nat, size: nat, buf: seq<byte>, capacity: nat)
    requires i <= |regs| && |buf| + |AllHex(regs[i..], size)| <= capacity
    ensures ReadAllFrom(regs, i, size, buf, capacity) == buf + AllHex(regs[i..], size)
    decreases |regs| - i
  {
    if i < |regs| {
      assert regs[i..][1..] == regs[i + 1..];
      ReadAllFits(regs, i + 1, size, buf + RegHex(regs[i], size, true), capacity);
    }
  }

  lemma {:induction false} ReadAllBounded(regs: seq<nat>, i: nat, size: nat, buf: seq<byte>, capacity: nat)
    requires |buf| <= capacity
    ensures |buf| <= |ReadAllFrom(regs, i, size, buf, capacity)| <= capacity
    decreases |regs| - i
  {
    if i < |regs| {
      ReadAllBounded(regs, i + 1, size, Add(buf, RegHex(regs[i], size, true), capacity), capacity);
    }
  }

  /** The reply holds all registers exactly when they fit the packet. */
  lemma ReplyIsCompleteIff(regs: seq<nat>, size: nat, capacity: nat)
    ensures ReadAll(regs, size, capacity) == AllHex(regs, size) <==> 2 * size * |regs| <= capacity
  {
    assert regs[0..] == regs;
    ReadAllBounded(regs, 0, size, [], capacity);
    if |AllHex(regs, size)| <= capacity {
      ReadAllFits(regs, 0, size, [], capacity);
      assert [] + AllHex(regs, size) == AllHex(regs, size);
    }
  }

  lemma {:induction false} WriteBackAll(regs: seq<nat>, size: nat)
    requires forall i | 0 <= i < |regs| :: regs[i] < Pow256(size)
    ensures WellFormed(AllHex(regs, size), |regs|, size) && WriteAll(AllHex(regs, size), |regs|, size) == regs
  {
    var s := AllHex(regs, size);
    assert |s| % 2 == 0 by { Even(size, |regs|); }
    if regs != [] {
      WriteBackAll(regs[1..], size);
      RegRoundTrip(regs[0], size, true);
      SplitDigits(s, |regs|, size);
      assert s[..2 * size] == RegHex(regs[0], size, true) && s[2 * size..] == AllHex(regs[1..], size);
    }
  }

  lemma Even(size: nat, count: nat)
    ensures (2 * size * count) % 2 == 0
  {
    assert 2 * size * count == 2 * (size * count);
  }

  /** Sending the `g` reply back as `G` leaves every register unchanged, whenever it fits. */
  lemma ReadThenWrite(regs: seq<nat>, size: nat, capacity: nat)
    requires 2 * size * |regs| <= capacity
    requires forall i | 0 <= i < |regs| :: regs[i] < Pow256(size)
    ensures WellFormed(ReadAll(regs, size, capacity), |regs|, size)
    ensures WriteAll(ReadAll(regs, size, capacity), |regs|, size) == regs
  {
    ReplyIsCompleteIff(regs, size, capacity);
    WriteBackAll(regs, size);
  }

  lemma {:induction false} DigitsComeBack(digits: seq<byte>, count: nat, size: nat)
    requires WellFormed(digits, count, size) && forall i | 0 <= i < |digits| :: IsLowerHexDigit(digits[i])
    ensures AllHex(WriteAll(digits, count, size), size) == digits
    decreases count
  {
    if count > 0 {
      SplitDigits(digits, count, size);
      var head, rest := digits[..2 * size], digits[2 * size..];
      DigitsComeBack(rest, count - 1, size);
      RegDigitsRoundTrip(head, size, true);
      var regs := WriteAll(digits, count, size);
      assert regs[1..] == WriteAll(rest, count - 1, size);
      assert digits == head + rest;
    } else {
      assert digits == [];
    }
  }

  lemma {:induction false} WrittenFit(digits: seq<byte>, count: nat, size: nat)
    requires WellFormed(digits, count, size)
    ensures forall i | 0 <= i < count :: WriteAll(digits, count, size)[i] < Pow256(size)
    decreases count
  {
    if count > 0 {
      SplitDigits(digits, count, size);
      WrittenFit(digits[2 * size..], count - 1, size);
      RegValueBelow(digits[..2 * size], true);
    }
  }

  /** After a `G` of any hex digits, sending what `g` answers back as another `G` changes nothing;
      and `g` answers with the very same digits if they were lowercase. */
  lemma WriteThenRead(digits: seq<byte>, count: nat, size: nat, capacity: nat)
    requires WellFormed(digits, count, size) && |digits| <= capacity
    ensures var regs := WriteAll(digits, count, size);
            var reply := ReadAll(regs, size, capacity);
            && WellFormed(reply, count, size) && WriteAll(reply, count, size) == regs
            && ((forall i | 0 <= i < |digits| :: IsLowerHexDigit(digits[i])) ==> reply == digits)
  {
    WrittenFit(digits, count, size);
    ReadThenWrite(WriteAll(digits, count, size), size, capacity);
    if forall i | 0 <= i < |digits| :: IsLowerHexDigit(digits[i]) {
      DigitsComeBack(digits, count, size);
      ReplyIsCompleteIff(WriteAll(digits, count, size), size, capacity);
    }
  }

  // ---- The code ----

  /** rspReadAllRegs. */
  method RspReadAllRegs(regs: array<nat>, size: nat, capacity: nat) returns (reply: seq<byte>)
    requires size <= 8 && forall i | 0 <= i < regs.Length :: regs[i] < TWO_64
    ensures reply == ReadAll(regs[..], size, capacity)
  {
    hide RegHex;
    ghost var all := regs[..];
    var response := new RspPacketBuilder(capacity);
    var result := new byte[32];
    var regNum := 0;
    while regNum < regs.Length
      invariant 0 <= regNum <= regs.Length && response.Valid() && response.data.Length == capacity
      invariant fresh(response) && fresh(response.data) && fresh(result) && result.Length == 32 && result != response.data
      invariant regs[..] == all
      invariant ReadAll(all, size, capacity) == ReadAllFrom(all, regNum, size, response.Contents(), capacity)
    {
      RegVal2Hex(regs[regNum], result, size, true);
      response.AddData(result[..2 * size]);
      regNum := regNum + 1;
    }
    reply := response.Contents();
  }

  /** rspWriteAllRegs, for the digits after the `G`. */
  method RspWriteAllRegs(regs: array<nat>, size: nat, digits: seq<byte>)
    requires size <= 8 && WellFormed(digits, regs.Length, size)
    modifies regs
    ensures regs[..] == WriteAll(digits, regs.Length, size)
  {
    hide RegValue, DigitPairs;
    ghost var goal := WriteAll(digits, regs.Length, size);
    var rest := digits;
    var regNum := 0;
    while regNum < regs.Length
      invariant 0 <= regNum <= regs.Length && WellFormed(rest, regs.Length - regNum, size)
      invariant goal == regs[..regNum] + WriteAll(rest, regs.Length - regNum, size)
    {
      SplitDigits(rest, regs.Length - regNum, size);
      ghost var done := regs[..regNum];
      assert rest[..2 * size][..2 * size] == rest[..2 * size];
      var val := Hex2RegVal(rest, size, true);
      regs[regNum] := val;
      assert regs[..regNum + 1] == done + [val];
      rest := rest[2 * size..];
      regNum := regNum + 1;
    }
    assert regs[..regs.Length] == regs[..];
  }
}
