/** Memory packets: `m`, `M` and `X` (GdbServer.cpp). */
module Memory {
  import opened Bytes
  import opened Framing
  import opened Hex
  import opened PacketBuilder

  /** Two digits for each byte, as `m` answers. */
  function HexOf(data: seq<byte>): (s: seq<byte>)
    ensures |s| == 2 * |data|
  {
    if data == [] then [] else HexPair(data[0]) + HexOf(data[1..])
  }

  /** The bytes that pairs of digits stand for. */
  function BytesOf(digits: seq<byte>): (data: seq<byte>)
    requires DigitPairs(digits)
    ensures 2 * |data| == |digits|
  {
    if digits == [] then []
    else [Char2Hex(digits[0]) * 16 + Char2Hex(digits[1])] + BytesOf(digits[2..])
  }

  /** The target writes what lies inside its memory. */
  function Poke(mem: seq<byte>, addr: nat, b: byte): (r: seq<byte>)
    ensures |r| == |mem|
  {
    if addr < |mem| then mem[addr := b] else mem
  }

  /** Byte-by-byte writes. */
  function PokeAll(mem: seq<byte>, addr: nat, data: seq<byte>): (r: seq<byte>)
    ensures |r| == |mem|
    decreases data
  {
    if data == [] then mem else PokeAll(Poke(mem, addr, data[0]), addr + 1, data[1..])
  }

  /** A block written at once: all of it, or nothing if it does not lie inside memory. */
  function WriteBlock(mem: seq<byte>, addr: nat, data: seq<byte>): (r: seq<byte>)
    ensures |r| == |mem|
  {
    if addr + |data| <= |mem| then mem[..addr] + data + mem[addr + |data|..] else mem
  }

  /** Aborted: the assertion that the data are hex digits failed midway. */
  datatype Answer = Ok | Error | Aborted

  /** How many pairs of hex digits the data begin with. */
  function LeadingPairs(digits: seq<byte>): (k: nat)
    ensures 2 * k <= |digits| && DigitPairs(digits[..2 * k])
    ensures 2 * k + 2 <= |digits| ==> !IsHexDigit(digits[2 * k]) || !IsHexDigit(digits[2 * k + 1])
  {
    if |digits| < 2 || !IsHexDigit(digits[0]) || !IsHexDigit(digits[1]) then 0
    else
      var k := 1 + LeadingPairs(digits[2..]);
      assert digits[..2 * k] == digits[..2] + digits[2..][..2 * k - 2];
      k
  }

  /** rspWriteMem, for the data after the colon: what comes before the first bad digit is written. */
  function WriteHex(mem: seq<byte>, addr: nat, len: nat, digits: seq<byte>): (seq<byte>, Answer) {
    if 2 * len != |digits| then (mem, Error)
    else
      var k := LeadingPairs(digits);
      (PokeAll(mem, addr, BytesOf(digits[..2 * k])), if k == len then Ok else Aborted)
  }

  /** rspWriteMemBin, for the data after the colon, still escaped. */
  function WriteBin(mem: seq<byte>, addr: u32, len: nat, raw: seq<byte>): (seq<byte>, Answer)
    requires WellEscaped(raw)
  {
    var data := Unescape(raw);
    (WriteBlock(mem, addr, data[..if len < |data| then len else |data|]), Ok)
  }

  /** The length a read is cut down to. */
  function ReadLength(len: nat, capacity: nat): nat
    requires capacity > 0
  {
    if 2 * len >= capacity then (capacity - 1) / 2 else len
  }

  /** rspReadMem: empty if the range does not lie inside memory. */
  function ReadMem(mem: seq<byte>, addr: nat, len: nat, capacity: nat): seq<byte>
    requires capacity > 0
  {
    var n := ReadLength(len, capacity);
    if addr + n <= |mem| then HexOf(mem[addr..addr + n]) else []
  }

  lemma {:induction false} BytesOfHex(data: seq<byte>)
    ensures DigitPairs(HexOf(data)) && BytesOf(HexOf(data)) == data
    ensures forall i | 0 <= i < |HexOf(data)| :: IsLowerHexDigit(HexOf(data)[i])
  {
    if data != [] {
      BytesOfHex(data[1..]);
      var s := HexOf(data);
      assert s[2..] == HexOf(data[1..]);
    }
  }

  lemma {:induction false} HexOfBytes(digits: seq<byte>)
    requires DigitPairs(digits) && forall i | 0 <= i < |digits| :: IsLowerHexDigit(digits[i])
    ensures HexOf(BytesOf(digits)) == digits
  {
    if digits != [] {
      HexOfBytes(digits[2..]);
      PairRoundTrip(digits[0], digits[1]);
      SplitPair(digits, 0);
      assert BytesOf(digits)[1..] == BytesOf(digits[2..]);
    }
  }

  /** Inside memory, writing byte by byte and writing the block come to the same. */
  lemma {:induction false} PokeAllIsBlock(mem: seq<byte>, addr: nat, data: seq<byte>)
    requires addr + |data| <= |mem|
    ensures PokeAll(mem, addr, data) == WriteBlock(mem, addr, data)
    decreases data
  {
    hide WriteBlock;
    if data == [] {
      BlockOfNothing(mem, addr);
    } else {
      PokeAllIsBlock(Poke(mem, addr, data[0]), addr + 1, data[1..]);
      PokeThenBlock(mem, addr, data);
    }
  }

  lemma BlockOfNothing(mem: seq<byte>, addr: nat)
    ensures WriteBlock(mem, addr, []) == mem
  {
  }

  lemma PokeThenBlock(mem: seq<byte>, addr: nat, data: seq<byte>)
    requires data != [] && addr + |data| <= |mem|
    ensures WriteBlock(Poke(mem, addr, data[0]), addr + 1, data[1..]) == WriteBlock(mem, addr, data)
  {
    var poked, rest, end := mem[addr := data[0]], data[1..], addr + |data|;
    assert poked[..addr + 1] == mem[..addr] + [data[0]];
    assert poked[end..] == mem[end..];
    Regroup(mem[..addr], data);
    assert addr + 1 + |rest| == end;
    assert WriteBlock(poked, addr + 1, rest) == poked[..addr + 1] + rest + poked[end..];
  }

  lemma Regroup(before: seq<byte>, data: seq<byte>)
    requires data != []
    ensures before + [data[0]] + data[1..] == before + data
  {
  }

  /** Memory packets agree.  For any digits and any escaped form of the bytes they stand for, `M`
      and `X` of the same range leave the same memory, with exactly that range changed; and `m` of
      the range then answers with the lowercase digits of those bytes, cut to what the packet
      holds. */
  lemma MemoryPacketsAgree(mem: seq<byte>, addr: u32, digits: seq<byte>, raw: seq<byte>, capacity: nat)
    requires DigitPairs(digits) && WellEscaped(raw) && Unescape(raw) == BytesOf(digits)
    requires addr + |BytesOf(digits)| <= |mem| && capacity > 0
    ensures var data, len := BytesOf(digits), |BytesOf(digits)|;
            var after := mem[..addr] + data + mem[addr + len..];
            && WriteHex(mem, addr, len, digits) == (after, Ok)
            && WriteBin(mem, addr, len, raw) == (after, Ok)
            && ReadMem(after, addr, len, capacity) == HexOf(data[..ReadLength(len, capacity)])
            && (2 * len < capacity && (forall i | 0 <= i < |digits| :: IsLowerHexDigit(digits[i])) ==>
                  ReadMem(after, addr, len, capacity) == digits)
  {
    hide HexOf, BytesOf, Unescape, WellEscaped, PokeAll, LeadingPairs;
    var data := BytesOf(digits);
    var len := |data|;
    assert LeadingPairs(digits) == len && digits[..2 * len] == digits;
    PokeAllIsBlock(mem, addr, data);
    assert data[..len] == data;
    var after := mem[..addr] + data + mem[addr + len..];
    var n := ReadLength(len, capacity);
    assert after[addr..addr + n] == data[..n];
    if forall i | 0 <= i < |digits| :: IsLowerHexDigit(digits[i]) {
      HexOfBytes(digits);
    }
  }

  /** Any bytes a client wants in memory get there either way, and come back: `M` with their digits
      and `X` with their escaped form leave them in the range, and `m` answers with the digits of as
      many as the packet holds. */
  lemma BytesSurviveMemory(mem: seq<byte>, addr: u32, data: seq<byte>, capacity: nat)
    requires addr + |data| <= |mem| && capacity > 0
    ensures DigitPairs(HexOf(data)) && WellEscaped(Escape(data))
    ensures var (byDigits, answer) := WriteHex(mem, addr, |data|, HexOf(data));
            && answer == Ok && WriteBin(mem, addr, |data|, Escape(data)) == (byDigits, Ok)
            && byDigits[addr..addr + |data|] == data
            && ReadMem(byDigits, addr, |data|, capacity) == HexOf(data[..ReadLength(|data|, capacity)])
  {
    hide HexOf, BytesOf, Escape, Unescape, WellEscaped, PokeAll, WriteHex, WriteBin, ReadMem;
    UnescapeEscape(data);
    BytesOfHex(data);
    MemoryPacketsAgree(mem, addr, HexOf(data), Escape(data), capacity);
  }

  /** The clamp is tight: no reply fills the packet, a request is cut only if its digits would, and
      then to as many bytes as do not.  A range outside memory brings nothing. */
  lemma ReadNeverOverflows(mem: seq<byte>, addr: nat, len: nat, capacity: nat)
    requires capacity > 0
    ensures |ReadMem(mem, addr, len, capacity)| < capacity
    ensures ReadLength(len, capacity) == len <==> 2 * len < capacity
    ensures forall n: nat | n <= len && 2 * n < capacity :: n <= ReadLength(len, capacity)
    ensures addr + ReadLength(len, capacity) > |mem| ==> ReadMem(mem, addr, len, capacity) == []
  {
  }

  /** How `M` goes wrong: with a number of digits other than two for each byte nothing is written;
      at the first pair that is not hex, `k`, the assertion fails, with the `k` bytes before it
      written. */
  lemma BadWriteStops(mem: seq<byte>, addr: nat, len: nat, digits: seq<byte>, k: nat)
    ensures 2 * len != |digits| ==> WriteHex(mem, addr, len, digits) == (mem, Error)
    ensures 2 * k + 2 <= |digits| == 2 * len && DigitPairs(digits[..2 * k]) && addr + k <= |mem|
            && !(IsHexDigit(digits[2 * k]) && IsHexDigit(digits[2 * k + 1])) ==>
              WriteHex(mem, addr, len, digits) == (mem[..addr] + BytesOf(digits[..2 * k]) + mem[addr + k..], Aborted)
  {
    hide BytesOf, PokeAll, LeadingPairs;
    if 2 * k + 2 <= |digits| == 2 * len && DigitPairs(digits[..2 * k]) && addr + k <= |mem|
       && !(IsHexDigit(digits[2 * k]) && IsHexDigit(digits[2 * k + 1])) {
      FirstBadPair(digits, k);
      PokeAllIsBlock(mem, addr, BytesOf(digits[..2 * k]));
    }
  }

  lemma FirstBadPair(digits: seq<byte>, k: nat)
    requires 2 * k + 2 <= |digits| && DigitPairs(digits[..2 * k])
    requires !(IsHexDigit(digits[2 * k]) && IsHexDigit(digits[2 * k + 1]))
    ensures LeadingPairs(digits) == k
  {
    hide LeadingPairs;
    PairsAreHex(digits, k);
    PairsAreHex(digits, LeadingPairs(digits));
  }

  lemma PairsAreHex(digits: seq<byte>, n: nat)
    requires 2 * n <= |digits| && DigitPairs(digits[..2 * n])
    ensures forall i | 0 <= i < n :: IsHexDigit(digits[2 * i]) && IsHexDigit(digits[2 * i + 1])
  {
    forall i | 0 <= i < n ensures IsHexDigit(digits[2 * i]) && IsHexDigit(digits[2 * i + 1]) {
      assert digits[..2 * n][2 * i] == digits[2 * i] && digits[..2 * n][2 * i + 1] == digits[2 * i + 1];
    }
  }

  /** An `X` with more or fewer bytes than it announces writes the smaller number, as a block: all of
      them or, if they do not lie inside memory, none. */
  lemma MismatchedBytes(mem: seq<byte>, addr: u32, len: nat, raw: seq<byte>)
    requires WellEscaped(raw)
    ensures var data := Unescape(raw);
            var n := if len <= |data| then len else |data|;
            WriteBin(mem, addr, len, raw)
            == (if addr + n <= |mem| then mem[..addr] + data[..n] + mem[addr + n..] else mem, Ok)
  {
  }

  // ---- The code ----

  /** rspReadMem, after the address and length have been read; appends digit by digit. */
  method RspReadMem(mem: array<byte>, addr: nat, len: nat, capacity: nat) returns (reply: seq<byte>)
    requires capacity > 0
    ensures reply == ReadMem(mem[..], addr, len, capacity)
  {
    hide HexOf, HexPair;
    var n := len;
    if 2 * n >= capacity {
      n := (capacity - 1) / 2;
    }
    var response := new RspPacketBuilder(capacity);
    HexOfEmpty();
    if addr + n <= mem.Length {
      var buf := mem[addr..addr + n];
      var off := 0;
      while off < n
        invariant 0 <= off <= n && response.Valid() && response.data.Length == capacity && fresh(response.data)
        invariant response.Contents() == HexOf(buf[..off])
      {
        HexOfNext(buf, off);
        AppendHex(response, buf[off]);
        off := off + 1;
      }
      assert buf[..n] == buf;
    }
    reply := response.Contents();
  }

  method AppendHex(response: RspPacketBuilder, b: byte)
    requires response.Valid() && |response.Contents()| + 2 <= response.data.Length
    modifies response`len, response.data
    ensures response.Valid() && response.Contents() == old(response.Contents()) + HexPair(b)
  {
    response.AppendChar(Hex2Char(b / 16));
    response.AppendChar(Hex2Char(b % 16));
  }

  lemma HexOfEmpty()
    ensures HexOf([]) == []
  {
  }

  lemma {:induction false} HexOfNext(data: seq<byte>, k: nat)
    requires k < |data|
    ensures HexOf(data[..k + 1]) == HexOf(data[..k]) + HexPair(data[k])
  {
    if k == 0 {
      assert data[..1][1..] == [] && data[..0] == [];
    } else {
      assert data[..k + 1][1..] == data[1..][..k] && data[..k][1..] == data[1..][..k - 1];
      HexOfNext(data[1..], k - 1);
    }
  }

  lemma PokeNext(mem: seq<byte>, addr: nat, digits: seq<byte>, off: nat)
    requires DigitPairs(digits) && 2 * off + 2 <= |digits|
    ensures DigitPairs(digits[2 * off..]) && DigitPairs(digits[2 * (off + 1)..])
    ensures PokeAll(mem, addr + off, BytesOf(digits[2 * off..]))
         == PokeAll(Poke(mem, addr + off, Char2Hex(digits[2 * off]) * 16 + Char2Hex(digits[2 * off + 1])),
                    addr + off + 1, BytesOf(digits[2 * (off + 1)..]))
  {
    var rest := digits[2 * off..];
    assert rest[2..] == digits[2 * (off + 1)..];
    assert BytesOf(rest)[1..] == BytesOf(rest[2..]);
  }

  lemma PokeNone(mem: seq<byte>, addr: nat, digits: seq<byte>)
    ensures PokeAll(mem, addr, BytesOf(digits[|digits|..])) == mem
  {
  }

  /** rspWriteMem, one byte at a time. */
  method RspWriteMem(mem: array<byte>, addr: nat, len: nat, digits: seq<byte>) returns (answer: Answer)
    modifies mem
    ensures (mem[..], answer) == WriteHex(old(mem[..]), addr, len, digits)
  {
    hide PokeAll, BytesOf, LeadingPairs;
    if 2 * len != |digits| {
      return Error;
    }
    ghost var k := LeadingPairs(digits);
    ghost var good := digits[..2 * k];
    var off := 0;
    assert good[0..] == good;
    while off < len
      invariant 0 <= off <= k && DigitPairs(good[2 * off..])
      invariant PokeAll(old(mem[..]), addr, BytesOf(good)) == PokeAll(mem[..], addr + off, BytesOf(good[2 * off..]))
    {
      assert off < k ==> IsHexDigit(digits[2 * off]) && IsHexDigit(digits[2 * off + 1]) by {
        assert off < k ==> good[2 * off] == digits[2 * off] && good[2 * off + 1] == digits[2 * off + 1];
      }
      if !IsHexDigit(digits[2 * off]) || !IsHexDigit(digits[2 * off + 1]) {
        PokeNone(mem[..], addr + off, good);
        return Aborted;
      }
      ghost var was := mem[..];
      PokeNext(was, addr, good, off);
      var val: byte := Char2Hex(digits[2 * off]) * 16 + Char2Hex(digits[2 * off + 1]);
      if addr + off < mem.Length {
        mem[addr + off] := val;
      }
      assert mem[..] == Poke(was, addr + off, val);
      off := off + 1;
    }
    PokeNone(mem[..], addr + off, good);
    answer := Ok;
  }

  /** rspWriteMemBin: unescape in place, then write the shorter of what was asked and supplied. */
  method RspWriteMemBin(mem: array<byte>, addr: u32, len: nat, bindat: array<byte>) returns (answer: Answer)
    requires WellEscaped(bindat[..]) && mem != bindat
    modifies mem, bindat
    ensures (mem[..], answer) == WriteBin(old(mem[..]), addr, len, old(bindat[..]))
  {
    assert bindat[..bindat.Length] == bindat[..];
    var newLen := RspUnescape(bindat, bindat.Length);
    var n := if len < newLen then len else newLen;
    ghost var data := Unescape(old(bindat[..]));
    assert bindat[..n] == bindat[..newLen][..n] == data[..n];
    if addr + n <= mem.Length {
      ghost var was := mem[..];
      forall i | 0 <= i < n {
        mem[addr + i] := bindat[i];
      }
      assert mem[..] == was[..addr] + data[..n] + was[addr + n..];
    }
    answer := Ok;
  }
}
