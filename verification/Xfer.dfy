/** Reading a target description in pieces: the qXfer branch of rspQuery (GdbServer.cpp) and
    ByteView::fromHex (ByteView.h). */
module Xfer {
  import opened Bytes
  import opened Hex
  import opened Split
  import opened PacketBuilder

  datatype Option<T> = None | Some(value: T)

  /** Either `E00` or `m`/`l` and data. */
  datatype Reply = Refused | Data(text: seq<byte>)

  /** ByteView::fromHex, modulo 2^64; None stands for failure. */
  function FromHexAcc(acc: nat, s: seq<byte>): Option<nat>
    decreases s
  {
    if s == [] then Some(acc)
    else if !IsHexDigit(s[0]) then None
    else FromHexAcc((acc * 16 + Char2Hex(s[0])) % TWO_64, s[1..])
  }

  function FromHex(s: seq<byte>): Option<nat> { FromHexAcc(0, s) }

  /** The reply for `len` bytes of a file from `start`. */
  function Chunk(file: seq<byte>, start: nat, len: nat, capacity: nat): seq<byte> {
    var view := LStrip(file, start);
    Add(Add([], [if |view| <= len then LOWER_L else LOWER_M], capacity), First(view, len), capacity)
  }

  /** The whole branch: split the packet, read the numbers, find the file, cut out the piece. */
  function ReadFeature(payload: seq<byte>, files: map<seq<byte>, seq<byte>>, capacity: nat): Reply {
    var operands := Pieces(payload, COLON);
    if |operands| != 5 then Refused
    else
      var offsets := Pieces(operands[4], COMMA);
      if |offsets| != 2 then Refused
      else
        var start, len := FromHex(offsets[0]), FromHex(offsets[1]);
        if start.None? || len.None? || operands[3] !in files then Refused
        else Data(Chunk(files[operands[3]], start.value, len.value, capacity))
  }

  // ---- What the client sends ----

  /** `qXfer:features:read:annex:offset,length`. */
  function RequestText(words: seq<seq<byte>>, annex: seq<byte>, off: nat, len: nat): seq<byte> {
    Join(words + [annex, Join([HexDigits(off), HexDigits(len)], COMMA)], COLON)
  }

  /** The three words before the annex. */
  predicate ThreeWords(words: seq<seq<byte>>) {
    |words| == 3 && forall i | 0 <= i < 3 :: Without(words[i], COLON)
  }

  lemma {:induction false} FromHexAppend(acc: nat, s: seq<byte>, d: byte)
    requires IsHexDigit(d)
    ensures FromHexAcc(acc, s + [d])
         == match FromHexAcc(acc, s)
            case None => None
            case Some(v) => Some((v * 16 + Char2Hex(d)) % TWO_64)
    decreases s
  {
    if s == [] {
      assert ([] + [d])[1..] == [];
    } else {
      assert (s + [d])[1..] == s[1..] + [d];
      if IsHexDigit(s[0]) {
        FromHexAppend((acc * 16 + Char2Hex(s[0])) % TWO_64, s[1..], d);
      }
    }
  }

  predicate AllHex(s: seq<byte>) {
    forall i | 0 <= i < |s| :: IsHexDigit(s[i])
  }

  /** fromHex fails exactly on a non-digit, and else gives the value, of which only the low 64 binary
      digits are kept.  The empty text is zero. */
  lemma {:induction false} FromHexIs(s: seq<byte>)
    ensures AllHex(s) ==> FromHex(s) == Some(HexValue(s) % TWO_64)
    ensures !AllHex(s) ==> FromHex(s) == None
  {
    if s != [] {
      var front, d := s[..|s| - 1], s[|s| - 1];
      assert front + [d] == s;
      FromHexIs(front);
      if AllHex(s) {
        FromHexAppend(0, front, d);
        hide FromHexAcc, Char2Hex;
        ModStep(HexValue(front), Char2Hex(d));
      } else {
        NonDigitFails(0, s);
      }
    }
  }

  lemma ModStep(v: nat, d: nat)
    ensures (v % TWO_64 * 16 + d) % TWO_64 == (v * 16 + d) % TWO_64
  {
    assert v == v / TWO_64 * TWO_64 + v % TWO_64;
    assert v * 16 + d == (v / TWO_64 * 16) * TWO_64 + (v % TWO_64 * 16 + d);
  }

  lemma {:induction false} NonDigitFails(acc: nat, s: seq<byte>)
    requires !AllHex(s)
    ensures FromHexAcc(acc, s) == None
    decreases s
  {
    if IsHexDigit(s[0]) {
      NonDigitFails((acc * 16 + Char2Hex(s[0])) % TWO_64, s[1..]);
    }
  }

  lemma HexDigitsStep(v: nat)
    ensures HexDigits(v) == if v < 16 then [Hex2Char(v)] else HexDigits(v / 16) + [Hex2Char(v % 16)]
  {
  }

  lemma Recomposed(v: nat)
    requires v < TWO_64
    ensures (v / 16 * 16 + v % 16) % TWO_64 == v && (v < 16 ==> (0 * 16 + v) % TWO_64 == v)
  {
  }

  lemma {:induction false} FromHexOfDigits(v: nat)
    requires v < TWO_64
    ensures FromHex(HexDigits(v)) == Some(v)
  {
    HexDigitsStep(v);
    assert FromHexAcc(0, []) == Some(0);
    hide HexDigits, FromHexAcc, Hex2Char, Char2Hex;
    Recomposed(v);
    if v >= 16 {
      FromHexOfDigits(v / 16);
      FromHexAppend(0, HexDigits(v / 16), Hex2Char(v % 16));
    } else {
      FromHexAppend(0, [], Hex2Char(v));
      assert [] + [Hex2Char(v)] == HexDigits(v);
    }
  }

  lemma NumbersRoundTrip(off: nat, len: nat)
    ensures var s := Join([HexDigits(off), HexDigits(len)], COMMA);
            s != [] && Without(s, COLON) && Pieces(s, COMMA) == [HexDigits(off), HexDigits(len)]
  {
    hide HexDigits, Pieces;
    var parts := [HexDigits(off), HexDigits(len)];
    assert parts[1..] == [HexDigits(len)];
    PiecesOfJoin(parts, COMMA);
  }

  /** The server reads out of a request exactly what the client put in. */
  lemma RequestRoundTrip(words: seq<seq<byte>>, annex: seq<byte>, off: nat, len: nat,
      files: map<seq<byte>, seq<byte>>, capacity: nat)
    requires ThreeWords(words) && Without(annex, COLON) && off < TWO_64 && len < TWO_64
    ensures ReadFeature(RequestText(words, annex, off, len), files, capacity)
         == if annex in files then Data(Chunk(files[annex], off, len, capacity)) else Refused
  {
    hide HexDigits, Pieces, Join, FromHex;
    var numbers := Join([HexDigits(off), HexDigits(len)], COMMA);
    NumbersRoundTrip(off, len);
    var parts := words + [annex, numbers];
    PiecesOfJoin(parts, COLON);
    FromHexOfDigits(off);
    FromHexOfDigits(len);
  }

  /** Two numbers with a comma between them; a comma at the end is overlooked, and so is a missing
      first number. */
  predicate IsTwoNumbers(t: seq<byte>) {
    |Pieces(t, COMMA)| == 2 && AllHex(Pieces(t, COMMA)[0]) && AllHex(Pieces(t, COMMA)[1])
  }

  /** Which requests are refused, among all that are pieces joined by colons: those of a number of
      pieces other than five, without two hex numbers at the end, or for an unknown file. */
  lemma RefusedIff(parts: seq<seq<byte>>, files: map<seq<byte>, seq<byte>>, capacity: nat)
    requires parts != [] && (forall i | 0 <= i < |parts| :: Without(parts[i], COLON)) && parts[|parts| - 1] != []
    ensures ReadFeature(Join(parts, COLON), files, capacity).Data?
       <==> |parts| == 5 && IsTwoNumbers(parts[4]) && parts[3] in files
    ensures |parts| == 5 && IsTwoNumbers(parts[4]) && parts[3] in files ==>
              var numbers := Pieces(parts[4], COMMA);
              ReadFeature(Join(parts, COLON), files, capacity)
              == Data(Chunk(files[parts[3]], HexValue(numbers[0]) % TWO_64, HexValue(numbers[1]) % TWO_64, capacity))
  {
    hide Pieces, Join, FromHex, HexValue, Chunk;
    PiecesOfJoin(parts, COLON);
    if |parts| == 5 && |Pieces(parts[4], COMMA)| == 2 {
      FromHexIs(Pieces(parts[4], COMMA)[0]);
      FromHexIs(Pieces(parts[4], COMMA)[1]);
    }
  }

  /** A request from beyond the end of the file brings the last, empty piece. */
  lemma BeyondTheEnd(file: seq<byte>, off: nat, len: nat, capacity: nat)
    requires off > |file| && capacity > 0
    ensures Chunk(file, off, len, capacity) == [LOWER_L]
  {
  }

  // ---- Putting the file together again ----

  /** What a client ends up with that asks from `off` and moves on by what it got; None if a reply
      is refused or brings nothing although more is promised. */
  function Fetch(words: seq<seq<byte>>, annex: seq<byte>, off: nat, len: nat,
      files: map<seq<byte>, seq<byte>>, capacity: nat): Option<seq<byte>>
    requires annex in files
    decreases |files[annex]| - off
  {
    match ReadFeature(RequestText(words, annex, off, len), files, capacity)
    case Refused => None
    case Data(text) =>
      if text == [] then None
      else if text[0] == LOWER_L then Some(text[1..])
      else if |text| == 1 || off >= |files[annex]| then None
      else
        match Fetch(words, annex, off + |text| - 1, len, files, capacity)
        case None => None
        case Some(rest) => Some(text[1..] + rest)
  }

  lemma {:induction false} ChunkShape(file: seq<byte>, off: nat, len: nat, capacity: nat)
    requires off <= |file| && capacity > 0
    ensures var n := |file| - off;
            && (n <= len && n < capacity ==> Chunk(file, off, len, capacity) == [LOWER_L] + file[off..])
            && (n <= len && n >= capacity ==> Chunk(file, off, len, capacity) == [LOWER_L])
            && (n > len && len < capacity ==> Chunk(file, off, len, capacity) == [LOWER_M] + file[off..off + len])
            && (n > len && len >= capacity ==> Chunk(file, off, len, capacity) == [LOWER_M])
  {
    assert file[off..][..|file| - off] == file[off..];
    if |file| - off > len {
      assert file[off..][..len] == file[off..off + len];
    }
  }

  lemma {:induction false} FetchFrom(words: seq<seq<byte>>, annex: seq<byte>, off: nat, len: nat,
      files: map<seq<byte>, seq<byte>>, capacity: nat)
    requires ThreeWords(words) && Without(annex, COLON) && annex in files
    requires off <= |files[annex]| < TWO_64 && 0 < len < TWO_64 && len < capacity
    ensures Fetch(words, annex, off, len, files, capacity) == Some(files[annex][off..])
    decreases |files[annex]| - off
  {
    hide ReadFeature, RequestText, Chunk;
    var file := files[annex];
    RequestRoundTrip(words, annex, off, len, files, capacity);
    ChunkShape(file, off, len, capacity);
    if |file| - off > len {
      FetchFrom(words, annex, off + len, len, files, capacity);
      assert file[off..off + len] + file[off + len..] == file[off..];
      assert ([LOWER_M] + file[off..off + len])[1..] == file[off..off + len];
    } else {
      assert ([LOWER_L] + file[off..])[1..] == file[off..];
    }
  }

  /** XML transfer reassembly: for every file, asking from 0 and moving on by what arrives ends,
      and yields the file exactly when the request length is positive and below the packet size, or
      the whole file fits both into one request and into one packet. */
  lemma TransferYieldsFileIff(words: seq<seq<byte>>, annex: seq<byte>, len: nat,
      files: map<seq<byte>, seq<byte>>, capacity: nat)
    requires ThreeWords(words) && Without(annex, COLON) && annex in files
    requires |files[annex]| < TWO_64 && len < TWO_64 && capacity > 0
    ensures Fetch(words, annex, 0, len, files, capacity) == Some(files[annex])
       <==> 0 < len < capacity || (|files[annex]| <= len && |files[annex]| < capacity)
  {
    hide ReadFeature, RequestText, Chunk;
    var file := files[annex];
    RequestRoundTrip(words, annex, 0, len, files, capacity);
    ChunkShape(file, 0, len, capacity);
    assert file[0..] == file;
    if 0 < len < capacity {
      FetchFrom(words, annex, 0, len, files, capacity);
    } else if |file| <= len && |file| < capacity {
      assert ([LOWER_L] + file)[1..] == file;
    }
  }

  // ---- The code ----

  /** ByteView::fromHex. */
  method ViewFromHex(view: seq<byte>) returns (value: Option<nat>)
    ensures value == FromHex(view)
  {
    var v: nat, i := 0, 0;
    assert view[0..] == view;
    while i < |view|
      invariant 0 <= i <= |view| && FromHex(view) == FromHexAcc(v, view[i..])
    {
      assert view[i..][1..] == view[i + 1..];
      if !IsHexDigit(view[i]) {
        return None;
      }
      v := (v * 16 + Char2Hex(view[i])) % TWO_64;
      i := i + 1;
    }
    value := Some(v);
  }

  method RspReadFeature(payload: seq<byte>, files: map<seq<byte>, seq<byte>>, capacity: nat) returns (reply: Reply)
    ensures reply == ReadFeature(payload, files, capacity)
  {
    hide Pieces, FromHex;
    var operands := SplitView(payload, COLON);
    if |operands| != 5 {
      return Refused;
    }
    var offsets := SplitView(operands[4], COMMA);
    if |offsets| != 2 {
      return Refused;
    }
    var start := ViewFromHex(offsets[0]);
    if start.None? {
      return Refused;
    }
    var len := ViewFromHex(offsets[1]);
    if len.None? || operands[3] !in files {
      return Refused;
    }
    var fileView := LStrip(files[operands[3]], start.value);
    var response := new RspPacketBuilder(capacity);
    response.AppendChar(if |fileView| <= len.value then LOWER_L else LOWER_M);
    response.AddData(First(fileView, len.value));
    return Data(response.Contents());
  }
}
