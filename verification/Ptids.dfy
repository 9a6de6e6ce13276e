/** Process and thread identifiers (Ptid.cpp): `tid`, `ppid` and `ppid.tid`, in hex, with 0 for
    ANY and -1 for ALL. */
module Ptids {
  import opened Bytes
  import opened Hex
  import opened Split

  const PTID_INV := -2
  const PTID_ALL := -1
  const PTID_ANY := 0

  datatype Value = Value(pid: int, tid: int)

  /** A decoded field; a hex string of more than 8 digits fails hex2Val's assertion. */
  datatype Field = Field(value: int) | Oversized

  datatype DecodeResult = Decoded(ptid: Value) | Rejected | AssertFailure

  /** The cast to int of a 32-bit value. */
  function ToInt32(v: nat): int {
    if v % 0x1_0000_0000 < 0x8000_0000 then v % 0x1_0000_0000 else v % 0x1_0000_0000 - 0x1_0000_0000
  }

  function DecodeField(s: seq<byte>): Field {
    if s == [ZERO] then Field(PTID_ANY)
    else if s == [MINUS, ONE] then Field(PTID_ALL)
    else if !IsHexStr(s) then Field(PTID_INV)
    else if |s| > 8 then Oversized
    else Field(ToInt32(HexValue(s)))
  }

  function Combine(pid: Field, tid: Field): DecodeResult {
    if pid.Oversized? || tid.Oversized? then AssertFailure
    else if pid.value == PTID_INV || tid.value == PTID_INV then Rejected
    else if pid.value == PTID_ALL && (tid.value == PTID_ALL || tid.value == PTID_ANY) then Rejected
    else Decoded(Value(pid.value, tid.value))
  }

  /** Ptid::decode, for a string without terminator; `current` supplies the pid of a bare tid. */
  function Decode(current: Value, buf: seq<byte>): DecodeResult {
    if buf == [] || buf[0] != LOWER_P then
      // Simplest format: just a TID.  An invalid current pid is kept as it is.
      match DecodeField(buf)
      case Oversized => AssertFailure
      case Field(tid) =>
        if tid == PTID_INV then Rejected
        else if current.pid == PTID_ALL && (tid == PTID_ALL || tid == PTID_ANY) then Rejected
        else Decoded(Value(current.pid, tid))
    else
      var dot := Find(buf, DOT);
      if dot == |buf| then Combine(DecodeField(buf[1..]), Field(PTID_ALL))
      else Combine(DecodeField(buf[1..dot]), DecodeField(buf[dot + 1..]))
  }

  /** Ptid::encodeField; the empty string stands for the returned length 0. */
  function EncodeField(n: int): seq<byte> {
    if n < PTID_ALL then []
    else if n == PTID_ALL then [MINUS, ONE]
    else if n == PTID_ANY then [ZERO]
    else HexDigits(n)
  }

  /** The text encode leaves in its buffer when it succeeds. */
  function Encode(p: Value): seq<byte> {
    [LOWER_P] + EncodeField(p.pid) + [DOT] + EncodeField(p.tid)
  }

  predicate Encodable(n: int) {
    PTID_ALL <= n < 0x8000_0000
  }

  function Crystalize(p: Value, defaultPid: int, defaultTid: int): (r: Value)
  {
    Value(if p.pid == PTID_ANY then defaultPid else p.pid, if p.tid == PTID_ANY then defaultTid else p.tid)
  }

  /** Ptid::validate and the cases crystalize refuses. */
  predicate CanCrystalize(p: Value) {
    p.pid >= PTID_ANY && p.tid >= PTID_ANY
  }

  lemma FieldRoundTrip(n: int)
    requires Encodable(n)
    ensures DecodeField(EncodeField(n)) == Field(n) && EncodeField(n) != []
    ensures Without(EncodeField(n), DOT) && Without(EncodeField(n), SEMICOLON) && Without(EncodeField(n), 0)
  {
    if n > 0 {
      ValueOfDigits(n);
      Pow16Eight();
      DigitCount(n, 8);
      hide HexDigits, HexValue, Pow16;
      DigitsAreNotMinus(HexDigits(n));
    }
  }

  lemma DigitsAreNotMinus(s: seq<byte>)
    requires |s| >= 1 && forall i | 0 <= i < |s| :: IsLowerHexDigit(s[i])
    ensures IsHexStr(s) && s != [MINUS, ONE] && Without(s, DOT) && Without(s, SEMICOLON) && Without(s, 0)
  {
    assert IsLowerHexDigit(s[0]);
  }

  /** A hex field is taken as the positive number it spells exactly when that number is between 1
      and 2^31 - 1.  Zeros mean ANY, and larger numbers come out negative: eight `f`s mean ALL. */
  lemma HexFieldIsPositiveIff(s: seq<byte>)
    requires IsHexStr(s) && |s| <= 8
    ensures DecodeField(s).Field?
    ensures DecodeField(s).value > 0 <==> 0 < HexValue(s) < 0x8000_0000
    ensures DecodeField(s).value > 0 ==> DecodeField(s).value == HexValue(s)
    ensures HexValue(s) == 0xFFFF_FFFF ==> DecodeField(s).value == PTID_ALL
  {
    ValueFits32(s);
    if s == [ZERO] {
      assert s[..0] == [];
    }
  }

  /** Decoding the encoding of any identifier gives it back, except that ALL processes with ALL or
      ANY threads is refused. */
  lemma PtidRoundTrip(current: Value, p: Value)
    requires Encodable(p.pid) && Encodable(p.tid)
    ensures Decode(current, Encode(p))
         == if p.pid == PTID_ALL && (p.tid == PTID_ALL || p.tid == PTID_ANY) then Rejected else Decoded(p)
  {
    FieldRoundTrip(p.pid);
    FieldRoundTrip(p.tid);
    var text := Encode(p);
    var head := [LOWER_P] + EncodeField(p.pid);
    assert Without(head, DOT);
    FindSkips(head, DOT, EncodeField(p.tid));
    assert text[1..|head|] == EncodeField(p.pid) && text[|head| + 1..] == EncodeField(p.tid);
  }

  /** The two shorter formats: a bare tid keeps the pid there was, a bare pid means all its threads.
      With ALL processes, ALL or ANY threads are refused here too. */
  lemma ShortForms(current: Value, n: int)
    requires Encodable(n)
    ensures Decode(current, EncodeField(n))
         == if current.pid == -1 && (n == -1 || n == 0) then Rejected else Decoded(Value(current.pid, n))
    ensures Decode(current, [LOWER_P] + EncodeField(n))
         == if n == -1 then Rejected else Decoded(Value(n, -1))
  {
    FieldRoundTrip(n);
    var field := EncodeField(n);
    FieldStart(n);
    hide EncodeField, DecodeField;
    var text := [LOWER_P] + field;
    assert text[1..] == field && Without(text, DOT);
    FindSkips(text, DOT, []);
  }

  lemma FieldStart(n: int)
    requires Encodable(n)
    ensures EncodeField(n) != [] && EncodeField(n)[0] != LOWER_P
  {
    if n > 0 {
      assert IsLowerHexDigit(HexDigits(n)[0]);
    }
  }

  /** Which fields are no number: everything but `-1` and hex; and one of eight digits spells the
      mark for an invalid number.  More than eight digits fail an assertion. */
  lemma FieldIsInvalidIff(s: seq<byte>)
    ensures DecodeField(s).Oversized? <==> IsHexStr(s) && |s| > 8
    ensures DecodeField(s) == Field(-2) <==>
              s != [MINUS, ONE] && (!IsHexStr(s) || (|s| <= 8 && HexValue(s) == 0xFFFF_FFFE))
  {
    if IsHexStr(s) && |s| <= 8 {
      ValueFits32(s);
      if s == [ZERO] {
        assert s[..0] == [];
      }
      assert s != [MINUS, ONE] by {
        assert IsHexDigit(s[0]);
      }
    }
  }

  /** When `p`pid`.`tid is accepted, and as what, from its two fields. */
  lemma DecodeAcceptsIff(current: Value, a: seq<byte>, b: seq<byte>)
    requires Without(a, DOT)
    ensures var r := Decode(current, [LOWER_P] + a + [DOT] + b);
            var pid, tid := DecodeField(a), DecodeField(b);
            && (r.AssertFailure? <==> pid.Oversized? || tid.Oversized?)
            && (r.Decoded? <==>
                  && pid.Field? && tid.Field? && pid.value != -2 && tid.value != -2
                  && !(pid.value == -1 && (tid.value == -1 || tid.value == 0)))
            && (r.Decoded? ==> r.ptid == Value(pid.value, tid.value))
  {
    hide DecodeField;
    var head := [LOWER_P] + a;
    var text := head + [DOT] + b;
    assert Without(head, DOT);
    FindSkips(head, DOT, b);
    assert text[1..|head|] == a && text[|head| + 1..] == b;
  }

  /** A successful decode always yields a usable identifier: a number, ANY or ALL in each field
      that came from the text, and never the refused combination. */
  lemma DecodedIsValid(current: Value, buf: seq<byte>)
    requires Decode(current, buf).Decoded?
    ensures var p := Decode(current, buf).ptid;
            && p.tid != PTID_INV && (buf != [] && buf[0] == LOWER_P ==> p.pid != PTID_INV)
            && !(p.pid == PTID_ALL && (p.tid == PTID_ALL || p.tid == PTID_ANY))
  {
  }

  class Ptid {
    var mPid: int
    var mTid: int

    function View(): Value
      reads this
    {
      Value(mPid, mTid)
    }

    constructor (pid: int, tid: int)
      ensures View() == Value(pid, tid)
    {
      mPid, mTid := pid, tid;
    }

    predicate Validate()
      reads this
    {
      (mPid > 0 || mPid == PTID_ANY || mPid == PTID_ALL || mPid == PTID_INV)
      && (mTid > 0 || mTid == PTID_ANY || mTid == PTID_ALL || mTid == PTID_INV)
    }

    method DecodeOneField(buf: seq<byte>) returns (f: Field)
      ensures f == DecodeField(buf)
    {
      if |buf| == 1 && buf[0] == ZERO {
        return Field(PTID_ANY);
      } else if |buf| == 2 && buf[0] == MINUS && buf[1] == ONE {
        return Field(PTID_ALL);
      } else if IsHexStr(buf) {
        if |buf| > 8 {
          return Oversized;
        }
        var v := Hex2Val(buf);
        return Field(ToInt32(v));
      }
      return Field(PTID_INV);
    }

    /** The identifier changes only if the text is accepted. */
    method DecodeText(buf: seq<byte>) returns (r: DecodeResult)
      modifies this
      ensures r == Decode(old(View()), buf)
      ensures View() == if r.Decoded? then r.ptid else old(View())
    {
      var pid, tid;
      var bare := buf == [] || buf[0] != LOWER_P;
      if bare {
        pid := Field(mPid);
        tid := DecodeOneField(buf);
      } else {
        var ptr := FindFrom(buf, DOT);
        if ptr == |buf| {
          pid := DecodeOneField(buf[1..]);
          tid := Field(PTID_ALL);
        } else {
          pid := DecodeOneField(buf[1..ptr]);
          tid := DecodeOneField(buf[ptr + 1..]);
        }
      }
      if pid.Oversized? || tid.Oversized? {
        return AssertFailure;
      }
      if (!bare && pid.value == PTID_INV) || tid.value == PTID_INV {
        return Rejected;
      }
      if pid.value == PTID_ALL && (tid.value == PTID_ALL || tid.value == PTID_ANY) {
        return Rejected;
      }
      mPid, mTid := pid.value, tid.value;
      return Decoded(Value(pid.value, tid.value));
    }

    method WriteField(buf: array<byte>, off: nat, n: int) returns (len: nat)
      requires n < 0x8000_0000 && off + 10 < buf.Length
      modifies buf
      ensures len == |EncodeField(n)| <= 8 && buf[..off + len] == old(buf[..off]) + EncodeField(n)
    {
      if n < PTID_ALL {
        return 0;
      }
      if n == PTID_ALL {
        buf[off] := MINUS;
        buf[off + 1] := ONE;
        return 2;
      }
      if n == PTID_ANY {
        buf[off] := ZERO;
        return 1;
      }
      EncodedFieldLength(n);
      len := Val2Hex(n, buf, off);
      assert buf[..off + len] == buf[..off] + buf[off..off + len];
    }

    /** Ptid::encode: the text and its terminator, or failure for an identifier it cannot write. */
    method EncodeText(buf: array<byte>) returns (ok: bool)
      requires mPid < 0x8000_0000 && mTid < 0x8000_0000 && buf.Length >= 32
      modifies buf
      ensures ok == (mPid >= PTID_ALL && mTid >= PTID_ALL)
      ensures ok ==> |Encode(View())| < 32 && buf[..|Encode(View())|] == Encode(View()) && buf[|Encode(View())|] == 0
    {
      EncodedFieldLength(mPid);
      EncodedFieldLength(mTid);
      hide EncodeField;
      buf[0] := LOWER_P;
      var off := 1;
      assert buf[..off] == [LOWER_P];
      var len := WriteField(buf, off, mPid);
      if len == 0 {
        return false;
      }
      off := off + len;
      ghost var head := buf[..off];
      buf[off] := DOT;
      off := off + 1;
      assert buf[..off] == head + [DOT];
      len := WriteField(buf, off, mTid);
      ghost var text := buf[..off + len];
      assert text == Encode(View());
      buf[off + len] := 0;
      assert buf[..off + len] == text;
      return len != 0;
    }

    /** Ptid::crystalize: ANY becomes the default; ALL and nonsense are refused and nothing changes. */
    method CrystalizeWith(defaultPid: int, defaultTid: int) returns (ok: bool)
      modifies this
      ensures ok == CanCrystalize(old(View()))
      ensures View() == if ok then Crystalize(old(View()), defaultPid, defaultTid) else old(View())
    {
      if !Validate() || mPid == PTID_INV || mPid == PTID_ALL || mTid == PTID_INV || mTid == PTID_ALL {
        return false;
      }
      mPid := if mPid == PTID_ANY then defaultPid else mPid;
      mTid := if mTid == PTID_ANY then defaultTid else mTid;
      return true;
    }
  }

  lemma EncodedFieldLength(n: int)
    requires n < 0x8000_0000
    ensures |EncodeField(n)| <= 8 && (n < PTID_ALL <==> EncodeField(n) == [])
  {
    if n > 0 {
      Pow16Eight();
      DigitCount(n, 8);
    }
  }
}
