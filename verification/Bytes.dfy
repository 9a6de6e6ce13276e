/** Bytes as they travel over the connection, and the hex digits the protocol writes them with. */
module Bytes {
  type byte = b: int | 0 <= b < 256
  type u32 = n: int | 0 <= n < 0x1_0000_0000

  const DOLLAR: byte := 36  // '$'
  const HASH: byte := 35    // '#'
  const STAR: byte := 42    // '*'
  const BRACE: byte := 125  // '}'
  const PLUS: byte := 43    // '+'
  const MINUS: byte := 45   // '-'
  const BREAK: byte := 3    // ctrl-C
  const COLON: byte := 58   // ':'
  const SEMICOLON: byte := 59
  const COMMA: byte := 44
  const DOT: byte := 46
  const ZERO: byte := 48    // '0'
  const ONE: byte := 49     // '1'
  const LOWER_C: byte := 99
  const UPPER_C: byte := 67
  const LOWER_L: byte := 108
  const LOWER_M: byte := 109
  const LOWER_P: byte := 112
  const LOWER_S: byte := 115
  const UPPER_S: byte := 83

  /** XOR with 0x20. */
  function FlipBit5(b: byte): byte {
    if (b / 32) % 2 == 0 then b + 32 else b - 32
  }

  /** XOR with 0x20, digit by binary digit: the one worth 32 changes, and no other. */
  lemma FlipBit5Flips(b: byte)
    ensures FlipBit5(b) == b + 32 || FlipBit5(b) == b - 32
    ensures FlipBit5(b) / 64 == b / 64 && FlipBit5(b) % 32 == b % 32
  {
  }

  lemma FlipBit5Twice(b: byte)
    ensures FlipBit5(FlipBit5(b)) == b
  {
  }

  predicate IsHexDigit(b: byte) {
    48 <= b <= 57 || 97 <= b <= 102 || 65 <= b <= 70
  }

  predicate IsLowerHexDigit(b: byte) {
    48 <= b <= 57 || 97 <= b <= 102
  }

  predicate IsHexStr(s: seq<byte>) {
    |s| >= 1 && forall i | 0 <= i < |s| :: IsHexDigit(s[i])
  }

  function Char2Hex(b: byte): (d: int)
    requires IsHexDigit(b)
    ensures 0 <= d < 16
  {
    if 97 <= b <= 102 then b - 97 + 10
    else if 48 <= b <= 57 then b - 48
    else b - 65 + 10
  }

  function Hex2Char(d: int): (b: byte)
    requires 0 <= d < 16
    ensures IsLowerHexDigit(b) && Char2Hex(b) == d
  {
    if d < 10 then 48 + d else 97 + d - 10
  }

  /** A lowercase digit is the one Hex2Char picks for its value. */
  lemma LowerHexDigitIsCanonical(b: byte)
    requires IsLowerHexDigit(b)
    ensures Hex2Char(Char2Hex(b)) == b
  {
  }

  /** The constants are the characters the protocol writes. */
  lemma ProtocolCharacters()
    ensures DOLLAR as char == '$' && HASH as char == '#' && STAR as char == '*' && BRACE as char == '}'
    ensures PLUS as char == '+' && MINUS as char == '-' && BREAK == 0x03
    ensures COLON as char == ':' && SEMICOLON as char == ';' && COMMA as char == ',' && DOT as char == '.'
    ensures ZERO as char == '0' && ONE as char == '1'
    ensures LOWER_C as char == 'c' && UPPER_C as char == 'C' && LOWER_S as char == 's' && UPPER_S as char == 'S'
    ensures LOWER_L as char == 'l' && LOWER_M as char == 'm' && LOWER_P as char == 'p'
  {
  }

  /** The digits, by name: lowercase when written, either case when read. */
  lemma HexAlphabet(d: int, b: byte)
    requires 0 <= d < 16
    ensures Hex2Char(d) as char == "0123456789abcdef"[d]
    ensures b as char == "0123456789abcdef"[d] || b as char == "0123456789ABCDEF"[d] ==>
              IsHexDigit(b) && Char2Hex(b) == d
  {
    assert "0123456789abcdef"[d] as int == if d < 10 then 48 + d else 87 + d;
    assert "0123456789ABCDEF"[d] as int == if d < 10 then 48 + d else 55 + d;
  }

  /** And nothing else is one. */
  lemma HexAlphabetIsAll(b: byte)
    ensures IsLowerHexDigit(b) <==> '0' <= b as char <= '9' || 'a' <= b as char <= 'f'
    ensures IsHexDigit(b) <==> IsLowerHexDigit(b) || 'A' <= b as char <= 'F'
  {
  }

  predicate Without(s: seq<byte>, b: byte) {
    forall i | 0 <= i < |s| :: s[i] != b
  }

  function Repeat(s: seq<byte>, k: nat): (r: seq<byte>)
    ensures |r| == k * |s|
  {
    if k == 0 then [] else s + Repeat(s, k - 1)
  }
}
