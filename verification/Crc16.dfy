/** The 16-bit CRC of the serial lines (src/Flows.cpp, examples/basicPubSub/src/main.cpp):
    reflected polynomial 0xA001, register preset to 0xFFFF, as in section 6.2.2 of
    "MODBUS over Serial Line" V1.02. */
module Crc16 {
  import opened Words
  import opened ByteStrings
  import opened Folds

  const POLYNOMIAL: Word := 0xA001
  const PRESET: Word := 0xFFFF

  /** One turn of the inner loop. */
  function Shift(r: Word): Word {
    if r % 2 == 1 then Xor16(r / 2, POLYNOMIAL) else r / 2
  }

  // Named, because the verifier unrolls the recursion for a literal.
  const TURNS: nat := 8

  /** One turn of the outer loop: `w` is the byte after C's integer promotion. */
  function Absorb(r: Word, w: Word): Word {
    Iterate(Shift, Xor16(r, w), TURNS)
  }

  function AbsorbAll(r: Word, words: seq<Word>): Word {
    Fold(Absorb, r, words)
  }

  /** What `crc ^= data[i]` exclusive-ors into the register: a `uint8_t` is zero-extended,
      a `char` is sign-extended where `char` is signed. */
  function Widen(signExtend: bool, b: Byte): Word {
    if signExtend && b >= 0x80 then 0xFF00 + b else b
  }

  function WidenAll(signExtend: bool, data: Bytes): (words: seq<Word>)
    ensures |words| == |data|
    ensures forall i :: 0 <= i < |data| ==> words[i] == Widen(signExtend, data[i])
  {
    seq(|data|, i requires 0 <= i < |data| => Widen(signExtend, data[i]))
  }

  /** The register left by `crc16(Bytes)`. */
  function CrcOfBytes(data: Bytes): Word {
    AbsorbAll(PRESET, WidenAll(false, data))
  }

  /** The register left by `crc16(String)` on a platform where `char` is signed or not. */
  function CrcOfString(charIsSigned: bool, data: Bytes): Word {
    AbsorbAll(PRESET, WidenAll(charIsSigned, data))
  }

  /** An uppercase hexadecimal digit. */
  function HexDigit(n: nat): Byte
    requires n < 16
  {
    if n < 10 then 0x30 + n else 0x37 + n
  }

  /** `sprintf(buf, "%04X", crc)`. */
  function Hex4(r: Word): (s: Bytes)
    ensures |s| == 4
  {
    [HexDigit(r / 0x1000), HexDigit(r / 0x100 % 16), HexDigit(r / 0x10 % 16), HexDigit(r % 16)]
  }

  /** `Bytes crc16(Bytes data)` */
  method Crc16Bytes(data: Bytes) returns (hex: Bytes)
    ensures hex == Hex4(CrcOfBytes(data))
  {
    ghost var words := WidenAll(false, data);
    var crc: Word := PRESET;
    for i := 0 to |data|
      invariant crc == AbsorbAll(PRESET, words[..i])
    {
      FoldOneMore(Absorb, PRESET, words, i);
      crc := Xor16(crc, data[i]);
      ghost var start := crc;
      for j := 0 to 8
        invariant crc == Iterate(Shift, start, j)
      {
        if crc % 2 == 1 {
          crc := Xor16(crc / 2, POLYNOMIAL);
        } else {
          crc := crc / 2;
        }
      }
    }
    assert words[..|data|] == words;
    hex := Hex4(crc);
  }

  /** `String crc16(String data)`: the element read is a `char`. */
  method Crc16String(charIsSigned: bool, data: Bytes) returns (hex: Bytes)
    ensures hex == Hex4(CrcOfString(charIsSigned, data))
  {
    ghost var words := WidenAll(charIsSigned, data);
    var crc: Word := PRESET;
    for i := 0 to |data|
      invariant crc == AbsorbAll(PRESET, words[..i])
    {
      FoldOneMore(Absorb, PRESET, words, i);
      crc := Xor16(crc, Widen(charIsSigned, data[i]));
      ghost var start := crc;
      for j := 0 to 8
        invariant crc == Iterate(Shift, start, j)
      {
        if crc % 2 == 1 {
          crc := Xor16(crc / 2, POLYNOMIAL);
        } else {
          crc := crc / 2;
        }
      }
    }
    assert words[..|data|] == words;
    hex := Hex4(crc);
  }

  /** What a hexadecimal digit stands for, and a string of them, highest first. */
  function DigitValue(c: Byte): nat {
    if 0x30 <= c <= 0x39 then c - 0x30 else if 0x41 <= c <= 0x46 then c - 0x37 else 0
  }

  function HexValue(s: Bytes): nat {
    if s == [] then 0 else 16 * HexValue(s[..|s| - 1]) + DigitValue(s[|s| - 1])
  }

  lemma HexAppend(s: Bytes, c: Byte)
    ensures HexValue(s + [c]) == 16 * HexValue(s) + DigitValue(c)
  {
    assert (s + [c])[..|s|] == s;
  }

  lemma FourDigits(a: Byte, b: Byte, c: Byte, d: Byte)
    ensures HexValue([a, b, c, d])
         == 16 * (16 * (16 * DigitValue(a) + DigitValue(b)) + DigitValue(c)) + DigitValue(d)
  {
    HexAppend([], a);
    HexAppend([a], b);
    HexAppend([a, b], c);
    HexAppend([a, b, c], d);
    assert [] + [a] == [a] && [a] + [b] == [a, b] && [a, b] + [c] == [a, b, c] && [a, b, c] + [d] == [a, b, c, d];
  }

  lemma DigitReads(n: nat)
    requires n < 16
    ensures DigitValue(HexDigit(n)) == n
  {
  }

  lemma FromDigits(r: Word)
    ensures 16 * (16 * (16 * (r / 0x1000) + r / 0x100 % 16) + r / 0x10 % 16) + r % 16 == r
  {
    var a, b := r / 0x10, r / 0x100;
    assert b / 16 == r / 0x1000 && 16 * (b / 16) + b % 16 == b;
    assert a / 16 == b && 16 * (a / 16) + a % 16 == a;
    assert 16 * a + r % 16 == r;
  }

  const HEX_DIGITS: Bytes :=
    [0x30, 0x31, 0x32, 0x33, 0x34, 0x35, 0x36, 0x37, 0x38, 0x39, 0x41, 0x42, 0x43, 0x44, 0x45, 0x46]

  lemma DigitsOf(r: Word, a: nat, b: nat, c: nat, d: nat)
    requires a < 16 && b < 16 && c < 16 && d < 16 && r == 0x1000 * a + 0x100 * b + 0x10 * c + d
    ensures r / 0x1000 == a && r / 0x100 % 16 == b && r / 0x10 % 16 == c && r % 16 == d
  {
    assert r / 0x10 == 0x100 * a + 0x10 * b + c;
    assert r / 0x100 == 0x10 * a + b;
  }

  /** "%04X", digit by digit: "0123456789ABCDEF", the most significant one first. */
  lemma Hex4Prints(r: Word, a: nat, b: nat, c: nat, d: nat)
    requires a < 16 && b < 16 && c < 16 && d < 16 && r == 0x1000 * a + 0x100 * b + 0x10 * c + d
    ensures Hex4(r) == [HEX_DIGITS[a], HEX_DIGITS[b], HEX_DIGITS[c], HEX_DIGITS[d]]
  {
    DigitsOf(r, a, b, c, d);
    DigitPrinted(a);
    DigitPrinted(b);
    DigitPrinted(c);
    DigitPrinted(d);
  }

  lemma DigitPrinted(n: nat)
    requires n < 16
    ensures HexDigit(n) == HEX_DIGITS[n]
  {
  }

  /** C's conversions: a signed `char` is the byte less 256 from 0x80 on, and what reaches the
      register is that modulo 2^16. */
  lemma WidenConverts(b: Byte)
    ensures Widen(false, b) == b
    ensures Widen(true, b) == (if b < 0x80 then b else b - 0x100) % 0x1_0000
  {
  }

  /** The text reads as the register it was printed from. */
  lemma Hex4Reads(r: Word)
    ensures HexValue(Hex4(r)) == r
  {
    FourDigits(Hex4(r)[0], Hex4(r)[1], Hex4(r)[2], Hex4(r)[3]);
    DigitReads(r / 0x1000);
    DigitReads(r / 0x100 % 16);
    DigitReads(r / 0x10 % 16);
    DigitReads(r % 16);
    FromDigits(r);
  }

  /** So comparing text compares registers. */
  lemma Hex4Injective(r: Word, s: Word)
    ensures Hex4(r) == Hex4(s) <==> r == s
  {
    Hex4Reads(r);
    Hex4Reads(s);
  }

  /** The text is printable: it can never be taken for a line end, nor read with its sign. */
  lemma Hex4IsPlain(r: Word)
    ensures forall c :: c in Hex4(r) ==> 0x30 <= c < 0x47
  {
  }
}
