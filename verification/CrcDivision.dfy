/** What the CRC loops compute: the remainder of a division of polynomials over GF(2).
    The byte loop is first shown equal to a register clocked one message bit at a time, the
    register is then shown to carry out schoolbook long division, and long division is shown
    to be the only way to write its dividend as quotient times divisor plus remainder. */
module CrcDivision {
  import opened Words
  import opened ByteStrings
  import opened BitStrings
  import opened Folds
  import opened Crc16

  /** The lowest `n` bits, lowest first. */
  function LowBits(w: nat, n: nat): (s: Bits)
    ensures |s| == n
    decreases n
  {
    if n == 0 then [] else [w % 2 == 1] + LowBits(w / 2, n - 1)
  }

  // Named, because the verifier unrolls the recursion for a literal.
  const BYTE_WIDTH: nat := 8
  const WORD_WIDTH: nat := 16

  /** The bits of a byte in the order the register takes them in. */
  function BitsOfByte(b: Byte): (s: Bits)
    ensures |s| == 8
  {
    LowBits(b, BYTE_WIDTH)
  }

  function MessageBits(data: Bytes): (s: Bits)
    ensures |s| == 8 * |data|
  {
    if data == [] then [] else BitsOfByte(data[0]) + MessageBits(data[1..])
  }

  /** The register as a polynomial: its lowest bit is the coefficient of x^15. */
  function RegisterBits(r: Word): (s: Bits)
    ensures |s| == 16
  {
    LowBits(r, WORD_WIDTH)
  }

  /** The coefficients of x^16 + x^15 + x^2 + 1 after the leading one, highest power first. */
  predicate GBit(k: nat) {
    k == 0 || k == 13 || k == 15
  }

  lemma {:induction false} LowBitsScaled(w: nat, n: nat, j: nat)
    ensures LowBits(Shl(w, j), n + j) == Zeros(j) + LowBits(w, n)
    decreases j
  {
    if j == 0 {
      assert Zeros(0) + LowBits(w, n) == LowBits(w, n);
    } else {
      LowBitsScaled(w, n, j - 1);
      assert Zeros(j) == [false] + Zeros(j - 1);
    }
  }

  lemma {:induction false} LowBitsOnes(n: nat)
    ensures LowBits(Pow2(n) - 1, n) == seq(n, _ => true)
  {
    if n > 0 {
      assert (Pow2(n) - 1) / 2 == Pow2(n - 1) - 1;
      LowBitsOnes(n - 1);
    }
  }

  lemma {:induction false} LowBitsXor(v: nat, w: nat, n: nat)
    ensures LowBits(Words.Xor(v, w), n) == BitStrings.Xor(LowBits(v, n), LowBits(w, n))
    decreases n
  {
    if n > 0 {
      XorHalves(v, w);
      LowBitsXor(v / 2, w / 2, n - 1);
      XorCons(v % 2 == 1, LowBits(v / 2, n - 1), w % 2 == 1, LowBits(w / 2, n - 1));
    }
  }

  lemma {:induction false} LowBitsInjective(v: nat, w: nat, n: nat)
    requires v < Pow2(n) && w < Pow2(n) && LowBits(v, n) == LowBits(w, n)
    ensures v == w
    decreases n
  {
    if n > 0 {
      assert LowBits(v, n)[1..] == LowBits(v / 2, n - 1) && LowBits(w, n)[1..] == LowBits(w / 2, n - 1);
      assert LowBits(v, n)[0] == (v % 2 == 1) && LowBits(w, n)[0] == (w % 2 == 1);
      LowBitsInjective(v / 2, w / 2, n - 1);
    }
  }

  /** Above the highest set bit there is nothing. */
  lemma {:induction false} LowBitsTop(w: nat, n: nat)
    requires w < Pow2(n)
    ensures LowBits(w, n + 1) == LowBits(w, n) + [false]
    decreases n
  {
    if n > 0 {
      LowBitsTop(w / 2, n - 1);
    }
  }

  // ----- the bit-serial register

  function Clock(r: Word, bit: bool): Word {
    Shift(Xor16(r, if bit then 1 else 0))
  }

  function ClockAll(r: Word, bits: Bits): Word {
    Fold(Clock, r, bits)
  }

  /** Shifting a register that holds pending bits clocks the lowest and leaves the others pending. */
  lemma ShiftClocksLowBit(r: Word, w: Word)
    ensures Shift(Xor16(r, w)) == Xor16(Clock(r, w % 2 == 1), w / 2)
  {
    var bit := if w % 2 == 1 then 1 else 0;
    XorHalves(r, w);
    XorHalves(r, bit);
    XorZero(r / 2);
    XorAssociates(r / 2, w / 2, POLYNOMIAL);
    XorCommutes(w / 2, POLYNOMIAL);
    XorAssociates(r / 2, POLYNOMIAL, w / 2);
  }

  lemma {:induction false} PendingBitsAreClocked(r: Word, w: Word, n: nat)
    requires w < Pow2(n)
    ensures Iterate(Shift, Xor16(r, w), n) == ClockAll(r, LowBits(w, n))
    decreases n
  {
    if n == 0 {
      XorZero(r);
    } else {
      IterateFirst(Shift, Xor16(r, w), n - 1);
      ShiftClocksLowBit(r, w);
      PendingBitsAreClocked(Clock(r, w % 2 == 1), w / 2, n - 1);
      FoldFirst(Clock, r, w % 2 == 1, LowBits(w / 2, n - 1));
    }
  }

  lemma ByteIsEightClocks(r: Word, b: Byte)
    ensures Absorb(r, b) == ClockAll(r, BitsOfByte(b))
  {
    PowersOfTwo();
    PendingBitsAreClocked(r, b, 8);
  }

  /** The byte-at-a-time loop is the register clocked once per message bit. */
  lemma {:induction false} BytesAreClocked(r: Word, data: Bytes)
    ensures AbsorbAll(r, WidenAll(false, data)) == ClockAll(r, MessageBits(data))
    decreases |data|
  {
    if data != [] {
      ByteIsEightClocks(r, data[0]);
      assert WidenAll(false, data)[1..] == WidenAll(false, data[1..]);
      BytesAreClocked(Absorb(r, data[0]), data[1..]);
      FoldAppend(Clock, r, BitsOfByte(data[0]), MessageBits(data[1..]));
    }
  }

  // ----- the register, bit by bit

  lemma HalvedBits(r: Word, k: nat)
    requires k < 16
    ensures RegisterBits(r / 2)[k] == (k < 15 && RegisterBits(r)[k + 1])
  {
    PowersOfTwo();
    LowBitsTop(r, 16);
    assert LowBits(r, 17)[k + 1] == LowBits(r / 2, 16)[k];
  }

  lemma PolynomialShape()
    ensures RegisterBits(POLYNOMIAL) == [true] + (Zeros(12) + [true, false, true])
  {
    LowBitsScaled(5, 3, 12);
    assert LowBits(5, 3) == [true, false, true];
    assert Shl(5, 12) == 0xA001 / 2;
  }

  lemma PolynomialBits(k: nat)
    requires k < 16
    ensures RegisterBits(POLYNOMIAL)[k] == GBit(k)
  {
    PolynomialShape();
  }

  lemma ShiftBits(r: Word, k: nat)
    requires k < 16
    ensures RegisterBits(Shift(r))[k] == ((k < 15 && RegisterBits(r)[k + 1]) != (RegisterBits(r)[0] && GBit(k)))
  {
    HalvedBits(r, k);
    PolynomialBits(k);
    LowBitsXor(r / 2, POLYNOMIAL, 16);
  }

  lemma AddedBits(r: Word, bit: bool, k: nat)
    requires k < 16
    ensures RegisterBits(Xor16(r, if bit then 1 else 0))[k] == (RegisterBits(r)[k] != (k == 0 && bit))
  {
    var b := if bit then 1 else 0;
    var s := Xor16(r, b);
    XorHalves(r, b);
    XorZero(r / 2);
    assert s / 2 == r / 2;
    assert RegisterBits(s) == [s % 2 == 1] + LowBits(s / 2, 15);
    assert RegisterBits(r) == [r % 2 == 1] + LowBits(r / 2, 15);
  }

  lemma ClockBits(r: Word, bit: bool, k: nat)
    requires k < 16
    ensures RegisterBits(Clock(r, bit))[k]
         == ((k < 15 && RegisterBits(r)[k + 1]) != ((RegisterBits(r)[0] != bit) && GBit(k)))
  {
    ShiftBits(Xor16(r, if bit then 1 else 0), k);
    AddedBits(r, bit, 0);
    if k < 15 {
      AddedBits(r, bit, k + 1);
    }
  }

  // ----- long division

  /** One pencil-and-paper step: if the leading bit is set, subtract the divisor from the top. */
  function Reduce(d: Bits): (e: Bits)
    requires |d| > 16
    ensures |e| == |d| - 1
    ensures forall k :: 0 <= k < |e| ==> e[k] == (d[k + 1] != (d[0] && GBit(k)))
  {
    seq(|d| - 1, k requires 0 <= k < |d| - 1 => d[k + 1] != (d[0] && GBit(k)))
  }

  function Remainder(d: Bits): (s: Bits)
    requires |d| >= 16
    ensures |s| == 16
    decreases |d|
  {
    if |d| == 16 then d else Remainder(Reduce(d))
  }

  function Quotient(d: Bits): (q: Bits)
    requires |d| >= 16
    ensures |q| == |d| - 16
    decreases |d|
  {
    if |d| == 16 then [] else [d[0]] + Quotient(Reduce(d))
  }

  /** A register `r` about to take in `m`: the dividend it stands for. */
  function Dividend(r: Word, m: Bits): (d: Bits)
    ensures |d| == |m| + 16
    ensures forall k :: 0 <= k < |d| ==> d[k] == ((k < 16 && RegisterBits(r)[k]) != (k < |m| && m[k]))
  {
    seq(|m| + 16, k requires 0 <= k < |m| + 16 => (k < 16 && RegisterBits(r)[k]) != (k < |m| && m[k]))
  }

  lemma ClockReduces(r: Word, m: Bits)
    requires m != []
    ensures Reduce(Dividend(r, m)) == Dividend(Clock(r, m[0]), m[1..])
  {
    var d := Dividend(r, m);
    var e := Dividend(Clock(r, m[0]), m[1..]);
    forall k | 0 <= k < |e|
      ensures Reduce(d)[k] == e[k]
    {
      if k < 16 {
        ClockBits(r, m[0], k);
      }
    }
  }

  lemma {:induction false} RegisterDivides(r: Word, m: Bits)
    ensures RegisterBits(ClockAll(r, m)) == Remainder(Dividend(r, m))
    decreases |m|
  {
    if m == [] {
      assert Dividend(r, m) == RegisterBits(r);
    } else {
      ClockReduces(r, m);
      RegisterDivides(Clock(r, m[0]), m[1..]);
    }
  }

  /** Sixteen ones and then `n` zeros: what the preset adds to the message. */
  function Inverted16(n: nat): (s: Bits)
    ensures |s| == n + 16
  {
    seq(16, _ => true) + Zeros(n)
  }

  lemma PresetBits()
    ensures RegisterBits(PRESET) == seq(16, _ => true)
  {
    PowersOfTwo();
    LowBitsOnes(16);
  }

  lemma PresetDividend(m: Bits)
    ensures Dividend(PRESET, m) == BitStrings.Xor(m + Zeros(16), Inverted16(|m|))
  {
    var d, e := Dividend(PRESET, m), BitStrings.Xor(m + Zeros(16), Inverted16(|m|));
    PresetBits();
    forall k | 0 <= k < |d|
      ensures d[k] == e[k]
    {
      assert Inverted16(|m|)[k] == (k < 16);
      assert (m + Zeros(16))[k] == (k < |m| && m[k]);
    }
  }

  /** The CRC of a message is the remainder, modulo x^16 + x^15 + x^2 + 1, of the message
      followed by sixteen zero bits, with the first sixteen bits of all that inverted. */
  lemma CrcIsRemainder(data: Bytes)
    ensures RegisterBits(CrcOfBytes(data))
         == Remainder(BitStrings.Xor(MessageBits(data) + Zeros(16), Inverted16(|MessageBits(data)|)))
  {
    BytesAreClocked(PRESET, data);
    RegisterDivides(PRESET, MessageBits(data));
    PresetDividend(MessageBits(data));
  }

  // ----- and that remainder is the one and only

  /** q * (x^16 + x^15 + x^2 + 1) */
  function TimesDivisor(q: Bits): (p: Bits)
    ensures |p| == |q| + 16
  {
    if q == [] then Zeros(16)
    else
      var rest := TimesDivisor(q[1..]);
      [q[0]] + seq(|rest|, k requires 0 <= k < |rest| => rest[k] != (q[0] && GBit(k)))
  }

  /** `d` is `q` times the divisor plus `s`. */
  predicate Divides(d: Bits, q: Bits, s: Bits)
    requires |d| == |q| + 16 && |s| == 16
  {
    d == BitStrings.Xor(TimesDivisor(q), Zeros(|q|) + s)
  }

  lemma DividesStep(d: Bits, q: Bits, s: Bits)
    requires |d| == |q| + 16 && |s| == 16 && q != []
    ensures Divides(d, q, s) <==> q[0] == d[0] && Divides(Reduce(d), q[1..], s)
  {
    var tail := BitStrings.Xor(TimesDivisor(q[1..]), Zeros(|q| - 1) + s);
    var all := BitStrings.Xor(TimesDivisor(q), Zeros(|q|) + s);
    assert all[0] == q[0];
    forall k | 0 <= k < |tail|
      ensures all[k + 1] == (tail[k] != (q[0] && GBit(k)))
    {
      assert (Zeros(|q|) + s)[k + 1] == (Zeros(|q| - 1) + s)[k];
    }
    if q[0] == d[0] {
      if Reduce(d) == tail {
        forall k | 0 <= k < |d|
          ensures d[k] == all[k]
        {
          if k > 0 {
            assert Reduce(d)[k - 1] == tail[k - 1];
          }
        }
        assert d == all;
      }
      if d == all {
        assert Reduce(d) == tail;
      }
    }
  }

  /** Long division returns the only quotient and the only remainder there are. */
  lemma {:induction false} DivisionIsUnique(d: Bits, q: Bits, s: Bits)
    requires |d| == |q| + 16 && |s| == 16
    ensures Divides(d, q, s) <==> q == Quotient(d) && s == Remainder(d)
    decreases |q|
  {
    if q == [] {
      assert BitStrings.Xor(TimesDivisor(q), Zeros(0) + s) == s;
    } else {
      DividesStep(d, q, s);
      DivisionIsUnique(Reduce(d), q[1..], s);
      assert q == [q[0]] + q[1..];
    }
  }
}
