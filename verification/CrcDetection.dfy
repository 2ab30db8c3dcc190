/** What the CRC is for: which corruptions it cannot miss, and when its two
    implementations disagree. */
module CrcDetection {
  import opened Words
  import opened ByteStrings
  import opened BitStrings
  import opened Folds
  import opened Crc16
  import opened CrcDivision

  // ----- the step is linear over GF(2)

  lemma ShiftLinear(r: Word, s: Word)
    ensures Shift(Xor16(r, s)) == Xor16(Shift(r), Shift(s))
  {
    var p := if r % 2 == 1 then POLYNOMIAL else 0;
    var q := if s % 2 == 1 then POLYNOMIAL else 0;
    XorHalves(r, s);
    XorZero(r / 2);
    XorZero(s / 2);
    XorZero(Words.Xor(r / 2, s / 2));
    XorExchange(r / 2, p, s / 2, q);
    XorSelf(p);
    XorZero(p);
    XorCommutes(p, q);
    XorZero(q);
  }

  lemma ShiftsLinear(r: Word, s: Word, n: nat)
    ensures Iterate(Shift, Xor16(r, s), n) == Xor16(Iterate(Shift, r, n), Iterate(Shift, s, n))
  {
    forall a: Word, b: Word
      ensures Shift(Xor16(a, b)) == Xor16(Shift(a), Shift(b))
    {
      ShiftLinear(a, b);
    }
    IterateHomomorphic(Shift, Xor16, r, s, n);
  }

  lemma AbsorbLinear(r: Word, s: Word, v: Word, w: Word)
    ensures Absorb(Xor16(r, s), Xor16(v, w)) == Xor16(Absorb(r, v), Absorb(s, w))
  {
    XorExchange(r, s, v, w);
    ShiftsLinear(Xor16(r, v), Xor16(s, w), 8);
  }

  lemma AbsorbAllLinear(r: Word, s: Word, v: seq<Word>, w: seq<Word>)
    requires |v| == |w|
    ensures AbsorbAll(Xor16(r, s), Zip(Xor16, v, w)) == Xor16(AbsorbAll(r, v), AbsorbAll(s, w))
  {
    forall a: Word, b: Word, c: Word, d: Word
      ensures Absorb(Xor16(a, b), Xor16(c, d)) == Xor16(Absorb(a, c), Absorb(b, d))
    {
      AbsorbLinear(a, b, c, d);
    }
    FoldHomomorphic(Absorb, Xor16, Xor16, r, s, v, w);
  }

  /** The bits that sign extension adds on top of a byte. */
  function SignBits(signExtend: bool, b: Byte): Word {
    if signExtend && b >= 0x80 then 0xFF00 else 0
  }

  lemma WidenIsXor(x: bool, b: Byte)
    ensures Widen(x, b) == Xor16(b, SignBits(x, b))
  {
    PowersOfTwo();
    XorHigh(b, 0xFF, 8);
    assert Shl(0xFF, 8) == 0xFF00;
    XorZero(b);
  }

  lemma SignBitsLinear(x: bool, b: Byte, c: Byte)
    ensures SignBits(x, Xor8(b, c)) == Xor16(SignBits(x, b), SignBits(x, c))
  {
    PowersOfTwo();
    XorTopBit(b, c, 7);
    XorSelf(0xFF00);
    XorZero(0xFF00);
    XorCommutes(0xFF00, 0);
    XorZero(0);
  }

  /** Sign extension copies the top bit, so it is linear too. */
  lemma WidenLinear(x: bool, b: Byte, c: Byte)
    ensures Widen(x, Xor8(b, c)) == Xor16(Widen(x, b), Widen(x, c))
  {
    WidenIsXor(x, b);
    WidenIsXor(x, c);
    WidenIsXor(x, Xor8(b, c));
    SignBitsLinear(x, b, c);
    XorExchange(b, SignBits(x, b), c, SignBits(x, c));
  }

  lemma WidenAllLinear(x: bool, a: Bytes, b: Bytes)
    requires |a| == |b|
    ensures WidenAll(x, Zip(Xor8, a, b)) == Zip(Xor16, WidenAll(x, a), WidenAll(x, b))
  {
    forall i | 0 <= i < |a|
      ensures WidenAll(x, Zip(Xor8, a, b))[i] == Zip(Xor16, WidenAll(x, a), WidenAll(x, b))[i]
    {
      WidenLinear(x, a[i], b[i]);
    }
  }

  /** Both CRCs are affine: the preset cancels out of any three messages of one length. */
  lemma CrcAffine(charIsSigned: bool, a: Bytes, b: Bytes, c: Bytes)
    requires |a| == |b| == |c|
    ensures CrcOfString(charIsSigned, Zip(Xor8, Zip(Xor8, a, b), c))
         == Xor16(Xor16(CrcOfString(charIsSigned, a), CrcOfString(charIsSigned, b)), CrcOfString(charIsSigned, c))
    ensures CrcOfBytes(Zip(Xor8, Zip(Xor8, a, b), c))
         == Xor16(Xor16(CrcOfBytes(a), CrcOfBytes(b)), CrcOfBytes(c))
  {
    AffineWords(charIsSigned, a, b, c);
    AffineWords(false, a, b, c);
  }

  lemma AffineWords(x: bool, a: Bytes, b: Bytes, c: Bytes)
    requires |a| == |b| == |c|
    ensures AbsorbAll(PRESET, WidenAll(x, Zip(Xor8, Zip(Xor8, a, b), c)))
         == Xor16(Xor16(AbsorbAll(PRESET, WidenAll(x, a)), AbsorbAll(PRESET, WidenAll(x, b))),
                  AbsorbAll(PRESET, WidenAll(x, c)))
  {
    var u, v, w := WidenAll(x, a), WidenAll(x, b), WidenAll(x, c);
    WidenAllLinear(x, a, b);
    WidenAllLinear(x, Zip(Xor8, a, b), c);
    AbsorbAllLinear(PRESET, PRESET, u, v);
    AbsorbAllLinear(0, PRESET, Zip(Xor16, u, v), w);
    XorSelf(PRESET);
    XorCommutes(0, PRESET);
    XorZero(PRESET);
  }

  // ----- and it can be run backwards

  /** Whether the two registers will be shifted with the same feedback. */
  predicate SameFeedback(r: Word, b: bool, s: Word, c: bool) {
    (RegisterBits(r)[0] != b) == (RegisterBits(s)[0] != c)
  }

  /** Inverting one step: registers that agree from bit j upwards came from registers that
      agreed from bit j+1 upwards and were fed back alike. */
  lemma ClockBackwards(r: Word, b: bool, s: Word, c: bool, j: nat)
    requires j < 16
    requires forall k :: j <= k < 16 ==> RegisterBits(Clock(r, b))[k] == RegisterBits(Clock(s, c))[k]
    ensures forall k :: j < k < 16 ==> RegisterBits(r)[k] == RegisterBits(s)[k]
    ensures SameFeedback(r, b, s, c)
  {
    ClockBits(r, b, 15);
    ClockBits(s, c, 15);
    forall k | j < k < 16
      ensures RegisterBits(r)[k] == RegisterBits(s)[k]
    {
      ClockBits(r, b, k - 1);
      ClockBits(s, c, k - 1);
    }
  }

  lemma ClockInjective(r: Word, s: Word, bit: bool)
    requires Clock(r, bit) == Clock(s, bit)
    ensures r == s
  {
    ClockBackwards(r, bit, s, bit, 0);
    assert RegisterBits(r) == RegisterBits(s);
    PowersOfTwo();
    LowBitsInjective(r, s, 16);
  }

  lemma SameBitsKeepDifference(r: Word, s: Word, m: Bits)
    requires ClockAll(r, m) == ClockAll(s, m)
    ensures r == s
  {
    forall a, b, bit | Clock(a, bit) == Clock(b, bit)
      ensures a == b
    {
      ClockInjective(a, b, bit);
    }
    FoldInjective(Clock, r, s, m);
  }

  lemma ShiftInjective(r: Word, s: Word)
    requires Shift(r) == Shift(s)
    ensures r == s
  {
    XorZero(r);
    XorZero(s);
    ClockInjective(r, s, false);
  }

  lemma AbsorbInjective(r: Word, v: Word, s: Word, w: Word)
    requires Absorb(r, v) == Absorb(s, w)
    ensures r == s <==> v == w
  {
    forall a, b | Shift(a) == Shift(b)
      ensures a == b
    {
      ShiftInjective(a, b);
    }
    IterateInjective(Shift, Xor16(r, v), Xor16(s, w), 8);
    XorTwice(r, v);
    XorTwice(s, w);
    XorCommutes(r, v);
    XorCommutes(s, w);
    XorTwice(v, r);
    XorTwice(w, s);
  }

  /** Two registers that differ stay different whatever both take in next. */
  lemma SameWordsKeepDifference(r: Word, s: Word, words: seq<Word>)
    requires AbsorbAll(r, words) == AbsorbAll(s, words)
    ensures r == s
  {
    forall a, b, w | Absorb(a, w) == Absorb(b, w)
      ensures a == b
    {
      AbsorbInjective(a, w, b, w);
    }
    FoldInjective(Absorb, r, s, words);
  }

  lemma ByteFromBits(b: Byte, c: Byte)
    requires BitsOfByte(b) == BitsOfByte(c)
    ensures b == c
  {
    PowersOfTwo();
    LowBitsInjective(b, c, 8);
  }

  lemma MessageBitsParts(data: Bytes)
    requires data != []
    ensures MessageBits(data)[..8] == BitsOfByte(data[0]) && MessageBits(data)[8..] == MessageBits(data[1..])
  {
  }

  lemma {:induction false} MessageBitsInjective(a: Bytes, b: Bytes)
    requires MessageBits(a) == MessageBits(b)
    ensures a == b
  {
    if a != [] && b != [] {
      MessageBitsParts(a);
      MessageBitsParts(b);
      ByteFromBits(a[0], b[0]);
      MessageBitsInjective(a[1..], b[1..]);
      assert a == [a[0]] + a[1..] && b == [b[0]] + b[1..];
    }
  }

  lemma {:induction false} ZeroShifts(n: nat)
    ensures Iterate(Shift, 0, n) == 0
  {
    if n > 0 {
      ZeroShifts(n - 1);
    }
  }

  // ----- bursts

  /** Inverting a whole window of at most sixteen steps. */
  lemma {:induction false} WindowBackwards(r: Word, u: Bits, s: Word, v: Bits)
    requires |u| == |v| <= 16
    requires ClockAll(r, u) == ClockAll(s, v)
    ensures forall k :: |u| <= k < 16 ==> RegisterBits(r)[k] == RegisterBits(s)[k]
    ensures u != [] ==> SameFeedback(r, u[0], s, v[0])
    decreases |u|
  {
    if u != [] {
      WindowBackwards(Clock(r, u[0]), u[1..], Clock(s, v[0]), v[1..]);
      ClockBackwards(r, u[0], s, v[0], |u| - 1);
    }
  }

  /** No two different windows of at most sixteen bits lead from one register to one register. */
  lemma {:induction false} WindowInjective(r: Word, u: Bits, v: Bits)
    requires |u| == |v| <= 16
    requires ClockAll(r, u) == ClockAll(r, v)
    ensures u == v
    decreases |u|
  {
    if u != [] {
      WindowBackwards(r, u, r, v);
      WindowInjective(Clock(r, u[0]), u[1..], v[1..]);
      assert u == [u[0]] + u[1..] && v == [v[0]] + v[1..];
    }
  }

  lemma WindowDetected(r: Word, m: Bits, n: Bits, p: nat, q: nat)
    requires |m| == |n| && p <= q <= |m| && q <= p + 16
    requires m[..p] == n[..p] && m[q..] == n[q..]
    requires ClockAll(r, m) == ClockAll(r, n)
    ensures m == n
  {
    assert m == m[..p] + (m[p..q] + m[q..]);
    assert n == n[..p] + (n[p..q] + n[q..]);
    var x := ClockAll(r, m[..p]);
    FoldAppend(Clock, r, m[..p], m[p..q] + m[q..]);
    FoldAppend(Clock, r, n[..p], n[p..q] + n[q..]);
    FoldAppend(Clock, x, m[p..q], m[q..]);
    FoldAppend(Clock, x, n[p..q], n[q..]);
    SameBitsKeepDifference(ClockAll(x, m[p..q]), ClockAll(x, n[p..q]), m[q..]);
    WindowInjective(x, m[p..q], n[p..q]);
  }

  /** Outside sixteen consecutive bits, counted from `p`, the two messages are the same. */
  predicate BurstAt(m: Bits, n: Bits, p: nat) {
    |m| == |n| && forall i :: 0 <= i < |m| && !(p <= i < p + 16) ==> m[i] == n[i]
  }

  lemma BurstWindow(m: Bits, n: Bits, p: nat) returns (from: nat, to: nat)
    requires BurstAt(m, n, p)
    ensures from <= to <= |m| && to <= from + 16
    ensures m[..from] == n[..from] && m[to..] == n[to..]
  {
    from := if p <= |m| then p else |m|;
    to := if p + 16 <= |m| then p + 16 else |m|;
  }

  /** A burst of up to sixteen bits, anywhere in a message of any length, changes the CRC. */
  lemma BurstDetected(a: Bytes, b: Bytes, p: nat)
    requires a != b && BurstAt(MessageBits(a), MessageBits(b), p)
    ensures CrcOfBytes(a) != CrcOfBytes(b)
  {
    if CrcOfBytes(a) == CrcOfBytes(b) {
      var from, to := BurstWindow(MessageBits(a), MessageBits(b), p);
      BytesAreClocked(PRESET, a);
      BytesAreClocked(PRESET, b);
      WindowDetected(PRESET, MessageBits(a), MessageBits(b), from, to);
      MessageBitsInjective(a, b);
    }
  }

  // ----- parity

  predicate OddWord(w: Word) {
    Odd(RegisterBits(w))
  }

  lemma OddWordXor(v: Word, w: Word)
    ensures OddWord(Xor16(v, w)) == (OddWord(v) != OddWord(w))
  {
    LowBitsXor(v, w, 16);
    OddXor(RegisterBits(v), RegisterBits(w));
  }

  lemma PolynomialIsOdd()
    ensures OddWord(POLYNOMIAL)
  {
    PolynomialShape();
    OddAppend([true], Zeros(12) + [true, false, true]);
    OddAppend(Zeros(12), [true, false, true]);
    OddZeros(12);
    assert [true, false, true] == [true] + [false] + [true];
    OddAppend([true] + [false], [true]);
    OddAppend([true], [false]);
  }

  lemma HalfParity(r: Word)
    ensures OddWord(r / 2) == (OddWord(r) != (r % 2 == 1))
  {
    PowersOfTwo();
    LowBitsTop(r, 16);
    OddAppend(RegisterBits(r), [false]);
    OddAppend([r % 2 == 1], RegisterBits(r / 2));
  }

  /** The bit shifted out is made up for by the three bits of the polynomial. */
  lemma ShiftKeepsParity(r: Word)
    ensures OddWord(Shift(r)) == OddWord(r)
  {
    HalfParity(r);
    PolynomialIsOdd();
    OddWordXor(r / 2, POLYNOMIAL);
  }

  lemma ShiftsKeepParity(r: Word, n: nat)
    ensures OddWord(Iterate(Shift, r, n)) == OddWord(r)
  {
    forall a
      ensures OddWord(Shift(a)) == OddWord(a)
    {
      ShiftKeepsParity(a);
    }
    IteratePreserves(Shift, OddWord, r, n);
  }

  lemma {:induction false} ZeroBits(n: nat)
    ensures LowBits(0, n) == Zeros(n)
  {
    if n > 0 {
      ZeroBits(n - 1);
    }
  }

  lemma {:induction false} LowBitsPadded(w: nat, n: nat, j: nat)
    requires w < Pow2(n)
    ensures LowBits(w, n + j) == LowBits(w, n) + Zeros(j)
    decreases n
  {
    if n > 0 {
      LowBitsPadded(w / 2, n - 1, j);
    } else {
      ZeroBits(j);
    }
  }

  lemma ZeroExtensionKeepsParity(b: Byte)
    ensures OddWord(b) == Odd(BitsOfByte(b))
  {
    PowersOfTwo();
    LowBitsPadded(b, 8, 8);
    OddAppend(BitsOfByte(b), Zeros(8));
    OddZeros(8);
  }

  lemma ShiftedUpKeepsParity(b: Byte)
    ensures OddWord(0x100 * b) == Odd(BitsOfByte(b))
  {
    LowBitsScaled(b, 8, 8);
    assert Shl(b, 8) == 0x100 * b;
    OddAppend(Zeros(8), BitsOfByte(b));
    OddZeros(8);
  }

  lemma OnesAreEven(b: Byte)
    requires b == Pow2(8) - 1
    ensures !Odd(BitsOfByte(b))
  {
    LowBitsOnes(8);
    EightOnes();
  }

  /** Sign extension adds eight equal bits, so it leaves the parity of the byte alone. */
  lemma WidenKeepsParity(x: bool, b: Byte)
    ensures OddWord(Widen(x, b)) == Odd(BitsOfByte(b))
  {
    ZeroExtensionKeepsParity(b);
    if x && b >= 0x80 {
      WidenIsXor(x, b);
      OddWordXor(b, 0xFF00);
      ShiftedUpKeepsParity(0xFF);
      PowersOfTwo();
      OnesAreEven(0xFF);
    }
  }

  lemma EightOnes()
    ensures !Odd(seq(8, _ => true))
  {
    var four := seq(4, _ => true);
    assert four == [true] + [true] + [true] + [true];
    assert seq(8, _ => true) == four + four;
    OddAppend(four, four);
  }

  lemma {:induction false} RunParity(x: bool, r: Word, data: Bytes)
    ensures OddWord(AbsorbAll(r, WidenAll(x, data))) == (OddWord(r) != Odd(MessageBits(data)))
    decreases |data|
  {
    if data != [] {
      var w := Widen(x, data[0]);
      assert WidenAll(x, data)[1..] == WidenAll(x, data[1..]);
      RunParity(x, Absorb(r, w), data[1..]);
      ShiftsKeepParity(Xor16(r, w), 8);
      OddWordXor(r, w);
      WidenKeepsParity(x, data[0]);
      OddAppend(BitsOfByte(data[0]), MessageBits(data[1..]));
    }
  }

  lemma PresetIsEven()
    ensures !OddWord(PRESET)
  {
    var eight := seq(8, _ => true);
    PresetBits();
    EightOnes();
    assert seq(16, _ => true) == eight + eight;
    OddAppend(eight, eight);
  }

  /** The parity of the register is the parity of the message, whether or not `char` is signed. */
  lemma CrcParity(charIsSigned: bool, data: Bytes)
    ensures OddWord(CrcOfBytes(data)) <==> Weight(MessageBits(data)) % 2 == 1
    ensures OddWord(CrcOfString(charIsSigned, data)) <==> Weight(MessageBits(data)) % 2 == 1
  {
    PresetIsEven();
    RunParity(false, PRESET, data);
    RunParity(charIsSigned, PRESET, data);
    OddIsWeight(MessageBits(data));
  }

  lemma OddFlipsShow(from: bool, to: bool, a: Bytes, b: Bytes)
    requires |a| == |b|
    requires Weight(BitStrings.Xor(MessageBits(a), MessageBits(b))) % 2 == 1
    ensures CrcOfString(from, a) != CrcOfString(to, b)
  {
    CrcParity(from, a);
    CrcParity(to, b);
    OddXor(MessageBits(a), MessageBits(b));
    OddIsWeight(BitStrings.Xor(MessageBits(a), MessageBits(b)));
    OddIsWeight(MessageBits(a));
    OddIsWeight(MessageBits(b));
  }

  /** Any odd number of flipped bits is detected by both CRCs. */
  lemma OddFlipsDetected(charIsSigned: bool, a: Bytes, b: Bytes)
    requires |a| == |b|
    requires Weight(BitStrings.Xor(MessageBits(a), MessageBits(b))) % 2 == 1
    ensures CrcOfBytes(a) != CrcOfBytes(b)
    ensures CrcOfString(charIsSigned, a) != CrcOfString(charIsSigned, b)
  {
    OddFlipsShow(false, false, a, b);
    OddFlipsShow(charIsSigned, charIsSigned, a, b);
  }

  // ----- only the error matters

  lemma CrcDifference(x: bool, a: Bytes, b: Bytes)
    requires |a| == |b|
    ensures Xor16(CrcOfString(x, a), CrcOfString(x, b)) == AbsorbAll(0, WidenAll(x, Zip(Xor8, a, b)))
  {
    WidenAllLinear(x, a, b);
    AbsorbAllLinear(PRESET, PRESET, WidenAll(x, a), WidenAll(x, b));
    XorSelf(PRESET);
  }

  lemma SameCrc(x: bool, a: Bytes, b: Bytes)
    requires |a| == |b|
    ensures CrcOfString(x, a) == CrcOfString(x, b) <==> AbsorbAll(0, WidenAll(x, Zip(Xor8, a, b))) == 0
  {
    CrcDifference(x, a, b);
    XorIsZero(CrcOfString(x, a), CrcOfString(x, b));
  }

  lemma DropTwice<T>(s: seq<T>, m: nat, n: nat)
    requires m + n <= |s|
    ensures s[m..][n..] == s[m + n..]
  {
  }

  lemma {:induction false} MessageBitsFrom(data: Bytes, k: nat, n: nat)
    requires k <= |data| && n == 8 * k
    ensures MessageBits(data)[n..] == MessageBits(data[k..])
    decreases k
  {
    if k == 0 {
      assert data[k..] == data;
    } else {
      MessageBitsParts(data);
      MessageBitsFrom(data[1..], k - 1, n - 8);
      DropTwice(MessageBits(data), 8, n - 8);
      DropTwice(data, 1, k - 1);
    }
  }

  lemma SliceAt<T>(s: seq<T>, n: nat, part: seq<T>, i: nat)
    requires n + |part| <= |s| && s[n..][..|part|] == part && i < |part|
    ensures s[n + i] == part[i]
  {
  }

  lemma MessageByteAt(data: Bytes, k: nat, n: nat)
    requires k < |data| && n == 8 * k
    ensures MessageBits(data)[n..][..8] == BitsOfByte(data[k])
  {
    MessageBitsFrom(data, k, n);
    MessageBitsParts(data[k..]);
  }

  lemma MessageBitAt(data: Bytes, k: nat, i: nat, j: nat)
    requires k < |data| && i < 8 && j == 8 * k + i
    ensures MessageBits(data)[j] == BitsOfByte(data[k])[i]
  {
    MessageByteAt(data, k, 8 * k);
    SliceAt(MessageBits(data), 8 * k, BitsOfByte(data[k]), i);
  }

  lemma ErrorBits(a: Byte, b: Byte)
    ensures BitsOfByte(Xor8(a, b)) == BitStrings.Xor(BitsOfByte(a), BitsOfByte(b))
  {
    LowBitsXor(a, b, 8);
  }

  lemma ErrorBitAt(a: Bytes, b: Bytes, k: nat, i: nat, j: nat)
    requires |a| == |b| && k < |a| && i < 8 && j == 8 * k + i
    ensures BitsOfByte(Xor8(a[k], b[k]))[i] == (MessageBits(a)[j] != MessageBits(b)[j])
  {
    MessageBitAt(a, k, i, j);
    MessageBitAt(b, k, i, j);
    ErrorBits(a[k], b[k]);
  }

  // ----- one wire, two implementations

  /** What the signs of the bytes alone leave in a cleared register. */
  function SignSyndrome(data: Bytes): Word {
    AbsorbAll(0, SignWords(data))
  }

  function SignWords(data: Bytes): (words: seq<Word>)
    ensures |words| == |data|
    ensures forall i :: 0 <= i < |data| ==> words[i] == SignBits(true, data[i])
  {
    seq(|data|, i requires 0 <= i < |data| => SignBits(true, data[i]))
  }

  /** Where `char` is signed the two CRCs differ by exactly the syndrome of the signs. */
  lemma SignedDiffersBySyndrome(data: Bytes)
    ensures CrcOfString(true, data) == Xor16(CrcOfBytes(data), SignSyndrome(data))
    ensures CrcOfString(true, data) == CrcOfBytes(data) <==> SignSyndrome(data) == 0
  {
    var w := Zip(Xor16, WidenAll(false, data), SignWords(data));
    forall i | 0 <= i < |data|
      ensures WidenAll(true, data)[i] == w[i]
    {
      WidenIsXor(true, data[i]);
    }
    assert WidenAll(true, data) == w;
    AbsorbAllLinear(PRESET, 0, WidenAll(false, data), SignWords(data));
    XorZero(PRESET);
    XorZero(CrcOfBytes(data));
    XorCommutes(CrcOfBytes(data), SignSyndrome(data));
    XorTwice(SignSyndrome(data), CrcOfBytes(data));
    XorSelf(CrcOfBytes(data));
  }

  function HighBytes(data: Bytes): nat {
    if data == [] then 0 else (if data[0] >= 0x80 then 1 else 0) + HighBytes(data[1..])
  }

  lemma ZeroStaysZero()
    ensures Absorb(0, 0) == 0
  {
  }

  lemma {:induction false} SilentSuffix(r: Word, data: Bytes)
    requires HighBytes(data) == 0
    ensures AbsorbAll(r, SignWords(data)) == 0 <==> r == 0
    decreases |data|
  {
    if data != [] {
      ZeroStaysZero();
      assert SignWords(data)[1..] == SignWords(data[1..]);
      SilentSuffix(Absorb(r, 0), data[1..]);
      if Absorb(r, 0) == 0 {
        AbsorbInjective(r, 0, 0, 0);
      }
    }
  }

  lemma {:induction false} OneHighByteShows(data: Bytes)
    requires HighBytes(data) == 1
    ensures SignSyndrome(data) != 0
  {
    ZeroStaysZero();
    assert SignWords(data)[1..] == SignWords(data[1..]);
    if data[0] >= 0x80 {
      SilentSuffix(Absorb(0, 0xFF00), data[1..]);
      if Absorb(0, 0xFF00) == 0 {
        AbsorbInjective(0, 0xFF00, 0, 0);
      }
    } else {
      OneHighByteShows(data[1..]);
    }
  }

  /** Seven-bit text gets one CRC on both sides; a single byte from 0x80 up never does where
      `char` is signed. Where `char` is unsigned the two functions are the same. */
  lemma SignednessVisible(data: Bytes)
    ensures CrcOfString(false, data) == CrcOfBytes(data)
    ensures HighBytes(data) == 0 ==> CrcOfString(true, data) == CrcOfBytes(data)
    ensures HighBytes(data) == 1 ==> CrcOfString(true, data) != CrcOfBytes(data)
  {
    SignedDiffersBySyndrome(data);
    if HighBytes(data) == 0 {
      SilentSuffix(0, data);
    } else if HighBytes(data) == 1 {
      OneHighByteShows(data);
    }
  }
}
