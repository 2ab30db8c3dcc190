/** What sign extension costs: the one burst of up to sixteen bits that `crc16(String)` cannot
    see where `char` is signed. */
module CrcSigned {
  import opened Words
  import opened ByteStrings
  import opened BitStrings
  import opened Folds
  import opened Crc16
  import opened CrcDivision
  import opened CrcDetection

  // ----- zero words hide nothing

  function NoWords(n: nat): (words: seq<Word>)
    ensures |words| == n && forall i :: 0 <= i < n ==> words[i] == 0
  {
    seq(n, _ => 0)
  }

  lemma {:induction false} ZeroAbsorbsZeros(n: nat)
    ensures AbsorbAll(0, NoWords(n)) == 0
  {
    if n > 0 {
      ZeroStaysZero();
      assert NoWords(n)[1..] == NoWords(n - 1);
      ZeroAbsorbsZeros(n - 1);
    }
  }

  lemma ZerosHideNothing(r: Word, n: nat)
    ensures AbsorbAll(r, NoWords(n)) == 0 <==> r == 0
  {
    ZeroAbsorbsZeros(n);
    if AbsorbAll(r, NoWords(n)) == 0 {
      SameWordsKeepDifference(r, 0, NoWords(n));
    }
  }

  /** Zero words before and after three others do not matter to a cleared register. */
  lemma OnlyThree(words: seq<Word>, b: nat, three: seq<Word>)
    requires |three| == 3
    requires forall k :: 0 <= k < |words| ==> words[k] == if b <= k < b + 3 then three[k - b] else 0
    requires forall k :: 0 <= k < 3 && b + k >= |words| ==> three[k] == 0
    ensures AbsorbAll(0, words) == 0 <==> AbsorbAll(0, three) == 0
  {
    var n := |words|;
    assert words + NoWords(b + 3) == NoWords(b) + (three + NoWords(n));
    FoldAppend(Absorb, 0, words, NoWords(b + 3));
    FoldAppend(Absorb, 0, NoWords(b), three + NoWords(n));
    FoldAppend(Absorb, 0, three, NoWords(n));
    ZeroAbsorbsZeros(b);
    ZerosHideNothing(AbsorbAll(0, words), b + 3);
    ZerosHideNothing(AbsorbAll(0, three), n);
  }

  // ----- sign bits are carried into the next byte

  function Carry(b: Byte): Byte {
    if b >= 0x80 then 0xFF else 0
  }

  lemma SignBitsAreCarried(b: Byte)
    ensures Iterate(Shift, SignBits(true, b), 8) == Carry(b)
  {
    assert Iterate(Shift, 0xFF00, 1) == 0x7F80;
    assert Iterate(Shift, 0xFF00, 2) == 0x3FC0;
    assert Iterate(Shift, 0xFF00, 3) == 0x1FE0;
    assert Iterate(Shift, 0xFF00, 4) == 0xFF0;
    assert Iterate(Shift, 0xFF00, 5) == 0x7F8;
    assert Iterate(Shift, 0xFF00, 6) == 0x3FC;
    assert Iterate(Shift, 0xFF00, 7) == 0x1FE;
    ZeroShifts(8);
  }

  lemma AbsorbSigned(r: Word, b: Byte)
    ensures Absorb(r, Widen(true, b)) == Xor16(Absorb(r, b), Carry(b))
  {
    WidenIsXor(true, b);
    XorAssociates(r, b, SignBits(true, b));
    ShiftsLinear(Xor16(r, b), SignBits(true, b), 8);
    SignBitsAreCarried(b);
  }

  lemma AbsorbCarried(r: Word, c: Byte, b: Byte)
    ensures Absorb(Xor16(r, c), b) == Absorb(r, Xor8(b, c))
  {
    XorAssociates(r, c, b);
    XorCommutes(b, c);
  }

  lemma ThreeSigned(e0: Byte, e1: Byte, e2: Byte)
    requires e2 < 0x80
    ensures AbsorbAll(0, [Widen(true, e0), Widen(true, e1), Widen(true, e2)])
         == ClockAll(0, BitsOfByte(e0) + (BitsOfByte(Xor8(e1, Carry(e0))) + BitsOfByte(Xor8(e2, Carry(e1)))))
  {
    var f1, f2 := Xor8(e1, Carry(e0)), Xor8(e2, Carry(e1));
    var r0 := Absorb(0, e0);
    var r1 := Absorb(r0, f1);
    AbsorbSigned(0, e0);
    AbsorbSigned(Xor16(r0, Carry(e0)), e1);
    AbsorbCarried(r0, Carry(e0), e1);
    AbsorbCarried(r1, Carry(e1), e2);
    ThreeWords(0, Widen(true, e0), Widen(true, e1), Widen(true, e2));
    ByteIsEightClocks(0, e0);
    ByteIsEightClocks(r0, f1);
    ByteIsEightClocks(r1, f2);
    FoldAppend(Clock, 0, BitsOfByte(e0), BitsOfByte(f1) + BitsOfByte(f2));
    FoldAppend(Clock, r0, BitsOfByte(f1), BitsOfByte(f2));
  }

  lemma ThreeWords(r: Word, u: Word, v: Word, w: Word)
    ensures AbsorbAll(r, [u, v, w]) == Absorb(Absorb(Absorb(r, u), v), w)
  {
    assert [u, v, w] == [u] + ([v] + ([w] + []));
    FoldFirst(Absorb, r, u, [v] + ([w] + []));
    FoldFirst(Absorb, Absorb(r, u), v, [w] + []);
    FoldFirst(Absorb, Absorb(Absorb(r, u), v), w, []);
  }

  // ----- what leaves a cleared register clear

  /** The only sixteen bits that bring the register back to zero are its own. */
  lemma WindowCloses(u: Bits, v: Bits)
    requires |v| == 16
    ensures ClockAll(0, u + v) == 0 <==> RegisterBits(ClockAll(0, u)) == v
  {
    var x := ClockAll(0, u);
    FoldAppend(Clock, 0, u, v);
    PowersOfTwo();
    PendingBitsAreClocked(x, x, 16);
    XorSelf(x);
    ZeroShifts(16);
    if ClockAll(x, v) == 0 {
      WindowInjective(x, RegisterBits(x), v);
    }
  }

  lemma EmptyDividend(u: Bits)
    ensures Dividend(0, u) == u + Zeros(16)
  {
    ZeroBits(16);
  }

  /** Such messages are the multiples of the divisor. */
  lemma WindowIsMultiple(u: Bits, v: Bits, q: Bits)
    requires |u| == |q| && |v| == 16
    ensures u + v == TimesDivisor(q) <==> ClockAll(0, u + v) == 0 && q == Quotient(u + Zeros(16))
  {
    var d, p := u + Zeros(16), TimesDivisor(q);
    WindowCloses(u, v);
    RegisterDivides(0, u);
    EmptyDividend(u);
    DivisionIsUnique(d, q, v);
    var s := BitStrings.Xor(p, Zeros(|q|) + v);
    forall k | 0 <= k < |d|
      ensures (d[k] == s[k]) == ((u + v)[k] == p[k])
    {
    }
    assert Divides(d, q, v) <==> u + v == p by {
      SameWhere(d, s, u + v, p);
    }
  }

  lemma SameWhere(a: Bits, b: Bits, c: Bits, d: Bits)
    requires |a| == |b| == |c| == |d|
    requires forall k :: 0 <= k < |a| ==> (a[k] == b[k]) == (c[k] == d[k])
    ensures a == b <==> c == d
  {
    if a == b {
      forall k | 0 <= k < |a|
        ensures c[k] == d[k]
      {
        assert a[k] == b[k];
      }
    }
    if c == d {
      forall k | 0 <= k < |a|
        ensures a[k] == b[k]
      {
        assert c[k] == d[k];
      }
    }
  }

  predicate BitAt(q: Bits, k: int) {
    0 <= k < |q| && q[k]
  }

  lemma LaterBit(q: Bits, j: int)
    requires q != []
    ensures BitAt(q, j) == if j == 0 then q[0] else BitAt(q[1..], j - 1)
  {
  }

  /** The coefficient of q * x^16 + q * x^15 + q * x^2 + q. */
  predicate ProductBit(q: Bits, k: int) {
    (BitAt(q, k) != BitAt(q, k - 1)) != (BitAt(q, k - 14) != BitAt(q, k - 16))
  }

  lemma ProductStep(q: Bits, k: int)
    requires q != [] && k > 0
    ensures ProductBit(q, k) == (ProductBit(q[1..], k - 1) != (q[0] && GBit(k - 1)))
  {
    LaterBit(q, k);
    LaterBit(q, k - 1);
    LaterBit(q, k - 14);
    LaterBit(q, k - 16);
  }

  lemma TimesDivisorStep(q: Bits, k: nat)
    requires q != [] && k < |q| + 16
    ensures TimesDivisor(q)[k] == if k == 0 then q[0] else TimesDivisor(q[1..])[k - 1] != (q[0] && GBit(k - 1))
  {
  }

  lemma NothingTimesDivisor(q: Bits, k: nat)
    requires q == [] && k < 16
    ensures TimesDivisor(q)[k] == ProductBit(q, k)
  {
    assert TimesDivisor(q) == Zeros(16);
  }

  lemma ProductMore(q: Bits, k: nat)
    requires q != [] && 0 < k < |q| + 16
    requires TimesDivisor(q[1..])[k - 1] == ProductBit(q[1..], k - 1)
    ensures TimesDivisor(q)[k] == ProductBit(q, k)
  {
    TimesDivisorStep(q, k);
    ProductStep(q, k);
  }

  lemma {:induction false} TimesDivisorBits(q: Bits, k: nat)
    requires k < |q| + 16
    ensures TimesDivisor(q)[k] == ProductBit(q, k)
    decreases |q|
  {
    if q == [] {
      NothingTimesDivisor(q, k);
    } else if k == 0 {
      TimesDivisorStep(q, k);
    } else {
      TimesDivisorBits(q[1..], k - 1);
      ProductMore(q, k);
    }
  }

  // ----- bytes and their bits

  lemma {:induction false} TopBit(b: nat, n: nat)
    requires b < Pow2(n + 1)
    ensures LowBits(b, n + 1)[n] == (b >= Pow2(n))
    decreases n
  {
    if n > 0 {
      TopBit(b / 2, n - 1);
    }
  }

  /** The bits the carry inverts. */
  lemma CarriedBits(e: Byte, b: Byte, i: nat)
    requires i < 8
    ensures BitsOfByte(Xor8(b, Carry(e)))[i] == (BitsOfByte(b)[i] != BitsOfByte(e)[7])
  {
    PowersOfTwo();
    assert Pow2(7) == 0x80;
    TopBit(e, 7);
    ErrorBits(b, Carry(e));
    LowBitsOnes(8);
    ZeroBits(8);
  }

  // ----- the only solution

  predicate First(q: Bits, x: Bits)
    requires |q| == |x| == 8
  {
    && x[0] == q[0] && x[1] == (q[1] != q[0]) && x[2] == (q[2] != q[1]) && x[3] == (q[3] != q[2])
    && x[4] == (q[4] != q[3]) && x[5] == (q[5] != q[4]) && x[6] == (q[6] != q[5]) && x[7] == (q[7] != q[6])
  }

  predicate Middle(q: Bits, carry: bool, y: Bits)
    requires |q| == |y| == 8
  {
    && y[0] == (q[7] != carry) && y[1] == carry && y[2] == carry && y[3] == carry
    && y[4] == carry && y[5] == carry && y[6] == (q[0] != carry) && y[7] == (q[1] != carry)
  }

  predicate Last(q: Bits, carry: bool, z: Bits)
    requires |q| == |z| == 8
  {
    && z[0] == ((q[0] != q[2]) != carry) && z[1] == ((q[1] != q[3]) != carry)
    && z[2] == ((q[2] != q[4]) != carry) && z[3] == ((q[3] != q[5]) != carry)
    && z[4] == ((q[4] != q[6]) != carry) && z[5] == ((q[5] != q[7]) != carry)
    && z[6] == (q[6] != carry) && z[7] == (q[7] != carry)
  }

  /** `x`, `y`, `z` are the bits of three signed error bytes that multiply out to `q`: each takes
      the carry of the sign bit before it. */
  predicate Solves(q: Bits, x: Bits, y: Bits, z: Bits)
    requires |q| == |x| == |y| == |z| == 8
  {
    First(q, x) && Middle(q, x[7], y) && Last(q, y[7], z)
  }

  /** Sixteen bits from bit `o` of the first byte on. */
  predicate InWindow(x: Bits, z: Bits, o: nat)
    requires |x| == |z| == 8
  {
    (forall i :: 0 <= i < 8 && i < o ==> !x[i]) && (forall i :: 0 <= i < 8 && i >= o ==> !z[i])
  }

  lemma OneSolution(q: Bits, x: Bits, y: Bits, z: Bits, o: nat)
    requires |q| == |x| == |y| == |z| == 8 && o < 8
    requires Solves(q, x, y, z) && InWindow(x, z, o)
    ensures (forall i :: 0 <= i < 8 ==> !q[i]) || q == Zeros(7) + [true]
  {
    assert (o > 0 ==> !x[0]) && (o > 1 ==> !x[1]) && (o > 2 ==> !x[2]) && (o > 3 ==> !x[3]) && (o > 4 ==> !x[4]);
    assert (o > 5 ==> !x[5]) && (o > 6 ==> !x[6]);
    assert (o <= 0 ==> !z[0]) && (o <= 1 ==> !z[1]) && (o <= 2 ==> !z[2]) && (o <= 3 ==> !z[3]) && (o <= 4 ==> !z[4]);
    assert (o <= 5 ==> !z[5]) && (o <= 6 ==> !z[6]) && !z[7];
  }

  lemma ThreeParts(x: Bits, y: Bits, z: Bits, p: Bits)
    requires |x| == |y| == |z| == 8 && |p| == 24
    ensures x + (y + z) == p <==> x == p[..8] && y == p[8..16] && z == p[16..]
  {
    assert p == p[..8] + (p[8..16] + p[16..]);
    var w := x + (y + z);
    assert w[..8] == x && w[8..16] == y && w[16..] == z;
  }

  lemma FirstPart(q: Bits, p: Bits, x: Bits)
    requires |q| == |p| == |x| == 8
    requires forall k :: 0 <= k < 8 ==> p[k] == ProductBit(q, k)
    ensures x == p <==> First(q, x)
  {
    assert First(q, p);
    if First(q, x) {
      assert x == p;
    }
  }

  lemma MiddlePart(q: Bits, p: Bits, carry: bool, y: Bits, y': Bits)
    requires |q| == |p| == |y| == |y'| == 8
    requires forall k :: 0 <= k < 8 ==> p[k] == ProductBit(q, k + 8)
    requires forall i :: 0 <= i < 8 ==> y[i] == (y'[i] != carry)
    ensures y == p <==> Middle(q, carry, y')
  {
    assert Middle(q, false, p);
    if Middle(q, carry, y') {
      assert y == p;
    }
  }

  lemma LastPart(q: Bits, p: Bits, carry: bool, z: Bits, z': Bits)
    requires |q| == |p| == |z| == |z'| == 8
    requires forall k :: 0 <= k < 8 ==> p[k] == ProductBit(q, k + 16)
    requires forall i :: 0 <= i < 8 ==> z[i] == (z'[i] != carry)
    ensures z == p <==> Last(q, carry, z')
  {
    assert Last(q, false, p);
    if Last(q, carry, z') {
      assert z == p;
    }
  }

  /** Three error bytes that leave a cleared register clear. */
  predicate Unseen(e0: Byte, e1: Byte, e2: Byte) {
    AbsorbAll(0, [Widen(true, e0), Widen(true, e1), Widen(true, e2)]) == 0
  }

  lemma ProductSolves(q: Bits, x: Bits, y: Bits, z: Bits, y': Bits, z': Bits)
    requires |q| == |x| == |y| == |z| == |y'| == |z'| == 8
    requires forall i :: 0 <= i < 8 ==> y[i] == (y'[i] != x[7])
    requires forall i :: 0 <= i < 8 ==> z[i] == (z'[i] != y'[7])
    ensures x + (y + z) == TimesDivisor(q) <==> Solves(q, x, y', z')
  {
    var p := TimesDivisor(q);
    forall k | 0 <= k < 24
      ensures p[k] == ProductBit(q, k)
    {
      TimesDivisorBits(q, k);
    }
    ThreeParts(x, y, z, p);
    FirstPart(q, p[..8], x);
    MiddlePart(q, p[8..16], x[7], y, y');
    LastPart(q, p[16..], y'[7], z, z');
  }

  lemma AllCarriedBits(e: Byte, b: Byte)
    ensures forall i :: 0 <= i < 8 ==> BitsOfByte(Xor8(b, Carry(e)))[i] == (BitsOfByte(b)[i] != BitsOfByte(e)[7])
  {
    forall i | 0 <= i < 8
      ensures BitsOfByte(Xor8(b, Carry(e)))[i] == (BitsOfByte(b)[i] != BitsOfByte(e)[7])
    {
      CarriedBits(e, b, i);
    }
  }

  /** Three error bytes go unseen exactly if their bits multiply out. */
  lemma UnseenSolves(e0: Byte, e1: Byte, e2: Byte, q: Bits)
    requires e2 < 0x80 && |q| == 8
    ensures Solves(q, BitsOfByte(e0), BitsOfByte(e1), BitsOfByte(e2))
       <==> Unseen(e0, e1, e2) && q == Quotient(BitsOfByte(e0) + Zeros(16))
  {
    var x, y, z := BitsOfByte(e0), BitsOfByte(Xor8(e1, Carry(e0))), BitsOfByte(Xor8(e2, Carry(e1)));
    ThreeSigned(e0, e1, e2);
    WindowIsMultiple(x, y + z, q);
    AllCarriedBits(e0, e1);
    AllCarriedBits(e1, e2);
    ProductSolves(q, x, y, z, BitsOfByte(e1), BitsOfByte(e2));
  }

  lemma NoBits(c: Byte)
    ensures c == 0 <==> forall i :: 0 <= i < 8 ==> !BitsOfByte(c)[i]
  {
    ZeroBits(8);
    if forall i :: 0 <= i < 8 ==> !BitsOfByte(c)[i] {
      assert BitsOfByte(c) == BitsOfByte(0);
      ByteFromBits(c, 0);
    }
  }

  predicate AllClear(e0: Byte, e1: Byte, e2: Byte) {
    e0 == 0 && e1 == 0 && e2 == 0
  }

  predicate BlindSpot(e0: Byte, e1: Byte, e2: Byte) {
    e0 == 0x80 && e1 == 0xFE && e2 == 0x5F
  }

  lemma EightBits(b: Byte, s: Bits)
    requires |s| == 8 && s[0] == (b % 2 == 1) && s[1] == (b / 2 % 2 == 1) && s[2] == (b / 2 / 2 % 2 == 1)
    requires s[3] == (b / 2 / 2 / 2 % 2 == 1) && s[4] == (b / 2 / 2 / 2 / 2 % 2 == 1)
    requires s[5] == (b / 2 / 2 / 2 / 2 / 2 % 2 == 1) && s[6] == (b / 2 / 2 / 2 / 2 / 2 / 2 % 2 == 1)
    requires s[7] == (b / 2 / 2 / 2 / 2 / 2 / 2 / 2 % 2 == 1)
    ensures BitsOfByte(b) == s
  {
  }

  lemma ByteIs(b: Byte, c: Byte, s: Bits)
    requires |s| == 8 && s[0] == (c % 2 == 1) && s[1] == (c / 2 % 2 == 1) && s[2] == (c / 2 / 2 % 2 == 1)
    requires s[3] == (c / 2 / 2 / 2 % 2 == 1) && s[4] == (c / 2 / 2 / 2 / 2 % 2 == 1)
    requires s[5] == (c / 2 / 2 / 2 / 2 / 2 % 2 == 1) && s[6] == (c / 2 / 2 / 2 / 2 / 2 / 2 % 2 == 1)
    requires s[7] == (c / 2 / 2 / 2 / 2 / 2 / 2 / 2 % 2 == 1)
    ensures b == c <==> BitsOfByte(b) == s
  {
    EightBits(c, s);
    if BitsOfByte(b) == s {
      ByteFromBits(b, c);
    }
  }

  predicate BlindBits(x: Bits, y: Bits, z: Bits) {
    && x == [false, false, false, false, false, false, false, true]
    && y == [false, true, true, true, true, true, true, true]
    && z == [true, true, true, true, true, false, true, false]
  }

  lemma PatternBits(e0: Byte, e1: Byte, e2: Byte)
    ensures BlindSpot(e0, e1, e2) <==> BlindBits(BitsOfByte(e0), BitsOfByte(e1), BitsOfByte(e2))
  {
    ByteIs80(e0);
    ByteIsFE(e1);
    ByteIs5F(e2);
  }

  lemma ByteIs80(b: Byte)
    ensures b == 0x80 <==> BitsOfByte(b) == [false, false, false, false, false, false, false, true]
  {
    ByteIs(b, 0x80, [false, false, false, false, false, false, false, true]);
  }

  lemma ByteIsFE(b: Byte)
    ensures b == 0xFE <==> BitsOfByte(b) == [false, true, true, true, true, true, true, true]
  {
    ByteIs(b, 0xFE, [false, true, true, true, true, true, true, true]);
  }

  lemma ByteIs5F(b: Byte)
    ensures b == 0x5F <==> BitsOfByte(b) == [true, true, true, true, true, false, true, false]
  {
    ByteIs(b, 0x5F, [true, true, true, true, true, false, true, false]);
  }

  lemma SolutionBits(q: Bits, x: Bits, y: Bits, z: Bits)
    requires |q| == |x| == |y| == |z| == 8
    ensures (forall i :: 0 <= i < 8 ==> !q[i]) && Solves(q, x, y, z) ==> x == y == z == Zeros(8)
    ensures q == Zeros(7) + [true] ==> (Solves(q, x, y, z) <==> BlindBits(x, y, z))
  {
    if Solves(q, x, y, z) {
      if forall i :: 0 <= i < 8 ==> !q[i] {
        assert x == Zeros(8);
        assert y == Zeros(8);
        assert z == Zeros(8);
      } else if q == Zeros(7) + [true] {
        assert q[7] && !q[6] && !q[5] && !q[4] && !q[3] && !q[2] && !q[1] && !q[0];
        assert x == [false, false, false, false, false, false, false, true];
        assert y == [false, true, true, true, true, true, true, true];
        assert z == [true, true, true, true, true, false, true, false];
      }
    }
  }

  lemma SolutionBytes(q: Bits, e0: Byte, e1: Byte, e2: Byte)
    requires |q| == 8 && Solves(q, BitsOfByte(e0), BitsOfByte(e1), BitsOfByte(e2))
    ensures (forall i :: 0 <= i < 8 ==> !q[i]) ==> AllClear(e0, e1, e2)
    ensures q == Zeros(7) + [true] ==> BlindSpot(e0, e1, e2)
  {
    SolutionBits(q, BitsOfByte(e0), BitsOfByte(e1), BitsOfByte(e2));
    PatternBits(e0, e1, e2);
    NoBits(e0);
    NoBits(e1);
    NoBits(e2);
  }

  lemma BlindSpotIsUnseen(e0: Byte, e1: Byte, e2: Byte)
    requires BlindSpot(e0, e1, e2)
    ensures Unseen(e0, e1, e2)
  {
    PatternBits(e0, e1, e2);
    SolutionBits(Zeros(7) + [true], BitsOfByte(e0), BitsOfByte(e1), BitsOfByte(e2));
    UnseenSolves(e0, e1, e2, Zeros(7) + [true]);
  }

  /** Of all error patterns in a window, exactly one besides no error at all goes unseen. */
  lemma UnseenBytes(e0: Byte, e1: Byte, e2: Byte, o: nat)
    requires o < 8 && InWindow(BitsOfByte(e0), BitsOfByte(e2), o)
    ensures Unseen(e0, e1, e2) ==> AllClear(e0, e1, e2) || BlindSpot(e0, e1, e2)
    ensures BlindSpot(e0, e1, e2) ==> Unseen(e0, e1, e2)
  {
    if BlindSpot(e0, e1, e2) {
      BlindSpotIsUnseen(e0, e1, e2);
    }
    if Unseen(e0, e1, e2) {
      var q := Quotient(BitsOfByte(e0) + Zeros(16));
      assert Pow2(7) == 0x80 && Pow2(8) == 0x100;
      TopBit(e2, 7);
      UnseenSolves(e0, e1, e2, q);
      OneSolution(q, BitsOfByte(e0), BitsOfByte(e1), BitsOfByte(e2), o);
      SolutionBytes(q, e0, e1, e2);
    }
  }

  // ----- in a message

  function At(e: Bytes, k: nat): Byte {
    if k < |e| then e[k] else 0
  }

  /** The two messages differ by exactly 80 FE 5F, exclusive-ored into three bytes from `i` on. */
  predicate DiffersUnseen(a: Bytes, b: Bytes, i: nat) {
    && |a| == |b| && i + 3 <= |a|
    && b[i] == Xor8(a[i], 0x80) && b[i + 1] == Xor8(a[i + 1], 0xFE) && b[i + 2] == Xor8(a[i + 2], 0x5F)
    && forall k :: 0 <= k < |a| && !(i <= k < i + 3) ==> a[k] == b[k]
  }

  predicate ErrorsOnlyAt(e: Bytes, i: nat) {
    forall k :: 0 <= k < |e| && !(i <= k < i + 3) ==> e[k] == 0
  }

  predicate ErrorsUnseen(e: Bytes, i: nat) {
    i + 3 <= |e| && BlindSpot(e[i], e[i + 1], e[i + 2]) && ErrorsOnlyAt(e, i)
  }

  lemma XorMoves(a: Byte, b: Byte, x: Byte)
    ensures Xor8(a, b) == x <==> b == Xor8(a, x)
  {
    XorCommutes(a, b);
    XorTwice(b, a);
    XorCommutes(a, x);
    XorTwice(x, a);
  }

  lemma UnseenErrors(a: Bytes, b: Bytes, e: Bytes, i: nat)
    requires |a| == |b| && e == Zip(Xor8, a, b)
    ensures DiffersUnseen(a, b, i)
       <==> ErrorsUnseen(e, i)
  {
    forall k | 0 <= k < |a|
      ensures e[k] == 0 <==> a[k] == b[k]
    {
      XorIsZero(a[k], b[k]);
    }
    if i + 3 <= |a| {
      XorMoves(a[i], b[i], 0x80);
      XorMoves(a[i + 1], b[i + 1], 0xFE);
      XorMoves(a[i + 2], b[i + 2], 0x5F);
    }
  }

  /** With errors in three bytes only, those decide. */
  lemma ErrorsDecide(e: Bytes, i: nat)
    requires ErrorsOnlyAt(e, i)
    ensures AbsorbAll(0, WidenAll(true, e)) == 0 <==> Unseen(At(e, i), At(e, i + 1), At(e, i + 2))
  {
    var three := [Widen(true, At(e, i)), Widen(true, At(e, i + 1)), Widen(true, At(e, i + 2))];
    var words := WidenAll(true, e);
    forall k | 0 <= k < |words|
      ensures words[k] == if i <= k < i + 3 then three[k - i] else 0
    {
      if i <= k < i + 3 {
        assert k - i == 0 || k - i == 1 || k - i == 2;
      }
    }
    OnlyThree(words, i, three);
  }

  /** Such a difference never changes the CRC of a signed-`char` end, wherever it is. */
  lemma NeverSeen(a: Bytes, b: Bytes, i: nat)
    requires DiffersUnseen(a, b, i)
    ensures CrcOfString(true, a) == CrcOfString(true, b)
  {
    var e := Zip(Xor8, a, b);
    UnseenErrors(a, b, e, i);
    ErrorsDecide(e, i);
    BlindSpotIsUnseen(e[i], e[i + 1], e[i + 2]);
    SameCrc(true, a, b);
  }

  /** Outside sixteen consecutive bits there are no errors. */
  predicate ErrorsWithin(e: Bytes, p: nat) {
    forall k, i :: 0 <= k < |e| && 0 <= i < 8 && !(p <= 8 * k + i < p + 16) ==> !BitsOfByte(e[k])[i]
  }

  lemma BurstErrors(a: Bytes, b: Bytes, p: nat)
    requires BurstAt(MessageBits(a), MessageBits(b), p)
    ensures |a| == |b| && ErrorsWithin(Zip(Xor8, a, b), p)
  {
    forall k, i | 0 <= k < |a| && 0 <= i < 8 && !(p <= 8 * k + i < p + 16)
      ensures !BitsOfByte(Xor8(a[k], b[k]))[i]
    {
      ErrorBitAt(a, b, k, i, 8 * k + i);
    }
  }

  lemma BurstBytes(e: Bytes, p: nat, b: nat, o: nat)
    requires p == 8 * b + o && o < 8 && ErrorsWithin(e, p)
    ensures ErrorsOnlyAt(e, b)
    ensures InWindow(BitsOfByte(At(e, b)), BitsOfByte(At(e, b + 2)), o)
  {
    forall k | 0 <= k < |e| && !(b <= k < b + 3)
      ensures e[k] == 0
    {
      NoBits(e[k]);
    }
    NoBits(0);
  }

  predicate NoErrors(e: Bytes) {
    forall k :: 0 <= k < |e| ==> e[k] == 0
  }

  lemma ErrorsInBurst(e: Bytes, p: nat, i: nat, o: nat)
    requires p == 8 * i + o && o < 8 && ErrorsWithin(e, p)
    requires AbsorbAll(0, WidenAll(true, e)) == 0
    ensures NoErrors(e) || ErrorsUnseen(e, i)
  {
    BurstBytes(e, p, i, o);
    ErrorsDecide(e, i);
    UnseenBytes(At(e, i), At(e, i + 1), At(e, i + 2), o);
    if AllClear(At(e, i), At(e, i + 1), At(e, i + 2)) {
      forall k | 0 <= k < |e|
        ensures e[k] == 0
      {
        assert k < i || k >= i + 3 || k == i || k == i + 1 || k == i + 2;
      }
    }
  }

  lemma NothingDiffers(a: Bytes, b: Bytes)
    requires |a| == |b| && NoErrors(Zip(Xor8, a, b))
    ensures a == b
  {
    forall k | 0 <= k < |a|
      ensures a[k] == b[k]
    {
      assert Zip(Xor8, a, b)[k] == 0;
      XorIsZero(a[k], b[k]);
    }
  }

  lemma SignedBurstUnseen(a: Bytes, b: Bytes, p: nat, i: nat, o: nat)
    requires a != b && BurstAt(MessageBits(a), MessageBits(b), p) && p == 8 * i + o && o < 8
    requires CrcOfString(true, a) == CrcOfString(true, b)
    ensures DiffersUnseen(a, b, i)
  {
    var e := Zip(Xor8, a, b);
    BurstErrors(a, b, p);
    SameCrc(true, a, b);
    ErrorsInBurst(e, p, i, o);
    UnseenErrors(a, b, e, i);
    if NoErrors(e) {
      NothingDiffers(a, b);
    }
  }

  /** Where `char` is signed, of all bursts of up to sixteen bits in messages of any length
      exactly one pattern leaves the CRC as it was. */
  lemma SignedBurst(a: Bytes, b: Bytes, p: nat)
    requires a != b && BurstAt(MessageBits(a), MessageBits(b), p)
    ensures CrcOfString(true, a) == CrcOfString(true, b) <==> exists i :: DiffersUnseen(a, b, i)
  {
    if CrcOfString(true, a) == CrcOfString(true, b) {
      SignedBurstUnseen(a, b, p, p / 8, p % 8);
    }
    if i :| DiffersUnseen(a, b, i) {
      NeverSeen(a, b, i);
    }
  }

  /** Outside fifteen consecutive bits, counted from `p`, the two messages are the same. */
  predicate ShortBurstAt(m: Bits, n: Bits, p: nat) {
    |m| == |n| && forall i :: 0 <= i < |m| && !(p <= i < p + 15) ==> m[i] == n[i]
  }

  lemma PatternBitAt(x: Bits, y: Bits, z: Bits, m: nat)
    requires m < 8 && BlindBits(x, y, z)
    ensures |x| == |z| == 8 && x[m] == (m == 7) && (m == 6 ==> z[m]) && (m == 7 ==> !z[m])
  {
  }

  lemma PatternByteAt(e: Bytes, i: nat, k: nat, m: nat)
    requires ErrorsUnseen(e, i) && k < |e| && m < 8
    ensures k == i ==> BitsOfByte(e[k])[m] == (m == 7)
    ensures k == i + 2 ==> (m == 6 ==> BitsOfByte(e[k])[m]) && (m == 7 ==> !BitsOfByte(e[k])[m])
    ensures k < i || k > i + 2 ==> !BitsOfByte(e[k])[m]
  {
    PatternBits(e[i], e[i + 1], e[i + 2]);
    PatternBitAt(BitsOfByte(e[i]), BitsOfByte(e[i + 1]), BitsOfByte(e[i + 2]), m);
    if k < i || k > i + 2 {
      NoBits(e[k]);
    }
  }

  /** The unseen pattern starts with bit 7 of its first byte and ends with bit 6 of its third. */
  lemma UnseenBitAt(a: Bytes, b: Bytes, i: nat, k: nat, m: nat, j: nat)
    requires |a| == |b| && ErrorsUnseen(Zip(Xor8, a, b), i)
    requires k < |a| && m < 8 && j == 8 * k + m
    ensures j == 8 * i + 7 || j == 8 * i + 22 ==> MessageBits(a)[j] != MessageBits(b)[j]
    ensures !(8 * i + 7 <= j < 8 * i + 23) ==> MessageBits(a)[j] == MessageBits(b)[j]
  {
    ErrorBitAt(a, b, k, m, j);
    PatternByteAt(Zip(Xor8, a, b), i, k, m);
  }

  predicate DiffersAt(a: Bytes, b: Bytes, j: nat) {
    |a| == |b| && j < 8 * |a| && MessageBits(a)[j] != MessageBits(b)[j]
  }

  lemma UnseenIsLong(a: Bytes, b: Bytes, i: nat, j: nat, k: nat)
    requires |a| == |b| && ErrorsUnseen(Zip(Xor8, a, b), i) && j == 8 * i + 7 && k == 8 * i + 22
    ensures DiffersAt(a, b, j) && DiffersAt(a, b, k)
  {
    UnseenBitAt(a, b, i, i, 7, j);
    UnseenBitAt(a, b, i, i + 2, 6, k);
  }

  lemma ShortBurstAgrees(a: Bytes, b: Bytes, p: nat, j: nat, k: nat)
    requires ShortBurstAt(MessageBits(a), MessageBits(b), p) && k == j + 15
    ensures !DiffersAt(a, b, j) || !DiffersAt(a, b, k)
  {
  }

  /** The unseen pattern is sixteen bits long, so no shorter burst goes unseen. */
  lemma ShortSignedBurst(a: Bytes, b: Bytes, p: nat)
    requires a != b && ShortBurstAt(MessageBits(a), MessageBits(b), p)
    ensures CrcOfString(true, a) != CrcOfString(true, b)
  {
    SignedBurst(a, b, p);
    forall i: nat
      ensures !DiffersUnseen(a, b, i)
    {
      var j, k := 8 * i + 7, 8 * i + 22;
      UnseenErrors(a, b, Zip(Xor8, a, b), i);
      ShortBurstAgrees(a, b, p, j, k);
      if ErrorsUnseen(Zip(Xor8, a, b), i) {
        UnseenIsLong(a, b, i, j, k);
      }
    }
  }

  /** The unseen differences are themselves bursts of sixteen bits. */
  lemma DiffersInBurst(a: Bytes, b: Bytes, i: nat)
    requires DiffersUnseen(a, b, i)
    ensures BurstAt(MessageBits(a), MessageBits(b), 8 * i + 7) && a != b
  {
    UnseenErrors(a, b, Zip(Xor8, a, b), i);
    forall j | 0 <= j < 8 * |a| && !(8 * i + 7 <= j < 8 * i + 23)
      ensures MessageBits(a)[j] == MessageBits(b)[j]
    {
      UnseenBitAt(a, b, i, j / 8, j % 8, j);
    }
    UnseenBitAt(a, b, i, i, 7, 8 * i + 7);
  }
}
