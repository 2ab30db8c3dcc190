/** How far apart two flipped bits must be to cancel out: the order of the CRC's shift register.
    The generator is (x + 1)(x^15 + x + 1); the second factor is primitive, so that the register
    returns to where it was after every 2^15 - 1 shifts and at no other time. */
module CrcOrder {
  import opened Words
  import opened BitStrings
  import opened Folds
  import opened Modulo
  import opened Crc16
  import opened CrcDetection

  const ORDER: nat := 32767

  // ----- a register that the factor x + 1 does not matter to

  /** A register of even parity, shifted n times. */
  function Turned(n: nat): Word {
    Iterate(Shift, 0xC000, n)
  }

  /** The bit the n-th shift pushes out of it. */
  predicate Out(n: nat) {
    Turned(n) % 2 == 1
  }

  lemma {:induction false} ShiftsAdd(r: Word, m: nat, n: nat)
    ensures Iterate(Shift, Iterate(Shift, r, m), n) == Iterate(Shift, r, m + n)
    decreases n
  {
    if n > 0 {
      ShiftsAdd(r, m, n - 1);
    }
  }

  lemma ShiftsInjective(r: Word, s: Word, n: nat)
    requires Iterate(Shift, r, n) == Iterate(Shift, s, n)
    ensures r == s
  {
    forall a, b | Shift(a) == Shift(b)
      ensures a == b
    {
      ShiftInjective(a, b);
    }
    IterateInjective(Shift, r, s, n);
  }

  lemma TurnHalves(n: nat, r: Word)
    requires Turned(n) == 2 * r
    ensures Turned(n + 1) == r && !Out(n)
  {
  }

  /** The first bits that come out. */
  lemma FirstTurns()
    ensures Turned(1) == 0x6000 && Turned(14) == 3
    ensures forall n :: 0 <= n < 14 ==> !Out(n)
  {
    TurnHalves(0, 0x6000);
    TurnHalves(1, 0x3000);
    TurnHalves(2, 0x1800);
    TurnHalves(3, 0xC00);
    TurnHalves(4, 0x600);
    TurnHalves(5, 0x300);
    TurnHalves(6, 0x180);
    TurnHalves(7, 0xC0);
    TurnHalves(8, 0x60);
    TurnHalves(9, 0x30);
    TurnHalves(10, 0x18);
    TurnHalves(11, 0xC);
    TurnHalves(12, 0x6);
    TurnHalves(13, 0x3);
  }

  lemma ShiftThree(p: Word)
    requires POLYNOMIAL == 2 * p + 1
    ensures Shift(3) == 2 * p
  {
    XorWhole(1, POLYNOMIAL);
    XorCommutes(0, p);
    XorZero(p);
  }

  lemma SumOfTurns()
    ensures Xor16(0x6000, 0xC000) == 0xA000
  {
    assert Words.Xor(3, 6) == 5;
    XorShl(3, 6, 13);
    ThirteenUp(3);
    ThirteenUp(6);
    ThirteenUp(5);
  }

  lemma ThirteenUp(h: nat)
    ensures Shl(h, 13) == 0x2000 * h
  {
  }

  lemma FifteenTurns()
    ensures Turned(15) == 0xA000 && !Out(15)
  {
    FirstTurns();
    ShiftThree(0x5000);
    assert Turned(15) == Shift(Turned(14));
  }

  /** x^15 = x + 1 */
  lemma Recurrence(n: nat)
    ensures Out(n + 15) == (Out(n + 1) != Out(n))
  {
    FirstTurns();
    FifteenTurns();
    SumOfTurns();
    ShiftsLinear(0x6000, 0xC000, n);
    ShiftsAdd(0xC000, 15, n);
    ShiftsAdd(0xC000, 1, n);
    XorHalves(Turned(n + 1), Turned(n));
  }

  /** x^(16 m) = x^(2 m) + x^m for every power of two m: squaring is linear. */
  lemma {:induction false} Squared(n: nat, m: nat, k: nat)
    requires m == Pow2(k)
    ensures Out(n + 16 * m) == (Out(n + 2 * m) != Out(n + m))
    decreases k
  {
    if k == 0 {
      Recurrence(n + 1);
    } else {
      var h := Pow2(k - 1);
      Squared(n + 16 * h, h, k - 1);
      Squared(n + 2 * h, h, k - 1);
      Squared(n + h, h, k - 1);
    }
  }

  /** The sequence 2^k further on. */
  predicate OutLater(n: nat, k: nat) {
    Out(n + Pow2(k))
  }

  lemma PowersLater(k: nat, m: nat)
    requires m == Pow2(k)
    ensures Pow2(k + 1) == 2 * m && Pow2(k + 4) == 16 * m
  {
    assert Pow2(k + 2) == 4 * m;
  }

  lemma SquaredLater(n: nat, k: nat)
    ensures OutLater(n, k + 4) == (OutLater(n, k + 1) != OutLater(n, k))
  {
    var m := Pow2(k);
    Squared(n, m, k);
    PowersLater(k, m);
  }

  /** x^256 = x^4 + x, and so on */
  lemma EightLater(n: nat, k: nat)
    ensures OutLater(n, k + 8) == (OutLater(n, k + 2) != OutLater(n, k))
  {
    SquaredLater(n, k + 4);
    SquaredLater(n, k + 1);
    SquaredLater(n, k);
  }

  /** x^(2^15) = x */
  lemma OutRepeats(n: nat, k: nat)
    ensures OutLater(n, k + 15) == OutLater(n, k)
  {
    SquaredLater(n, k + 11);
    SquaredLater(n, k + 8);
    SquaredLater(n, k + 7);
    EightLater(n, k + 1);
    SquaredLater(n, k + 3);
    SquaredLater(n, k);
  }

  lemma OutAgain(n: nat)
    ensures Out(n + 32768) == Out(n + 1)
  {
    OutRepeats(n, 0);
    FifteenthPower();
  }

  lemma FifteenthPower()
    ensures Pow2(15) == 32768 && Pow2(0) == 1
  {
    assert Pow2(4) == 16 && Pow2(8) == 256 && Pow2(12) == 4096;
  }

  // ----- registers are told apart by what comes out of them

  lemma {:induction false} Silent(r: Word, n: nat)
    requires r < Pow2(n) && forall k :: 0 <= k < n ==> Iterate(Shift, r, k) % 2 == 0
    ensures r == 0
    decreases n
  {
    if n > 0 {
      var half: Word := r / 2;
      assert Iterate(Shift, r, 0) % 2 == 0;
      forall k | 0 <= k < n - 1
        ensures Iterate(Shift, half, k) % 2 == 0
      {
        IterateFirst(Shift, r, k);
        assert Iterate(Shift, r, k + 1) % 2 == 0;
      }
      Silent(half, n - 1);
    }
  }

  lemma SameOutput(r: Word, s: Word)
    requires forall k :: 0 <= k < 16 ==> Iterate(Shift, r, k) % 2 == Iterate(Shift, s, k) % 2
    ensures r == s
  {
    forall k | 0 <= k < 16
      ensures Iterate(Shift, Xor16(r, s), k) % 2 == 0
    {
      ShiftsLinear(r, s, k);
      XorHalves(Iterate(Shift, r, k), Iterate(Shift, s, k));
    }
    PowersOfTwo();
    Silent(Xor16(r, s), 16);
    XorIsZero(r, s);
  }

  /** So the register comes back after ORDER shifts. */
  lemma FullTurn()
    ensures Turned(ORDER) == 0xC000
  {
    var r, s := Turned(32768), Turned(1);
    forall k | 0 <= k < 16
      ensures Iterate(Shift, r, k) % 2 == Iterate(Shift, s, k) % 2
    {
      ShiftsAdd(0xC000, 32768, k);
      ShiftsAdd(0xC000, 1, k);
      OutAgain(k);
    }
    SameOutput(r, s);
    ShiftInjective(Turned(ORDER), 0xC000);
  }

  // ----- and at no other time

  /** n shifts bring the register back. */
  predicate Period(n: nat) {
    Turned(n) == 0xC000
  }

  lemma PeriodsDiffer(m: nat, n: nat)
    requires m <= n && Period(m)
    ensures Period(n) <==> Period(n - m)
  {
    var d := n - m;
    ShiftsAdd(0xC000, m, d);
    assert Turned(n) == Turned(d);
  }

  lemma {:induction false} PeriodsMultiply(p: nat, k: nat)
    requires Period(p)
    ensures Period(p * k)
    decreases k
  {
    if k > 0 {
      PeriodsMultiply(p, k - 1);
      assert p * k == p * (k - 1) + p;
      PeriodsDiffer(p, p * k);
    }
  }

  /** Two periods have a period that divides both. */
  lemma {:induction false} CommonPeriod(m: nat, n: nat) returns (g: nat, a: nat, b: nat)
    requires m > 0 && n > 0 && Period(m) && Period(n)
    ensures g > 0 && Period(g) && m == g * a && n == g * b
    decreases m + n
  {
    if m == n {
      g, a, b := m, 1, 1;
    } else if m < n {
      PeriodsDiffer(m, n);
      var c;
      g, a, c := CommonPeriod(m, n - m);
      b := a + c;
      assert g * (a + c) == g * a + g * c;
    } else {
      PeriodsDiffer(n, m);
      var c;
      g, c, b := CommonPeriod(m - n, n);
      a := b + c;
      assert g * (b + c) == g * b + g * c;
    }
  }

  lemma FirstOut(n: nat)
    requires n < 30
    ensures Out(n) == (n == 14 || n == 28 || n == 29)
  {
    FirstTurns();
    FifteenTurns();
    if n > 15 {
      Recurrence(n - 15);
    }
  }

  /** A few powers of x, reduced. */
  lemma PowersOfX(n: nat)
    ensures Out(n + 32) == (Out(n + 4) != Out(n + 2))
    ensures Out(n + 64) == (Out(n + 8) != Out(n + 4))
    ensures Out(n + 256) == (Out(n + 4) != Out(n + 1))
    ensures Out(n + 512) == (Out(n + 8) != Out(n + 2))
  {
    Squared(n, 1, 0);
    Squared(n, 2, 1);
    Squared(n, 4, 2);
    Squared(n, 16, 4);
    Squared(n, 32, 5);
  }

  lemma HigherPowersOfX(n: nat)
    ensures Out(n + 1024) == (Out(n + 4) != (Out(n + 2) != Out(n + 1)))
    ensures Out(n + 4096) == ((Out(n + 8) != Out(n + 4)) != (Out(n + 2) != Out(n + 1)))
  {
    PowersOfX(n);
    Squared(n, 1, 0);
    Squared(n, 8, 3);
    Squared(n, 64, 6);
    Squared(n, 256, 8);
  }

  lemma OutPeriodic(p: nat, n: nat)
    requires Period(p)
    ensures Out(p + n) == Out(n)
  {
    ShiftsAdd(0xC000, p, n);
  }

  // In what follows `o` is zero: it keeps the verifier from shifting the register that far.

  lemma SomeOut(o: nat)
    requires o == 0
    ensures Out(o + 42) && !Out(o + 40) && !Out(o + 39) && !Out(o + 35)
  {
    PowersOfX(o + 10);
    PowersOfX(o + 8);
    PowersOfX(o + 7);
    PowersOfX(o + 3);
    FirstOut(o + 14);
    FirstOut(o + 12);
    FirstOut(o + 10);
    FirstOut(o + 11);
    FirstOut(o + 9);
    FirstOut(o + 7);
    FirstOut(o + 5);
  }

  lemma Not217(o: nat, p: nat)
    requires o == 0 && p == 217
    ensures !Period(p)
  {
    SomeOut(o);
    PowersOfX(o + 3);
    FirstOut(o + 7);
    FirstOut(o + 4);
    if Period(p) {
      OutPeriodic(p, o + 42);
    }
  }

  lemma Not1057(o: nat, p: nat)
    requires o == 0 && p == 1057
    ensures !Period(p)
  {
    SomeOut(o);
    HigherPowersOfX(o + 38);
    FirstOut(o + 5);
    if Period(p) {
      OutPeriodic(p, o + 5);
    }
  }

  lemma MoreOut(o: nat)
    requires o == 0
    ensures Out(o + 91) == Out(o + 31) && Out(o + 87) == Out(o + 31)
    ensures !Out(o + 81) && !Out(o + 79) && Out(o + 84) && !Out(o + 78)
  {
    PowersOfX(o + 27);
    PowersOfX(o + 23);
    PowersOfX(o + 17);
    PowersOfX(o + 15);
    PowersOfX(o + 20);
    PowersOfX(o + 14);
    SomeOut(o);
    FirstOut(o + 27);
    FirstOut(o + 25);
    FirstOut(o + 21);
    FirstOut(o + 23);
    FirstOut(o + 19);
    FirstOut(o + 28);
    FirstOut(o + 24);
    FirstOut(o + 22);
    FirstOut(o + 18);
  }

  lemma Not4681(o: nat, p: nat)
    requires o == 0 && p == 4681
    ensures !Period(p)
  {
    HigherPowersOfX(o + 587);
    PowersOfX(o + 83);
    PowersOfX(o + 79);
    PowersOfX(o + 77);
    PowersOfX(o + 76);
    MoreOut(o);
    FirstOut(o + 2);
    if Period(p) {
      OutPeriodic(p, o + 2);
    }
  }

  // ----- 2^15 - 1 = 7 * 31 * 151

  lemma ResidueProduct(i: nat, j: nat)
    requires i < 7 && j < 7 && (i * j) % 7 == 0
    ensures i == 0 || j == 0
  {
    if i == 1 {
    } else if i == 2 {
    } else if i == 3 {
    } else if i == 4 {
    } else if i == 5 {
    } else if i == 6 {
    }
  }

  lemma ProductResidue(g: nat, k: nat)
    ensures (g * k) % 7 == ((g % 7) * (k % 7)) % 7
  {
    var a, i, b, j := g / 7, g % 7, k / 7, k % 7;
    var c := 7 * a * b + a * j + b * i;
    assert g * k == (7 * a + i) * (7 * b + j) == 7 * c + i * j;
    assert i * j == ((i * j) / 7) * 7 + (i * j) % 7;
    ModUnique(g * k, 7, c + (i * j) / 7, (i * j) % 7);
  }

  lemma SevenIsPrime(g: nat, k: nat)
    requires (g * k) % 7 == 0
    ensures g % 7 == 0 || k % 7 == 0
  {
    ProductResidue(g, k);
    ResidueProduct(g % 7, k % 7);
  }

  lemma OddProduct(h: nat, k: nat)
    requires (h * k) % 2 == 1
    ensures k % 2 == 1
  {
    EvenProduct(h, k / 2);
  }

  lemma EvenProduct(h: nat, j: nat)
    ensures (h * (2 * j)) % 2 == 0
  {
    assert h * (2 * j) == 2 * (h * j);
  }

  lemma NoDivisorBelow25(h: nat, k: nat)
    requires 1 < k < 25 && k % 2 == 1
    ensures h * k != 4681
  {
    assert k == 3 || k == 5 || k == 7 || k == 9 || k == 11 || k == 13
        || k == 15 || k == 17 || k == 19 || k == 21 || k == 23;
  }

  lemma DivisorBelow47(h: nat, k: nat)
    requires 25 <= k < 47 && k % 2 == 1
    ensures h * k == 4681 ==> k == 31
  {
    assert k == 25 || k == 27 || k == 29 || k == 31 || k == 33 || k == 35
        || k == 37 || k == 39 || k == 41 || k == 43 || k == 45;
  }

  lemma NoDivisorBelow69(h: nat, k: nat)
    requires 47 <= k < 69 && k % 2 == 1
    ensures h * k != 4681
  {
    assert k == 47 || k == 49 || k == 51 || k == 53 || k == 55 || k == 57
        || k == 59 || k == 61 || k == 63 || k == 65 || k == 67;
  }

  /** The only divisor of 31 * 151 up to its root. */
  lemma SmallDivisor(h: nat, k: nat)
    requires h * k == 4681 && 1 < k < 69
    ensures k == 31 && h == 151
  {
    OddProduct(h, k);
    if k < 25 {
      NoDivisorBelow25(h, k);
    } else if k < 47 {
      DivisorBelow47(h, k);
    } else {
      NoDivisorBelow69(h, k);
    }
  }

  lemma Larger(g: nat, k: nat, b: nat)
    requires g >= b && k >= b
    ensures g * k >= b * b
  {
    assert (g - b) * (k - b) == g * k - b * k - b * g + b * b;
    assert b * k >= b * b && b * g >= b * b;
    assert (g - b) * (k - b) >= 0;
  }

  lemma TwoDivisors(h: nat, k: nat)
    requires h * k == 4681
    ensures h == 1 || k == 1 || (h == 151 && k == 31) || (h == 31 && k == 151)
  {
    if h >= 69 && k >= 69 {
      Larger(h, k, 69);
    } else if 1 < k < 69 {
      SmallDivisor(h, k);
    } else if 1 < h < 69 {
      SmallDivisor(k, h);
    }
  }

  /** A proper divisor of ORDER divides one of its three largest. */
  lemma ProperDivisor(g: nat, k: nat) returns (m: nat)
    requires g * k == ORDER && g < ORDER
    ensures g * m == 4681 || g * m == 1057 || g * m == 217
  {
    SevenIsPrime(g, k);
    if k % 7 == 0 {
      m := k / 7;
      assert g * k == 7 * (g * m);
    } else {
      var h := g / 7;
      assert g * k == 7 * (h * k);
      TwoDivisors(h, k);
      m := if k == 31 then 1 else if k == 151 then 1 else k / 31;
    }
  }

  lemma NoProperPeriod(g: nat, k: nat)
    requires g * k == ORDER && g < ORDER
    ensures !Period(g)
  {
    var m := ProperDivisor(g, k);
    if Period(g) {
      PeriodsMultiply(g, m);
      if g * m == 4681 {
        Not4681(0, g * m);
      } else if g * m == 1057 {
        Not1057(0, g * m);
      } else {
        Not217(0, g * m);
      }
    }
  }

  /** The register comes back exactly after every multiple of ORDER shifts. */
  lemma PeriodExactly(n: nat)
    ensures Period(n) <==> n % ORDER == 0
  {
    var q, r := n / ORDER, n % ORDER;
    FullTurn();
    PeriodsMultiply(ORDER, q);
    PeriodsDiffer(ORDER * q, n);
    if r > 0 && Period(r) {
      var g, a, b := CommonPeriod(ORDER, r);
      MultipleIsFar(b, g);
      NoProperPeriod(g, a);
    }
  }

  // ----- a single bit

  lemma {:induction false} FixedStays(r: Word, n: nat)
    requires Shift(r) == r
    ensures Iterate(Shift, r, n) == r
    decreases n
  {
    if n > 0 {
      FixedStays(r, n - 1);
    }
  }

  lemma EvenFixedPoint(r: Word)
    requires Shift(r) == r && r % 2 == 0
    ensures r == 0
  {
    forall k | 0 <= k < 16
      ensures Iterate(Shift, r, k) % 2 == 0
    {
      FixedStays(r, k);
    }
    PowersOfTwo();
    Silent(r, 16);
  }

  lemma ZeroIsEven(zero: Word)
    requires zero == 0
    ensures !OddWord(zero)
  {
    ZeroBits(16);
    OddZeros(16);
  }

  lemma OneIsOdd(one: Word)
    requires one == 1
    ensures OddWord(one)
  {
    HalfParity(one);
    ZeroIsEven(one / 2);
  }

  lemma ShiftOne(one: Word, p: Word)
    requires one == 1 && POLYNOMIAL == 2 * p + 1
    ensures Xor16(one, Shift(one)) == 2 * p
  {
    XorCommutes(0, POLYNOMIAL);
    XorZero(POLYNOMIAL);
    XorWhole(one, POLYNOMIAL);
    XorCommutes(0, p);
    XorZero(p);
  }

  lemma TurnedIsEven(r: Word)
    requires r == 0xC000
    ensures !OddWord(r)
  {
    var one: Word := 1;
    OneIsOdd(one);
    ShiftKeepsParity(one);
    ShiftOne(one, 0x5000);
    OddWordXor(one, Shift(one));
    FifteenTurns();
    ShiftsKeepParity(r, 15);
  }

  /** Sums that are the same stay the same with a term moved across. */
  lemma XorCross(p: nat, q: nat, r: nat, s: nat)
    requires Words.Xor(p, q) == Words.Xor(r, s)
    ensures Words.Xor(s, q) == Words.Xor(r, p)
  {
    var a, b := Words.Xor(p, r), Words.Xor(q, s);
    XorExchange(p, q, r, s);
    XorSelf(Words.Xor(p, q));
    XorIsZero(a, b);
    XorCommutes(q, s);
    XorCommutes(p, r);
  }

  lemma FixedSum(p: Word, q: Word)
    requires Xor16(p, Shift(p)) == Xor16(Shift(q), q)
    ensures Shift(Xor16(p, q)) == Xor16(p, q)
  {
    ShiftLinear(p, q);
    XorCommutes(Shift(q), q);
    XorCross(p, Shift(p), q, Shift(q));
    XorCommutes(Shift(q), Shift(p));
    XorCommutes(q, p);
  }

  lemma SameChange(one: Word, c: Word)
    requires one == 1 && c == 0xC000
    ensures Xor16(one, Shift(one)) == Xor16(Shift(c), c)
  {
    FirstTurns();
    SumOfTurns();
    ShiftOne(one, 0x5000);
    assert Shift(c) == 0x6000;
  }

  /** The step changes 1 and 0xC000 alike, and so leaves their sum as it is. */
  lemma TheFixedPoint(one: Word, c: Word)
    requires one == 1 && c == 0xC000
    ensures Shift(Xor16(one, c)) == Xor16(one, c)
    ensures Xor16(one, c) % 2 == 1 && OddWord(Xor16(one, c))
  {
    SameChange(one, c);
    FixedSum(one, c);
    XorHalves(one, c);
    TurnedIsEven(c);
    OneIsOdd(one);
    OddWordXor(one, c);
  }

  /** The one register the step leaves as it is has three bits set. */
  lemma OddFixedPoint(r: Word)
    requires Shift(r) == r && r != 0
    ensures OddWord(r)
  {
    if r % 2 == 0 {
      EvenFixedPoint(r);
    } else {
      var f := Xor16(1, 0xC000);
      TheFixedPoint(1, 0xC000);
      ShiftLinear(r, f);
      XorHalves(r, f);
      EvenFixedPoint(Xor16(r, f));
      XorIsZero(r, f);
    }
  }

  /** How a bit changes while it is shifted, as another register. */
  lemma BitDifference(one: Word, n: nat)
    requires one == 1
    ensures var t := Iterate(Shift, one, n); Xor16(t, Shift(t)) == Iterate(Shift, 0xA000, n)
  {
    ShiftOne(one, 0x5000);
    IterateFirst(Shift, one, n);
    ShiftsLinear(one, Shift(one), n);
  }

  lemma PeriodElsewhere(r: Word, m: nat, n: nat)
    requires Turned(m) == r
    ensures Iterate(Shift, r, n) == r <==> Period(n)
  {
    ShiftsAdd(0xC000, m, n);
    ShiftsAdd(0xC000, n, m);
    if Iterate(Shift, r, n) == r {
      ShiftsInjective(Turned(n), 0xC000, m);
    }
  }

  /** Registers of odd parity that change alike are the same. */
  lemma SameDifference(r: Word, t: Word)
    requires OddWord(r) && OddWord(t)
    requires Xor16(t, Shift(t)) == Xor16(r, Shift(r))
    ensures t == r
  {
    var d := Xor16(t, r);
    ShiftLinear(t, r);
    XorExchange(t, Shift(t), r, Shift(r));
    XorSelf(Xor16(t, Shift(t)));
    XorIsZero(d, Shift(d));
    OddWordXor(t, r);
    if d != 0 {
      OddFixedPoint(d);
    }
    XorIsZero(t, r);
  }

  lemma TurnedBitIsOdd(one: Word, n: nat)
    requires one == 1
    ensures OddWord(Iterate(Shift, one, n))
  {
    OneIsOdd(one);
    ShiftsKeepParity(one, n);
  }

  /** A single bit comes back to where it was exactly after every multiple of ORDER shifts. */
  lemma BitOrder(one: Word, n: nat)
    requires one == 1
    ensures Iterate(Shift, one, n) == one <==> n % ORDER == 0
  {
    var t := Iterate(Shift, one, n);
    BitDifference(one, n);
    ShiftOne(one, 0x5000);
    FifteenTurns();
    PeriodElsewhere(0xA000, 15, n);
    PeriodExactly(n);
    if Period(n) {
      OneIsOdd(one);
      TurnedBitIsOdd(one, n);
      SameDifference(one, t);
    }
  }

  lemma BitsMeetLater(one: Word, p: nat, q: nat, d: nat)
    requires one == 1 && q == p + d
    ensures Iterate(Shift, one, p) == Iterate(Shift, one, q) <==> d % ORDER == 0
  {
    var r := Iterate(Shift, one, d);
    ShiftsAdd(one, d, p);
    if Iterate(Shift, one, p) == Iterate(Shift, r, p) {
      ShiftsInjective(one, r, p);
    }
    BitOrder(one, d);
  }

  lemma SameRemainder(same: bool, p: nat, q: nat, d: nat)
    requires q == p + d && (same <==> d % ORDER == 0)
    ensures same <==> p % ORDER == q % ORDER
  {
    ModSame(p, q, ORDER);
  }

  lemma BitsMeetInOrder(one: Word, p: nat, q: nat, d: nat)
    requires one == 1 && q == p + d
    ensures Iterate(Shift, one, p) == Iterate(Shift, one, q) <==> p % ORDER == q % ORDER
  {
    BitsMeetLater(one, p, q, d);
    SameRemainder(Iterate(Shift, one, p) == Iterate(Shift, one, q), p, q, d);
  }

  /** Two single bits shifted `p` and `q` times leave the same register exactly if the two
      numbers leave the same remainder. */
  lemma BitsMeet(one: Word, p: nat, q: nat)
    requires one == 1
    ensures Iterate(Shift, one, p) == Iterate(Shift, one, q) <==> p % ORDER == q % ORDER
  {
    if p <= q {
      BitsMeetInOrder(one, p, q, q - p);
    } else {
      BitsMeetInOrder(one, q, p, p - q);
    }
  }
}
