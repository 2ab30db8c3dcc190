/** Flipped bits under both implementations of the CRC. A flipped top bit is no single bit to a
    receiver whose `char` is signed: its sign extension inverts eight more. To the register that
    is the same as a single bit flipped 10426 steps earlier, so that there is one law for all
    pairs of flips, and one number to remember. */
module CrcFlips {
  import opened Words
  import opened ByteStrings
  import opened BitStrings
  import opened Folds
  import opened Modulo
  import opened Crc16
  import opened CrcDivision
  import opened CrcDetection
  import opened CrcSigned
  import opened CrcOrder

  // ----- a sign bit is a bit that was flipped earlier

const LEAD: nat := 10426

  /** More powers of x, reduced. */
  lemma MorePowersOfX(n: nat)
    ensures Out(n + 128) == ((Out(n + 8) != Out(n + 2)) != Out(n + 1))
    ensures Out(n + 2048) == ((Out(n + 8) != Out(n + 4)) != Out(n + 2))
    ensures Out(n + 8192) == ((Out(n + 8) != Out(n + 4)) != Out(n + 1))
  {
    PowersOfX(n);
    HigherPowersOfX(n);
    Squared(n, 1, 0);
    Squared(n, 8, 3);
    Squared(n, 128, 7);
    Squared(n, 512, 9);
  }

  // What comes out, in a few places, each found from the ones before.

  lemma {:induction false} OutBelow50(c: nat)
    requires c < 50
    ensures Out(c) == (c == 14 || c == 28 || c == 29 || c == 42 || c == 44)
    decreases c
  {
    if c < 30 {
      FirstOut(c);
    } else {
      Recurrence(c - 15);
      OutBelow50(c - 14);
      OutBelow50(c - 15);
    }
  }

  lemma OutFrom70(c: nat)
    requires 70 <= c < 106
    ensures Out(c) == (c == 70 || c == 74 || c == 84 || c == 85 || c == 88 || c == 89 || c == 98 || c == 100
                 || c == 102 || c == 104)
  {
    PowersOfX(c - 64);
    OutBelow50(c - 56);
    OutBelow50(c - 60);
  }

  lemma OutFrom197(c: nat)
    requires 197 <= c < 226
    ensures Out(c) == (c == 197 || c == 200 || c == 201 || c == 204 || c == 205 || c == 208 || c == 209 || c == 210
                 || c == 212 || c == 214 || c == 216 || c == 218 || c == 220 || c == 222 || c == 225)
  {
    MorePowersOfX(c - 128);
    OutFrom70(c - 120);
    OutFrom70(c - 126);
    OutFrom70(c - 127);
  }

  lemma OutFrom2243(c: nat)
    requires 2243 <= c < 2266
    ensures Out(c) == (c == 2243 || c == 2246 || c == 2247 || c == 2251 || c == 2253 || c == 2254 || c == 2255
                 || c == 2256 || c == 2258 || c == 2260 || c == 2262 || c == 2265)
  {
    MorePowersOfX(c - 2048);
    OutFrom197(c - 2040);
    OutFrom197(c - 2044);
    OutFrom197(c - 2046);
  }

  lemma OutFrom10434(c: nat)
    requires 10434 <= c < 10450
    ensures Out(c) == (10440 <= c <= 10448)
  {
    MorePowersOfX(c - 8192);
    OutFrom2243(c - 8184);
    OutFrom2243(c - 8188);
    OutFrom2243(c - 8191);
  }

  /** The sum of `c` registers one shift apart. */
  function Turns(n: nat, c: nat): Word
    decreases c
  {
    if c == 0 then 0 else Xor16(Turns(n, c - 1), Turned(n + c - 1))
  }

  lemma {:induction false} TurnsShifted(n: nat, c: nat, k: nat)
    ensures Iterate(Shift, Turns(n, c), k) == Turns(n + k, c)
    decreases c
  {
    if c == 0 {
      ZeroShifts(k);
    } else {
      TurnsShifted(n, c - 1, k);
      ShiftsLinear(Turns(n, c - 1), Turned(n + c - 1), k);
      ShiftsAdd(0xC000, n + c - 1, k);
    }
  }

  /** Early on, what comes out of such a sum shows whether the first one to come out is in it. */
  lemma {:induction false} TurnsOut(n: nat, c: nat)
    requires n + c <= 28
    ensures (Turns(n, c) % 2 == 1) == (n <= 14 < n + c)
    decreases c
  {
    if c > 0 {
      TurnsOut(n, c - 1);
      XorHalves(Turns(n, c - 1), Turned(n + c - 1));
      FirstOut(n + c - 1);
    }
  }

  lemma FourteenthPower(n: nat)
    requires n == 14
    ensures Pow2(n) == 0x4000
  {
    assert Pow2(14) == 0x4000;
  }

  lemma {:induction false} EarlyTurn(c: nat, n: nat)
    requires c + n == 14
    ensures Turned(c) == 3 * Pow2(n)
    decreases c
  {
    if c == 0 {
      FourteenthPower(n);
    } else {
      EarlyTurn(c - 1, n + 1);
      TurnHalves(c - 1, 3 * Pow2(n));
    }
  }

  lemma {:induction false} ShlIsTimes(h: nat, n: nat)
    ensures Shl(h, n) == h * Pow2(n)
    decreases n
  {
    if n > 0 {
      ShlIsTimes(h, n - 1);
    }
  }

  lemma {:induction false} Pow2Grows(m: nat, n: nat)
    requires m <= n
    ensures Pow2(m) <= Pow2(n)
    decreases n
  {
    if m < n {
      Pow2Grows(m, n - 1);
    }
  }

  lemma TwiceAndThrice(g: nat, n: nat)
    requires g == Pow2(n)
    ensures Words.Xor(2 * g, 3 * g) == g
  {
    ShlIsTimes(2, n);
    ShlIsTimes(3, n);
    ShlIsTimes(1, n);
    XorShl(2, 3, n);
    assert Words.Xor(2, 3) == 1;
  }

  lemma TopBitApart(g: nat, top: nat)
    requires g < top == 0x8000
    ensures Words.Xor(g, top) == g + top
  {
    assert Pow2(15) == 0x8000;
    ShlIsTimes(1, 15);
    XorHigh(g, 1, 15);
  }

  /** The top bit apart, g is what 2 g and 3 g differ by. */
  lemma Telescope(g: nat, n: nat, top: nat)
    requires g == Pow2(n) && n < 14 && top == 0x8000
    ensures Words.Xor(top + 2 * g, 3 * g) == top + g
  {
    var low, high := 2 * g, 3 * g;
    Pow2Grows(n + 1, 14);
    FourteenthPower(14);
    TopBitApart(low, top);
    TopBitApart(g, top);
    TwiceAndThrice(g, n);
    XorAssociates(low, top, high);
    XorCommutes(top, high);
    XorAssociates(low, high, top);
  }

  lemma TurnsOneMore(o: nat, c: nat, g: nat, n: nat)
    requires o == 0 && g == Pow2(n) && n < 14
    requires Turns(o, c) == 0x8000 + 2 * g && Turned(o + c) == 3 * g
    ensures Turns(o, c + 1) == 0x8000 + g
  {
    Telescope(g, n, 0x8000);
  }

  lemma OneTurn(o: nat, r: Word)
    requires o == 0 && r == Turned(o)
    ensures Turns(o, o + 1) == r == 0xC000
  {
    XorCommutes(0, r);
    XorZero(r);
  }

  /** x^(c+1) + 1 = (x + 1)(x^c + ... + 1) */
  lemma {:induction false} TurnsFromStart(o: nat, c: nat, n: nat)
    requires o == 0 && c + n == 14
    ensures Turns(o, c + 1) == 0x8000 + Pow2(n)
    decreases c
  {
    if c == 0 {
      OneTurn(o, Turned(o));
      FourteenthPower(n);
    } else {
      EarlyTurn(c, n);
      TurnsFromStart(o, c - 1, n + 1);
      TurnsOneMore(o, c, Pow2(n), n);
    }
  }

  lemma LeadOutput(o: nat, c: nat, n: nat, k: nat)
    requires o == 0 && c == 9 && n == LEAD + 8 && k < 16
    ensures Iterate(Shift, Turned(n), k) % 2 == Iterate(Shift, Turns(o, c), k) % 2
  {
    ShiftsAdd(0xC000, n, k);
    OutFrom10434(n + k);
    TurnsShifted(o, c, k);
    TurnsOut(o + k, c);
  }

  /** x^10434 = x^8 + ... + 1 */
  lemma LeadTurns(o: nat, c: nat, n: nat)
    requires o == 0 && c == 9 && n == LEAD + 8
    ensures Turned(n) == 0x8040
  {
    TurnsFromStart(o, c - 1, 6);
    assert Pow2(6) == 64;
    forall k | 0 <= k < 16
      ensures Iterate(Shift, Turned(n), k) % 2 == Iterate(Shift, Turns(o, c), k) % 2
    {
      LeadOutput(o, c, n, k);
    }
    SameOutput(Turned(n), Turns(o, c));
  }

  /** A run of ones and the run one shorter differ in the top bit. */
  lemma OnesXor(a: nat, b: nat, n: nat, top: nat)
    requires top == Pow2(n) == b + 1 && a == b + top
    ensures Words.Xor(a, b) == top
  {
    XorHigh(b, 1, n);
    ShlIsTimes(1, n);
    XorCommutes(b, top);
    XorTwice(top, b);
  }

  /** 0xFF80 ^ 0x7FC0 */
  lemma SignWordDifference(y: Word)
    requires y == 0xFF80
    ensures Shift(y) == 0x7FC0 && Xor16(y, Shift(y)) == 0x8040
  {
    assert Pow2(9) == 0x200 && Pow2(8) == 0x100 && Pow2(6) == 0x40;
    OnesXor(0x1FF, 0xFF, 8, 0x100);
    XorWhole(0x3FE, 0x1FF);
    ShlIsTimes(0x3FE, 6);
    ShlIsTimes(0x1FF, 6);
    ShlIsTimes(0x201, 6);
    XorShl(0x3FE, 0x1FF, 6);
  }

  lemma SignWordIsOdd(y: Word, b: Byte)
    requires b == 0x80 && y == Widen(true, b)
    ensures OddWord(y)
  {
    WidenKeepsParity(true, b);
    ByteIs80(b);
    var s := [false, false, false, false, false, false, false, true];
    assert s == Zeros(7) + [true];
    OddAppend(Zeros(7), [true]);
    OddZeros(7);
  }

  /** What a flipped top bit exclusive-ors into the register of a signed-`char` end is what a
      single bit becomes in LEAD - 7 shifts. */
  lemma SignWordIsShiftedBit(one: Word, b: Byte, n: nat)
    requires one == 1 && b == 0x80 && n + 7 == LEAD
    ensures Iterate(Shift, one, n) == Widen(true, b)
  {
    var y: Word := Widen(true, b);
    var t := Iterate(Shift, one, n);
    BitDifference(one, n);
    FifteenTurns();
    ShiftsAdd(0xC000, 15, n);
    LeadTurns(0, 9, 15 + n);
    SignWordDifference(y);
    SignWordIsOdd(y, b);
    TurnedBitIsOdd(one, n);
    SameDifference(y, t);
  }

  // ----- one flipped bit

  lemma Pow2IsByte(m: nat)
    requires m < 8
    ensures Pow2(m) <= 0x80 && (Pow2(m) == 0x80 <==> m == 7)
  {
    Pow2Grows(m, 7);
    assert Pow2(7) == 0x80;
    if m < 7 {
      Pow2Grows(m + 1, 7);
    }
  }

  /** The error of a single flip: bit `m` of byte `k`. */
  function Flip(n: nat, k: nat, m: nat): (e: Bytes)
    requires k < n && m < 8
    ensures |e| == n && forall i :: 0 <= i < n ==> e[i] == if i == k then Pow2(m) else 0
  {
    Pow2IsByte(m);
    seq(n, i requires 0 <= i < n => if i == k then Pow2(m) else 0)
  }

  lemma {:induction false} OneLowBit(m: nat, n: nat, i: nat)
    requires i < n
    ensures LowBits(Pow2(m), n)[i] == (i == m)
    decreases n
  {
    if i == 0 {
      if m > 0 {
        Pow2Halves(m);
      }
    } else if m == 0 {
      ZeroBits(n - 1);
    } else {
      Pow2Halves(m);
      OneLowBit(m - 1, n - 1, i - 1);
    }
  }

  lemma FlipBit(n: nat, k: nat, m: nat, t: nat)
    requires k < n && m < 8 && t < 8 * n
    ensures MessageBits(Flip(n, k, m))[t] == (t == 8 * k + m)
  {
    var e, i, b := Flip(n, k, m), t / 8, t % 8;
    MessageBitAt(e, i, b, t);
    if i == k {
      OneLowBit(m, BYTE_WIDTH, b);
    } else {
      ZeroBits(BYTE_WIDTH);
    }
  }

  lemma ZeroWord(r: Word)
    ensures Absorb(r, 0) == Iterate(Shift, r, TURNS)
  {
    XorZero(r);
  }

  lemma FirstZeroWord(r: Word, n: nat)
    requires n > 0
    ensures AbsorbAll(r, NoWords(n)) == AbsorbAll(Iterate(Shift, r, TURNS), NoWords(n - 1))
  {
    assert NoWords(n) == [0] + NoWords(n - 1);
    FoldFirst(Absorb, r, 0, NoWords(n - 1));
    ZeroWord(r);
  }

  lemma TurnsFirst(r: Word, t: nat, more: nat)
    requires more == TURNS + t
    ensures Iterate(Shift, Iterate(Shift, r, TURNS), t) == Iterate(Shift, r, more)
  {
    ShiftsAdd(r, TURNS, t);
  }

  lemma OneZeroWord(r: Word, n: nat, t: nat) returns (turned: Word)
    requires n > 0 && t == 8 * n
    ensures AbsorbAll(r, NoWords(n)) == AbsorbAll(turned, NoWords(n - 1))
    ensures Iterate(Shift, turned, t - 8) == Iterate(Shift, r, t)
  {
    turned := Iterate(Shift, r, TURNS);
    FirstZeroWord(r, n);
    TurnsFirst(r, t - 8, t);
  }

  lemma {:induction false} ZeroWordsShift(r: Word, n: nat, t: nat)
    requires t == 8 * n
    ensures AbsorbAll(r, NoWords(n)) == Iterate(Shift, r, t)
    decreases n
  {
    if n > 0 {
      var turned := OneZeroWord(r, n, t);
      ZeroWordsShift(turned, n - 1, t - 8);
    }
  }

  lemma ClearTakesIn(zero: Word, w: Word)
    requires zero == 0
    ensures Absorb(zero, w) == Iterate(Shift, w, TURNS)
  {
    XorCommutes(zero, w);
    XorZero(w);
  }

  lemma OnlyOneWord(w: Word, k: nat, n: nat)
    ensures AbsorbAll(0, NoWords(k) + ([w] + NoWords(n))) == AbsorbAll(Absorb(0, w), NoWords(n))
  {
    FoldAppend(Absorb, 0, NoWords(k), [w] + NoWords(n));
    ZeroAbsorbsZeros(k);
    FoldFirst(Absorb, 0, w, NoWords(n));
  }

  lemma ThenZeros(r: Word, w: Word, t: nat, n: nat)
    requires r == Iterate(Shift, w, t)
    ensures AbsorbAll(r, NoWords(n)) == Iterate(Shift, w, t + 8 * n)
  {
    ZeroWordsShift(r, n, 8 * n);
    ShiftsAdd(w, t, 8 * n);
  }

  lemma OneWord(w: Word, k: nat, n: nat)
    ensures AbsorbAll(0, NoWords(k) + ([w] + NoWords(n))) == Iterate(Shift, w, TURNS + 8 * n)
  {
    OnlyOneWord(w, k, n);
    ClearTakesIn(0, w);
    ThenZeros(Absorb(0, w), w, TURNS, n);
  }

  lemma FlipIsOneWord(x: bool, n: nat, k: nat, m: nat, w: Word)
    requires k < n && m < 8 && Pow2(m) < 0x100 && w == Widen(x, Pow2(m))
    ensures AbsorbAll(0, WidenAll(x, Flip(n, k, m))) == Iterate(Shift, w, 8 * (n - k))
  {
    assert WidenAll(x, Flip(n, k, m)) == NoWords(k) + ([w] + NoWords(n - k - 1));
    OneWord(w, k, n - k - 1);
  }

  lemma {:induction false} BitComesDown(one: Word, b: Word, m: nat, n: nat)
    requires one == 1 && b == Pow2(m)
    ensures Iterate(Shift, b, m + n) == Iterate(Shift, one, n)
    decreases m
  {
    if m > 0 {
      Pow2Halves(m);
      IterateFirst(Shift, b, m + n - 1);
      BitComesDown(one, b / 2, m - 1, n);
    }
  }

  /** Bit `i` of a message is the top bit of a byte whose sign is extended. */
  predicate SignBit(x: bool, i: nat) {
    x && i % 8 == 7
  }

  /** For how long a single bit has been shifted to be what this flip leaves after `n` bytes. */
  function Age(x: bool, n: nat, i: nat): nat
    requires i < 8 * n
  {
    8 * n - i + if SignBit(x, i) then LEAD else 0
  }

  lemma FlipRegister(one: Word, x: bool, n: nat, k: nat, m: nat, i: nat)
    requires one == 1 && k < n && m < 8 && i == 8 * k + m
    ensures AbsorbAll(0, WidenAll(x, Flip(n, k, m))) == Iterate(Shift, one, Age(x, n, i))
  {
    Pow2IsByte(m);
    var b: Byte := Pow2(m);
    var w, later := Widen(x, b), 8 * (n - k);
    FlipIsOneWord(x, n, k, m, w);
    if x && m == 7 {
      SignWordIsShiftedBit(one, b, LEAD - 7);
      ShiftsAdd(one, LEAD - 7, later);
    } else {
      BitComesDown(one, w, m, later - m);
    }
  }

  // ----- two

  /** The two messages differ in bits `i` and `j` and nowhere else. */
  predicate DiffersInTwo(m: Bits, n: Bits, i: nat, j: nat) {
    i < j < |m| == |n| && forall k :: 0 <= k < |m| ==> (m[k] != n[k] <==> k == i || k == j)
  }

  lemma DifferenceBits(a: Bytes, b: Bytes, j: nat)
    requires |a| == |b| && j < 8 * |a|
    ensures MessageBits(Zip(Xor8, a, b))[j] == (MessageBits(a)[j] != MessageBits(b)[j])
  {
    ErrorBitAt(a, b, j / 8, j % 8, j);
    MessageBitAt(Zip(Xor8, a, b), j / 8, j % 8, j);
  }

  lemma FlipsErrorBit(n: nat, i: nat, j: nat, f: Bytes, g: Bytes, t: nat)
    requires i < j < 8 * n && t < 8 * n
    requires f == Flip(n, i / 8, i % 8) && g == Flip(n, j / 8, j % 8)
    ensures MessageBits(Zip(Xor8, f, g))[t] == (t == i || t == j)
  {
    DifferenceBits(f, g, t);
    FlipBit(n, i / 8, i % 8, t);
    FlipBit(n, j / 8, j % 8, t);
  }

  /** Two messages with one bit toggled in each of two bytes. */
  predicate TwoToggled(a: Bytes, b: Bytes, k: nat, p: nat, l: nat, q: nat) {
    && k < l < |a| == |b| && p < 8 && q < 8
    && Xor8(a[k], b[k]) == Pow2(p) && Xor8(a[l], b[l]) == Pow2(q)
    && forall t :: 0 <= t < |a| && t != k && t != l ==> a[t] == b[t]
  }

  lemma ToggledBit(a: Bytes, b: Bytes, k: nat, p: nat, l: nat, q: nat, t: nat)
    requires TwoToggled(a, b, k, p, l, q) && t < 8 * |a|
    ensures MessageBits(a)[t] != MessageBits(b)[t] <==> t == 8 * k + p || t == 8 * l + q
  {
    var i, j := t / 8, t % 8;
    ErrorBitAt(a, b, i, j, t);
    if i == k {
      OneLowBit(p, BYTE_WIDTH, j);
    } else if i == l {
      OneLowBit(q, BYTE_WIDTH, j);
    } else {
      XorSelf(a[i]);
      ZeroBits(BYTE_WIDTH);
    }
  }

  lemma ToggledDiffers(a: Bytes, b: Bytes, k: nat, p: nat, l: nat, q: nat)
    requires TwoToggled(a, b, k, p, l, q)
    ensures DiffersInTwo(MessageBits(a), MessageBits(b), 8 * k + p, 8 * l + q)
  {
    forall t | 0 <= t < 8 * |a|
      ensures MessageBits(a)[t] != MessageBits(b)[t] <==> t == 8 * k + p || t == 8 * l + q
    {
      ToggledBit(a, b, k, p, l, q, t);
    }
  }

  /** The error is the sum of the two flips. */
  lemma TwoFlipsError(a: Bytes, b: Bytes, i: nat, j: nat, f: Bytes, g: Bytes)
    requires DiffersInTwo(MessageBits(a), MessageBits(b), i, j)
    requires f == Flip(|a|, i / 8, i % 8) && g == Flip(|a|, j / 8, j % 8)
    ensures Zip(Xor8, a, b) == Zip(Xor8, f, g)
  {
    var d, e := MessageBits(Zip(Xor8, a, b)), MessageBits(Zip(Xor8, f, g));
    forall t | 0 <= t < |d|
      ensures d[t] == e[t]
    {
      DifferenceBits(a, b, t);
      FlipsErrorBit(|a|, i, j, f, g, t);
    }
    MessageBitsInjective(Zip(Xor8, a, b), Zip(Xor8, f, g));
  }

  lemma TwoFlipsMeet(x: bool, n: nat, i: nat, j: nat, f: Bytes, g: Bytes)
    requires i < 8 * n && j < 8 * n
    requires f == Flip(n, i / 8, i % 8) && g == Flip(n, j / 8, j % 8)
    ensures AbsorbAll(0, WidenAll(x, Zip(Xor8, f, g))) == 0 <==> Age(x, n, i) % ORDER == Age(x, n, j) % ORDER
  {
    var r, s := AbsorbAll(0, WidenAll(x, f)), AbsorbAll(0, WidenAll(x, g));
    WidenAllLinear(x, f, g);
    XorSelf(0);
    AbsorbAllLinear(0, 0, WidenAll(x, f), WidenAll(x, g));
    XorIsZero(r, s);
    FlipRegister(1, x, n, i / 8, i % 8, i);
    FlipRegister(1, x, n, j / 8, j % 8, j);
    BitsMeet(1, Age(x, n, i), Age(x, n, j));
  }

  /** The remainder of the distance at which two flips cancel out. */
  function Gap(x: bool, i: nat, j: nat): nat {
    if SignBit(x, i) == SignBit(x, j) then 0
    else if SignBit(x, j) then LEAD
    else ORDER - LEAD
  }

  lemma GapExact(x: bool, n: nat, i: nat, j: nat, d: nat)
    requires i < j < 8 * n && j == i + d
    ensures Age(x, n, i) % ORDER == Age(x, n, j) % ORDER <==> d % ORDER == Gap(x, i, j)
  {
    var u := 8 * n - j;
    ModUnique(LEAD, ORDER, 0, LEAD);
    ModUnique(0, ORDER, 0, 0);
    if SignBit(x, i) == SignBit(x, j) {
      var v := if SignBit(x, j) then u + LEAD else u;
      ModCancel(v, d, 0, ORDER);
    } else if SignBit(x, j) {
      ModCancel(u, d, LEAD, ORDER);
    } else {
      ModCancel(u, d + LEAD, 0, ORDER);
      ModComplement(d, LEAD, ORDER);
    }
  }

  /** Two bits flipped at distance `d`, in messages of any length, go unseen exactly if `d` leaves
      the right remainder modulo 32767: nought, unless sign extension makes one of the two, and
      only one, an earlier flip. */
  lemma TwoFlips(charIsSigned: bool, a: Bytes, b: Bytes, i: nat, j: nat, d: nat)
    requires DiffersInTwo(MessageBits(a), MessageBits(b), i, j) && j == i + d
    ensures CrcOfString(charIsSigned, a) == CrcOfString(charIsSigned, b) <==> d % ORDER == Gap(charIsSigned, i, j)
    ensures CrcOfBytes(a) == CrcOfBytes(b) <==> d % ORDER == 0
  {
    TwoFlipsExact(charIsSigned, a, b, i, j, d);
    TwoFlipsExact(false, a, b, i, j, d);
  }

  lemma TwoFlipsExact(x: bool, a: Bytes, b: Bytes, i: nat, j: nat, d: nat)
    requires DiffersInTwo(MessageBits(a), MessageBits(b), i, j) && j == i + d
    ensures CrcOfString(x, a) == CrcOfString(x, b) <==> d % ORDER == Gap(x, i, j)
  {
    var n := |a|;
    var f, g := Flip(n, i / 8, i % 8), Flip(n, j / 8, j % 8);
    SameCrc(x, a, b);
    TwoFlipsError(a, b, i, j, f, g);
    TwoFlipsMeet(x, n, i, j, f, g);
    GapExact(x, n, i, j, d);
  }

  // ----- up to three

  lemma DistanceBound(a: Bytes, b: Bytes, i: nat, j: nat, d: nat)
    requires DiffersInTwo(MessageBits(a), MessageBits(b), i, j) && j == i + d
    ensures 0 < d < 8 * |a|
  {
  }

  /** Up to this length no two flips are far enough apart to cancel out. */
  function SafeLength(charIsSigned: bool): nat {
    if charIsSigned then 1303 else 4095
  }

  lemma TooClose(x: bool, i: nat, j: nat, d: nat)
    requires 0 < d < 8 * SafeLength(x)
    ensures d % ORDER != Gap(x, i, j)
  {
    ModUnique(d, ORDER, 0, d);
  }

  lemma TwoFlipsShow(x: bool, a: Bytes, b: Bytes, i: nat, j: nat, d: nat)
    requires |a| <= SafeLength(x) && DiffersInTwo(MessageBits(a), MessageBits(b), i, j) && j == i + d
    ensures CrcOfString(x, a) != CrcOfString(x, b)
  {
    DistanceBound(a, b, i, j, d);
    TooClose(x, i, j, d);
    TwoFlipsExact(x, a, b, i, j, d);
  }

  lemma {:induction false} NoOnes(e: Bits)
    requires Weight(e) == 0
    ensures forall k :: 0 <= k < |e| ==> !e[k]
  {
    if e != [] {
      NoOnes(e[1..]);
      assert e == [e[0]] + e[1..];
    }
  }

  lemma {:induction false} OneOne(e: Bits) returns (i: nat)
    requires Weight(e) == 1
    ensures i < |e| && forall k :: 0 <= k < |e| ==> (e[k] <==> k == i)
  {
    assert e == [e[0]] + e[1..];
    if e[0] {
      NoOnes(e[1..]);
      i := 0;
    } else {
      var j := OneOne(e[1..]);
      i := j + 1;
    }
  }

  lemma {:induction false} TwoOnes(e: Bits) returns (i: nat, j: nat)
    requires Weight(e) == 2
    ensures i < j < |e| && forall k :: 0 <= k < |e| ==> (e[k] <==> k == i || k == j)
  {
    assert e == [e[0]] + e[1..];
    if e[0] {
      var k := OneOne(e[1..]);
      i, j := 0, k + 1;
    } else {
      i, j := TwoOnes(e[1..]);
      i, j := i + 1, j + 1;
    }
  }

  lemma TwoFlipped(m: Bits, n: Bits) returns (i: nat, j: nat)
    requires |m| == |n| && Weight(BitStrings.Xor(m, n)) == 2
    ensures DiffersInTwo(m, n, i, j)
  {
    i, j := TwoOnes(BitStrings.Xor(m, n));
  }

  lemma EvenFlipsShow(x: bool, a: Bytes, b: Bytes, m: Bits, n: Bits)
    requires |a| == |b| <= SafeLength(x) && m == MessageBits(a) && n == MessageBits(b)
    requires Weight(BitStrings.Xor(m, n)) == 2
    ensures CrcOfString(x, a) != CrcOfString(x, b)
  {
    var i, j := TwoFlipped(m, n);
    TwoFlipsShow(x, a, b, i, j, j - i);
  }

  /** One, two or three flipped bits always change the CRC of a message of at most 4095 bytes, or
      of 1303 where `char` is signed. */
  lemma UpToThreeFlips(charIsSigned: bool, a: Bytes, b: Bytes, m: Bits, n: Bits)
    requires |a| == |b| <= SafeLength(charIsSigned) && m == MessageBits(a) && n == MessageBits(b)
    requires 1 <= Weight(BitStrings.Xor(m, n)) <= 3
    ensures CrcOfString(charIsSigned, a) != CrcOfString(charIsSigned, b)
  {
    if Weight(BitStrings.Xor(m, n)) == 2 {
      EvenFlipsShow(charIsSigned, a, b, m, n);
    } else {
      OddFlipsDetected(charIsSigned, a, b);
    }
  }

  // ----- known answers

  lemma KnownBytes(zero: Word, preset: Word)
    requires zero == 0 && preset == 0xFFFF
    ensures Absorb(preset, 0xFF) == 0x00FF
    ensures Absorb(0x00FF, 0xFF) == zero
    ensures Absorb(zero, 0x80) == 0xA001
  {
    SignBitsAreCarried(0x80);
    KnownXor();
    XorSelf(0xFF);
    ZeroShifts(TURNS);
    ClearTakesIn(zero, 0x80);
    assert Pow2(7) == 0x80;
    BitComesDown(1, 0x80, 7, 1);
    XorCommutes(0, POLYNOMIAL);
    XorZero(POLYNOMIAL);
  }

  lemma KnownXor()
    ensures Xor16(0xFFFF, 0xFF) == 0xFF00
  {
    PowersOfTwo();
    XorHigh(0xFF, 0xFF, 8);
    ShlIsTimes(0xFF, 8);
    XorCommutes(0xFF, 0xFF00);
    XorTwice(0xFF00, 0xFF);
  }

  /** Three checksums by number: of FF, of FF FF, and of FF FF 80. */
  lemma KnownAnswers()
    ensures CrcOfBytes([0xFF]) == 0x00FF
    ensures CrcOfBytes([0xFF, 0xFF]) == 0x0000
    ensures CrcOfBytes([0xFF, 0xFF, 0x80]) == 0xA001
  {
    KnownBytes(0, PRESET);
    assert WidenAll(false, [0xFF]) == [0xFF] + [];
    FoldFirst(Absorb, PRESET, 0xFF, []);
    assert WidenAll(false, [0xFF, 0xFF]) == [0xFF] + ([0xFF] + []);
    FoldFirst(Absorb, PRESET, 0xFF, [0xFF] + []);
    FoldFirst(Absorb, 0x00FF, 0xFF, []);
    assert WidenAll(false, [0xFF, 0xFF, 0x80]) == [0xFF, 0xFF, 0x80];
    ThreeWords(PRESET, 0xFF, 0xFF, 0x80);
  }
}
