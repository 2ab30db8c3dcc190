/** Unsigned machine words as bounded naturals, with C's exclusive or on them. */
module Words {
  import opened Modulo

  type Byte = b: nat | b < 0x100
  type Word = w: nat | w < 0x1_0000
  type UInt32 = w: nat | w < 0x1_0000_0000
  type UInt64 = w: nat | w < 0x1_0000_0000_0000_0000

  /** What a `uint32_t` keeps of a number. */
  function Wrap32(x: nat): UInt32 {
    x % 0x1_0000_0000
  }

  lemma Wrap32Adds(x: nat, y: nat)
    ensures Wrap32(Wrap32(x) + y) == Wrap32(x + y)
  {
  }

  /** The `^` operator: bit by bit, from the lowest. */
  function Xor(a: nat, b: nat): nat
    decreases a + b
  {
    if a == 0 && b == 0 then 0
    else (if a % 2 == b % 2 then 0 else 1) + 2 * Xor(a / 2, b / 2)
  }

  function Pow2(n: nat): (p: nat)
    ensures p > 0
  {
    if n == 0 then 1 else 2 * Pow2(n - 1)
  }

  lemma XorHalves(a: nat, b: nat)
    ensures Xor(a, b) / 2 == Xor(a / 2, b / 2)
    ensures (Xor(a, b) % 2 == 1) == ((a % 2 == 1) != (b % 2 == 1))
  {
  }

  lemma {:induction false} XorZero(a: nat)
    ensures Xor(a, 0) == a
  {
    if a > 0 {
      XorZero(a / 2);
    }
  }

  lemma {:induction false} XorSelf(a: nat)
    ensures Xor(a, a) == 0
  {
    if a > 0 {
      XorSelf(a / 2);
    }
  }

  lemma {:induction false} XorCommutes(a: nat, b: nat)
    ensures Xor(a, b) == Xor(b, a)
    decreases a + b
  {
    if a + b > 0 {
      XorCommutes(a / 2, b / 2);
    }
  }

  lemma {:induction false} XorAssociates(a: nat, b: nat, c: nat)
    ensures Xor(Xor(a, b), c) == Xor(a, Xor(b, c))
    decreases a + b + c
  {
    if a + b + c > 0 {
      XorHalves(a, b);
      XorHalves(b, c);
      XorAssociates(a / 2, b / 2, c / 2);
    }
  }

  lemma XorTwice(a: nat, b: nat)
    ensures Xor(Xor(a, b), b) == a
  {
  }

  lemma XorIsZero(a: nat, b: nat)
    ensures Xor(a, b) == 0 <==> a == b
  {
    XorSelf(a);
    XorTwice(a, b);
    XorCommutes(0, b);
    XorZero(b);
  }

  /** (a ^ b) ^ (c ^ d) == (a ^ c) ^ (b ^ d) */
  lemma XorExchange(a: nat, b: nat, c: nat, d: nat)
    ensures Xor(Xor(a, b), Xor(c, d)) == Xor(Xor(a, c), Xor(b, d))
  {
    XorAssociates(a, b, Xor(c, d));
    XorAssociates(b, c, d);
    XorCommutes(b, c);
    XorAssociates(c, b, d);
    XorAssociates(a, c, Xor(b, d));
  }

  lemma {:induction false} XorBound(a: nat, b: nat, n: nat)
    requires a < Pow2(n) && b < Pow2(n)
    ensures Xor(a, b) < Pow2(n)
    decreases n
  {
    if n > 0 {
      XorBound(a / 2, b / 2, n - 1);
    }
  }

  /** The bit just below the bound. */
  lemma {:induction false} XorTopBit(a: nat, b: nat, n: nat)
    requires a < Pow2(n + 1) && b < Pow2(n + 1)
    ensures (Xor(a, b) >= Pow2(n)) == ((a >= Pow2(n)) != (b >= Pow2(n)))
    decreases n
  {
    if n > 0 {
      XorTopBit(a / 2, b / 2, n - 1);
    }
  }

  /** `h << n` */
  function Shl(h: nat, n: nat): nat
    decreases n
  {
    if n == 0 then h else 2 * Shl(h, n - 1)
  }

  lemma ShlHalves(h: nat, n: nat)
    requires n > 0
    ensures Shl(h, n) / 2 == Shl(h, n - 1) && Shl(h, n) % 2 == 0
  {
    assert Shl(h, n) == 2 * Shl(h, n - 1);
  }

  lemma Pow2Halves(n: nat)
    requires n > 0
    ensures Pow2(n) / 2 == Pow2(n - 1) && Pow2(n) % 2 == 0
  {
    assert Pow2(n) == 2 * Pow2(n - 1);
  }

  lemma XorWhole(a: nat, b: nat)
    ensures Xor(a, b) == (if a % 2 == b % 2 then 0 else 1) + 2 * Xor(a / 2, b / 2)
  {
  }

  /** Words with no bit in common add up. */
  lemma {:induction false} XorHigh(a: nat, h: nat, n: nat)
    requires a < Pow2(n)
    ensures Xor(a, Shl(h, n)) == a + Shl(h, n)
    decreases n
  {
    if n == 0 {
      XorCommutes(0, h);
      XorZero(h);
    } else {
      var high, later := Shl(h, n), Shl(h, n - 1);
      ShlHalves(h, n);
      Pow2Halves(n);
      XorHigh(a / 2, h, n - 1);
      XorWhole(a, high);
      assert Xor(a / 2, later) == a / 2 + later;
    }
  }

  lemma {:induction false} XorShl(a: nat, b: nat, n: nat)
    ensures Xor(Shl(a, n), Shl(b, n)) == Shl(Xor(a, b), n)
    decreases n
  {
    if n > 0 {
      ShlHalves(a, n);
      ShlHalves(b, n);
      XorShl(a, b, n - 1);
      XorWhole(Shl(a, n), Shl(b, n));
    }
  }

  lemma HalfFirst(c: nat, h: nat)
    requires h > 0
    ensures c / 2 / h == c / (2 * h)
  {
    var p := 2 * h;
    var q, r := c / p, c % p;
    assert c == q * p + r && q * p == 2 * (q * h);
    ModUnique(c / 2, h, q, r / 2);
  }

  lemma XorEven(c: nat, h: nat, p: nat)
    requires p == 2 * h
    ensures Xor(c, p) == 2 * Xor(c / 2, h) + c % 2
  {
    XorWhole(c, p);
  }

  /** Toggling a bit adds it if it was clear and takes it away if it was set. */
  lemma {:induction false} XorToggles(c: nat, p: nat, n: nat)
    requires p == Pow2(n)
    ensures Xor(c, p) == if c / p % 2 == 0 then c + p else c - p
    decreases n
  {
    if n == 0 {
      XorWhole(c, p);
      XorZero(c / 2);
    } else {
      var h := Pow2(n - 1);
      XorToggles(c / 2, h, n - 1);
      HalfFirst(c, h);
      XorEven(c, h, p);
    }
  }

  lemma XorMask(c: nat)
    ensures Xor(c, 0x20) == if c / 0x20 % 2 == 0 then c + 0x20 else c - 0x20
  {
    assert Pow2(5) == 0x20;
    XorToggles(c, 0x20, 5);
  }

  lemma PowersOfTwo()
    ensures Pow2(5) == 0x20 && Pow2(8) == 0x100 && Pow2(16) == 0x1_0000
  {
  }

  /** `^` on `uint8_t`. */
  function Xor8(a: Byte, b: Byte): Byte {
    PowersOfTwo();
    XorBound(a, b, 8);
    Xor(a, b)
  }

  /** `^` on `uint16_t`. */
  function Xor16(a: Word, b: Word): Word {
    PowersOfTwo();
    XorBound(a, b, 16);
    Xor(a, b)
  }
}
