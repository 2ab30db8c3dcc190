/** The two smoothing filters of examples/espUdp/components/ultrasonic/UltraSonic.cpp, in the
    machine arithmetic the code uses: `int32_t` fields, an `int` reading, a `uint64_t` time. */
module UltraSonics {
  import opened Words

  type Int32 = x: int | -0x8000_0000 <= x < 0x8000_0000

  /** C's division of an `int` by two: towards zero. */
  function Half(x: int): int {
    if x >= 0 then x / 2 else -(-x / 2)
  }

  function ToUInt64(x: int): UInt64 {
    x % 0x1_0000_0000_0000_0000
  }

  /** The narrowing of a `uint64_t` to `int32_t`. */
  function ToInt32(w: UInt64): Int32 {
    var low := w % 0x1_0000_0000;
    if low < 0x8000_0000 then low else low - 0x1_0000_0000
  }

  function NextDistance(distance: int, mm: int): int {
    distance + Half(mm - distance)
  }

  /** `delay() + (getTime() - delay()) / 2`: the `int32_t` is converted, everything else wraps. */
  function NextDelay(delay: Int32, time: UInt64): Int32 {
    ToInt32(ToUInt64(ToUInt64(delay) + ToUInt64(time - ToUInt64(delay)) / 2))
  }

  predicate Plausible(mm: int) {
    0 < mm < 4000
  }

  class UltraSonic {
    var distance: Int32
    var delay: Int32

    /** The fields can be added and subtracted without overflow. */
    predicate Valid()
      reads this
    {
      0 <= distance < 4000
    }

    constructor ()
      ensures Valid() && distance == 0 && delay == 0
    {
      distance, delay := 0, 0;
    }

    method On(mm: Int32, time: UInt64)
      requires Valid()
      modifies this
      ensures Valid()
      ensures distance == (if Plausible(mm) then NextDistance(old(distance), mm) else old(distance))
      ensures delay == (if Plausible(mm) then NextDelay(old(delay), time) else old(delay))
      ensures 0 < mm < 4000 && mm >= old(distance) ==> mm - distance == (mm - old(distance) + 1) / 2
      ensures 0 < mm < 4000 && mm <= old(distance) ==> distance - mm == (old(distance) - mm + 1) / 2
      ensures 0 < mm < 4000 && 0 <= old(delay) && time < 0x8000_0000 ==>
        delay == old(delay) + (time - old(delay)) / 2
      ensures !(0 < mm < 4000) ==> distance == old(distance) && delay == old(delay)
    {
      if mm < 4000 && mm > 0 {
        if 0 <= delay && time < 0x8000_0000 {
          DelayStep(delay, time);
        }
        distance := distance + Half(mm - distance);
        var difference: UInt64 := ToUInt64(time - ToUInt64(delay));
        var sum: UInt64 := ToUInt64(ToUInt64(delay) + difference / 2);
        delay := ToInt32(sum);
      }
    }
  }

  // ----- the unsigned detour is harmless

  /** Wraparound, unsigned halving and narrowing together are a step of half the difference,
      rounded down, as long as both times fit in 31 bits. */
  lemma DelayStep(delay: Int32, time: UInt64)
    requires 0 <= delay && time < 0x8000_0000
    ensures NextDelay(delay, time) == delay + (time - delay) / 2
  {
    Unchanged(delay);
    if time < delay {
      NegativeToUnsigned(time - delay);
      NarrowedSum(delay, (time - delay) / 2);
    } else {
      Unchanged(time - delay);
      Unchanged(delay + (time - delay) / 2);
    }
  }

  /** Small numbers survive the conversions. */
  lemma Unchanged(x: int)
    requires 0 <= x < 0x8000_0000
    ensures ToUInt64(x) == x && ToInt32(ToUInt64(x)) == x
  {
  }

  /** Half of a small negative number, taken after conversion to `uint64_t`. */
  lemma NegativeToUnsigned(e: int)
    requires -0x8000_0000 <= e < 0
    ensures ToUInt64(e) == e + 0x1_0000_0000_0000_0000
    ensures ToUInt64(e) / 2 == e / 2 + 0x8000_0000_0000_0000
  {
  }

  lemma NarrowedSum(delay: Int32, h: int)
    requires 0 <= delay && -0x8000_0000 <= h < 0 && 0 <= delay + h
    ensures ToInt32(ToUInt64(delay + (h + 0x8000_0000_0000_0000))) == delay + h
  {
  }

  // ----- convergence

  /** `c` is a / p rounded up. */
  predicate IsCeiling(c: int, a: int, p: nat) {
    (c - 1) * p < a <= c * p
  }

  lemma CeilingOfHalf(c: int, a: int, p: nat)
    requires p > 0 && IsCeiling(c, a, p)
    ensures IsCeiling((c + 1) / 2, a, 2 * p)
  {
    var h := (c + 1) / 2;
    assert c == 2 * h || c == 2 * h - 1;
    assert h * (2 * p) == (2 * h) * p && (h - 1) * (2 * p) == (2 * h - 2) * p;
    assert (2 * h - 1) * p == (2 * h) * p - p && (2 * h - 2) * p == (2 * h) * p - 2 * p;
  }

  function DistanceAfter(distance: int, mm: int, ticks: nat): int {
    if ticks == 0 then distance else NextDistance(DistanceAfter(distance, mm, ticks - 1), mm)
  }

  function Abs(x: int): nat {
    if x < 0 then -x else x
  }

  /** Under a constant reading the error halves at every tick, rounded up, and keeps its sign. */
  lemma {:induction false} DistanceError(distance: int, mm: int, ticks: nat)
    ensures IsCeiling(Abs(mm - DistanceAfter(distance, mm, ticks)), Abs(mm - distance), Pow2(ticks))
    ensures (mm - DistanceAfter(distance, mm, ticks) > 0) == (mm - distance > 0)
    ensures (mm - DistanceAfter(distance, mm, ticks) < 0) == (mm - distance < 0)
  {
    if ticks > 0 {
      DistanceError(distance, mm, ticks - 1);
      var e := mm - DistanceAfter(distance, mm, ticks - 1);
      CeilingOfHalf(Abs(e), Abs(mm - distance), Pow2(ticks - 1));
      assert Abs(mm - DistanceAfter(distance, mm, ticks)) == (Abs(e) + 1) / 2;
    }
  }

  /** After twelve ticks the distance is within a millimetre, and it never gets any closer: it is
      exact only if it was so from the start. */
  lemma DistanceSettles(distance: int, mm: int, ticks: nat)
    requires 0 <= distance < 4000 && 0 < mm < 4000 && ticks >= 12
    ensures Abs(mm - DistanceAfter(distance, mm, ticks)) == if mm == distance then 0 else 1
  {
    DistanceError(distance, mm, ticks);
    BigPower(ticks);
    SmallCeiling(Abs(mm - DistanceAfter(distance, mm, ticks)), Abs(mm - distance), Pow2(ticks));
  }

  lemma SmallCeiling(c: nat, a: nat, p: nat)
    requires IsCeiling(c, a, p) && a <= p && p > 0
    ensures c == if a == 0 then 0 else 1
  {
  }

  lemma {:induction false} BigPower(n: nat)
    requires n >= 12
    ensures Pow2(n) >= 4096
  {
    if n > 12 {
      BigPower(n - 1);
    } else {
      assert Pow2(6) == 64;
      assert Pow2(9) == 8 * Pow2(6);
      assert Pow2(12) == 8 * Pow2(9);
    }
  }

  function DelayAfter(delay: Int32, time: UInt64, ticks: nat): Int32 {
    if ticks == 0 then delay else NextDelay(DelayAfter(delay, time, ticks - 1), time)
  }

  /** The delay's error is rounded up with its sign: from above it vanishes, from below it
      stops at one. */
  lemma {:induction false} DelayError(delay: Int32, time: UInt64, ticks: nat)
    requires 0 <= delay && time < 0x8000_0000
    ensures 0 <= DelayAfter(delay, time, ticks)
    ensures IsCeiling(time - DelayAfter(delay, time, ticks), time - delay, Pow2(ticks))
  {
    if ticks > 0 {
      DelayError(delay, time, ticks - 1);
      var d := DelayAfter(delay, time, ticks - 1);
      DelayStep(d, time);
      assert (time - d) - (time - d) / 2 == (time - d + 1) / 2;
      CeilingOfHalf(time - d, time - delay, Pow2(ticks - 1));
    }
  }
}
