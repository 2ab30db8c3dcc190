/** The round robin of examples/espUdp/components/limero/Poller.h, with its `uint32_t` index. */
module Polling {
  import opened Words
  import opened Modulo

  const RANGE: nat := 0x1_0000_0000

  /** The source asked on the k-th served tick after the index was `start`. */
  function Served(start: UInt32, n: nat, k: nat): nat
    requires n > 0
  {
    Wrap32(start + k) % n
  }

  function Log(start: UInt32, n: nat, ticks: nat): (log: seq<nat>)
    requires n > 0
    ensures |log| == ticks
  {
    seq(ticks, k requires 0 <= k < ticks => Served(start, n, k))
  }

  /** How often source `x` is asked in the first `ticks` served ticks. */
  function Asked(start: UInt32, n: nat, ticks: nat, x: nat): nat
    requires n > 0
  {
    if ticks == 0 then 0 else Asked(start, n, ticks - 1, x) + if Served(start, n, ticks - 1) == x then 1 else 0
  }

  /** That is what the log says. */
  lemma {:induction false} AskedCountsLog(start: UInt32, n: nat, ticks: nat, x: nat)
    requires n > 0
    ensures multiset(Log(start, n, ticks))[x] == Asked(start, n, ticks, x)
    decreases ticks
  {
    if ticks > 0 {
      AskedCountsLog(start, n, ticks - 1, x);
      assert Log(start, n, ticks) == Log(start, n, ticks - 1) + [Served(start, n, ticks - 1)];
    }
  }

  class Poller {
    var requestables: seq<object>
    var idx: UInt32
    var connected: bool
    var log: seq<nat> // which sources have been asked, by position
    ghost var start: UInt32 // the index when the last source was registered
    ghost var earlier: seq<nat> // the log up to then

    ghost predicate Valid()
      reads this
    {
      && |earlier| <= |log| && log[..|earlier|] == earlier
      && idx == Wrap32(start + |log| - |earlier|)
      && (|requestables| == 0 ==> log == earlier)
      && (|requestables| > 0 ==> log[|earlier|..] == Log(start, |requestables|, |log| - |earlier|))
    }

    constructor ()
      ensures Valid() && requestables == [] && idx == 0 && log == []
    {
      requestables, idx, connected, log := [], 0, false, [];
      start, earlier := 0, [];
    }

    /** `operator>>` */
    method Register(source: object)
      requires Valid()
      modifies this
      ensures Valid() && requestables == old(requestables) + [source]
      ensures idx == old(idx) == start && log == old(log) == earlier && connected == old(connected)
    {
      requestables := requestables + [source];
      start, earlier := idx, log;
    }

    /** The timer's callback. */
    method OnTimer()
      requires Valid()
      modifies this`idx, this`log
      ensures Valid()
      ensures log == old(log) + if |requestables| > 0 && connected then [old(idx) % |requestables|] else []
      ensures idx == if |requestables| > 0 && connected then Wrap32(old(idx) + 1) else old(idx)
    {
      if |requestables| > 0 && connected {
        ghost var k := |log| - |earlier|;
        Wrap32Adds(start + k, 1);
        assert Log(start, |requestables|, k + 1) == Log(start, |requestables|, k) + [idx % |requestables|];
        log := log + [idx % |requestables|];
        idx := Wrap32(idx + 1);
      }
    }
  }

  // ----- counting residues among consecutive numbers

  function Hits(c: nat, n: nat, k: nat, x: nat): nat
    requires n > 0
  {
    if k == 0 then 0 else Hits(c, n, k - 1, x) + if (c + k - 1) % n == x then 1 else 0
  }

  /** Where in a window starting at c the residue x stands. */
  function Place(c: nat, n: nat, x: nat): (j: nat)
    requires x < n
    ensures j < n
  {
    if c % n <= x then x - c % n else x + n - c % n
  }

  lemma PlaceIsUnique(c: nat, n: nat, x: nat, j: nat)
    requires x < n && j < n
    ensures (c + j) % n == x <==> j == Place(c, n, x)
  {
    var q, r := c / n, c % n;
    assert c == q * n + r;
    if r + j < n {
      ModUnique(c + j, n, q, r + j);
    } else {
      assert c + j == (q + 1) * n + (r + j - n);
      ModUnique(c + j, n, q + 1, r + j - n);
    }
  }

  lemma {:induction false} HitsInWindow(c: nat, n: nat, k: nat, x: nat)
    requires x < n && k <= n
    ensures Hits(c, n, k, x) == if Place(c, n, x) < k then 1 else 0
    decreases k
  {
    if k > 0 {
      HitsInWindow(c, n, k - 1, x);
      PlaceIsUnique(c, n, x, k - 1);
    }
  }

  lemma {:induction false} HitsAppend(c: nat, n: nat, k: nat, m: nat, x: nat)
    requires n > 0
    ensures Hits(c, n, k + m, x) == Hits(c, n, k, x) + Hits(c + k, n, m, x)
    decreases m
  {
    if m > 0 {
      HitsAppend(c, n, k, m - 1, x);
    }
  }

  lemma {:induction false} HitsBalanced(c: nat, n: nat, k: nat, x: nat, y: nat)
    requires x < n && y < n
    ensures Hits(c, n, k, x) <= Hits(c, n, k, y) + 1
    decreases k
  {
    if k <= n {
      HitsInWindow(c, n, k, x);
      HitsInWindow(c, n, k, y);
    } else {
      HitsAppend(c, n, n, k - n, x);
      HitsAppend(c, n, n, k - n, y);
      HitsInWindow(c, n, n, x);
      HitsInWindow(c, n, n, y);
      HitsBalanced(c + n, n, k - n, x, y);
    }
  }

  // ----- fairness

  /** The index can wrap within these ticks without anyone noticing. */
  predicate Seamless(start: UInt32, n: nat, ticks: nat)
    requires n > 0
  {
    start + ticks <= RANGE || RANGE % n == 0
  }

  lemma SeamlessServed(start: UInt32, n: nat, k: nat)
    requires n > 0 && (start + k < RANGE || RANGE % n == 0)
    ensures Served(start, n, k) == (start + k) % n
  {
    var all := start + k;
    var w := Wrap32(all);
    if all >= RANGE {
      var a, b := all / 0x1_0000_0000, RANGE / n;
      assert all == a * RANGE + w && RANGE == b * n;
      var q := w / n;
      assert w == q * n + w % n;
      assert all == (a * b + q) * n + w % n by {
        assert a * RANGE == a * (b * n) == (a * b) * n;
        assert (a * b + q) * n == (a * b) * n + q * n;
      }
      ModUnique(all, n, a * b + q, w % n);
    }
  }

  lemma {:induction false} AskedIsHits(start: UInt32, n: nat, ticks: nat, x: nat)
    requires n > 0 && Seamless(start, n, ticks)
    ensures Asked(start, n, ticks, x) == Hits(start, n, ticks, x)
    decreases ticks
  {
    if ticks > 0 {
      AskedIsHits(start, n, ticks - 1, x);
      SeamlessServed(start, n, ticks - 1);
    }
  }

  /** At every point of the run no source is ahead of another by more than one request. */
  lemma Balanced(start: UInt32, n: nat, ticks: nat, x: nat, y: nat)
    requires x < n && y < n && Seamless(start, n, ticks)
    ensures -1 <= Asked(start, n, ticks, x) as int - Asked(start, n, ticks, y) as int <= 1
  {
    AskedIsHits(start, n, ticks, x);
    AskedIsHits(start, n, ticks, y);
    HitsBalanced(start, n, ticks, x, y);
    HitsBalanced(start, n, ticks, y, x);
  }

  /** Any n consecutive served ticks ask each source once. */
  predicate FairRound(start: UInt32, n: nat)
    requires n > 0
  {
    forall x :: 0 <= x < n ==> Asked(start, n, n, x) == 1
  }

  lemma RoundIsFair(start: UInt32, n: nat)
    requires n > 0 && Seamless(start, n, n)
    ensures FairRound(start, n)
  {
    forall x | 0 <= x < n
      ensures Asked(start, n, n, x) == 1
    {
      AskedIsHits(start, n, n, x);
      HitsInWindow(start, n, n, x);
    }
  }

  lemma {:induction false} AskedTwice(start: UInt32, n: nat, ticks: nat, i: nat, j: nat, x: nat)
    requires n > 0 && i < j < ticks
    requires Served(start, n, i) == x && Served(start, n, j) == x
    ensures Asked(start, n, ticks, x) >= 2
    decreases ticks
  {
    if j < ticks - 1 {
      AskedTwice(start, n, ticks - 1, i, j, x);
    } else {
      AskedOnce(start, n, ticks - 1, i, x);
    }
  }

  lemma {:induction false} AskedOnce(start: UInt32, n: nat, ticks: nat, i: nat, x: nat)
    requires n > 0 && i < ticks && Served(start, n, i) == x
    ensures Asked(start, n, ticks, x) >= 1
    decreases ticks
  {
    if i < ticks - 1 {
      AskedOnce(start, n, ticks - 1, i, x);
    }
  }

  /** In a round across the wrap some source is asked both before and after it: the last index
      before the wrap is not that of the last source, and yet the index after it is that of the
      first one. */
  lemma WrapIsUnfair(start: UInt32, n: nat)
    requires n > 0 && start + n > RANGE && RANGE % n != 0
    ensures !FairRound(start, n)
  {
    var r, q, before := RANGE % n, RANGE / n, RANGE - start;
    assert RANGE == q * n + r;
    ModBounds(RANGE, n);
    if before <= r {
      var x := r - before;
      ModUnique(start, n, q, x);
      ModUnique(x, n, 0, x);
      assert Served(start, n, 0) == x && Served(start, n, r) == x;
      AskedTwice(start, n, n, 0, r, x);
      assert Asked(start, n, n, x) != 1;
    } else {
      ModUnique(q * n, n, q, 0);
      ModUnique(0, n, 0, 0);
      assert Served(start, n, before - r) == 0 && Served(start, n, before) == 0;
      AskedTwice(start, n, n, before - r, before, 0);
      assert Asked(start, n, n, 0) != 1;
    }
  }

  /** A round is fair exactly if the index does not wrap in it or the number of sources divides
      2^32. */
  lemma FairExactly(start: UInt32, n: nat)
    requires n > 0
    ensures FairRound(start, n) <==> start + n <= RANGE || RANGE % n == 0
  {
    if Seamless(start, n, n) {
      RoundIsFair(start, n);
    } else {
      WrapIsUnfair(start, n);
    }
  }

  /** Every round is fair, those across the wrap of the index included, exactly if the number of
      sources divides 2^32, that is, if it is a power of two. */
  lemma FairForeverExactly(n: nat)
    requires n > 0
    ensures (forall start: UInt32 :: FairRound(start, n)) <==> RANGE % n == 0
  {
    forall start: UInt32
      ensures FairRound(start, n) <==> start + n <= RANGE || RANGE % n == 0
    {
      FairExactly(start, n);
    }
    if RANGE % n != 0 {
      assert n > 1;
      assert !FairRound(0xFFFF_FFFF, n);
    }
  }
}
