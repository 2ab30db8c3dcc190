/** Iterating a step, and what a step's algebra says about the whole run. */
module Folds {
  function Iterate<T>(f: T -> T, x: T, n: nat): T
    decreases n
  {
    if n == 0 then x else f(Iterate(f, x, n - 1))
  }

  function Fold<S, W>(f: (S, W) -> S, s: S, ws: seq<W>): S
    decreases |ws|
  {
    if ws == [] then s else Fold(f, f(s, ws[0]), ws[1..])
  }

  function Zip<W>(op: (W, W) -> W, v: seq<W>, w: seq<W>): (z: seq<W>)
    requires |v| == |w|
    ensures |z| == |v| && forall i :: 0 <= i < |v| ==> z[i] == op(v[i], w[i])
  {
    seq(|v|, i requires 0 <= i < |v| => op(v[i], w[i]))
  }

  lemma Associative<T>(u: seq<T>, v: seq<T>, w: seq<T>)
    ensures (u + v) + w == u + (v + w)
  {
  }

  lemma {:induction false} IterateFirst<T>(f: T -> T, x: T, n: nat)
    ensures Iterate(f, x, n + 1) == Iterate(f, f(x), n)
    decreases n
  {
    if n > 0 {
      IterateFirst(f, x, n - 1);
    }
  }

  lemma {:induction false} IterateHomomorphic<T(!new)>(f: T -> T, op: (T, T) -> T, x: T, y: T, n: nat)
    requires forall a, b :: f(op(a, b)) == op(f(a), f(b))
    ensures Iterate(f, op(x, y), n) == op(Iterate(f, x, n), Iterate(f, y, n))
    decreases n
  {
    if n > 0 {
      IterateHomomorphic(f, op, x, y, n - 1);
    }
  }

  lemma {:induction false} IterateInjective<T(!new)>(f: T -> T, x: T, y: T, n: nat)
    requires forall a, b :: f(a) == f(b) ==> a == b
    requires Iterate(f, x, n) == Iterate(f, y, n)
    ensures x == y
    decreases n
  {
    if n > 0 {
      IterateInjective(f, x, y, n - 1);
    }
  }

  lemma {:induction false} IteratePreserves<T(!new)>(f: T -> T, p: T -> bool, x: T, n: nat)
    requires forall a :: p(f(a)) == p(a)
    ensures p(Iterate(f, x, n)) == p(x)
    decreases n
  {
    if n > 0 {
      IteratePreserves(f, p, x, n - 1);
    }
  }

  lemma {:induction false} FoldAppend<S, W>(f: (S, W) -> S, s: S, v: seq<W>, w: seq<W>)
    ensures Fold(f, s, v + w) == Fold(f, Fold(f, s, v), w)
    decreases |v|
  {
    if v == [] {
      assert v + w == w;
    } else {
      assert (v + w)[1..] == v[1..] + w;
      FoldAppend(f, f(s, v[0]), v[1..], w);
    }
  }

  lemma FoldFirst<S, W>(f: (S, W) -> S, s: S, w: W, rest: seq<W>)
    ensures Fold(f, s, [w] + rest) == Fold(f, f(s, w), rest)
  {
  }

  lemma FoldOneMore<S, W>(f: (S, W) -> S, s: S, ws: seq<W>, i: nat)
    requires i < |ws|
    ensures Fold(f, s, ws[..i + 1]) == f(Fold(f, s, ws[..i]), ws[i])
  {
    assert ws[..i + 1] == ws[..i] + [ws[i]];
    FoldAppend(f, s, ws[..i], [ws[i]]);
  }

  /** A step linear in state and input makes a run linear in state and inputs. */
  lemma {:induction false} FoldHomomorphic<S(!new), W(!new)>(
      f: (S, W) -> S, op: (S, S) -> S, opw: (W, W) -> W, s: S, t: S, v: seq<W>, w: seq<W>)
    requires |v| == |w|
    requires forall a, b, c, d :: f(op(a, b), opw(c, d)) == op(f(a, c), f(b, d))
    ensures Fold(f, op(s, t), Zip(opw, v, w)) == op(Fold(f, s, v), Fold(f, t, w))
    decreases |v|
  {
    if v != [] {
      assert Zip(opw, v, w)[1..] == Zip(opw, v[1..], w[1..]);
      FoldHomomorphic(f, op, opw, f(s, v[0]), f(t, w[0]), v[1..], w[1..]);
    }
  }

  /** If no input can make two states meet, no run can. */
  lemma {:induction false} FoldInjective<S(!new), W(!new)>(f: (S, W) -> S, s: S, t: S, ws: seq<W>)
    requires forall a, b, w :: f(a, w) == f(b, w) ==> a == b
    requires Fold(f, s, ws) == Fold(f, t, ws)
    ensures s == t
    decreases |ws|
  {
    if ws != [] {
      FoldInjective(f, f(s, ws[0]), f(t, ws[0]), ws[1..]);
    }
  }
}
