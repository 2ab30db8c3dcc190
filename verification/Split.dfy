/** The field splitter of examples/espUdp/components/gps/Neo6m.cpp. */
module Splitting {
  import opened Options

  predicate OccursAt(s: string, d: string, i: nat) {
    i + |d| <= |s| && s[i..i + |d|] == d
  }

  /** An occurrence is a way of writing the string as something, the delimiter, and something. */
  lemma OccursExactly(s: string, d: string, i: nat)
    ensures OccursAt(s, d, i) <==> i + |d| <= |s| && s == s[..i] + d + s[i + |d|..]
  {
    if i + |d| <= |s| {
      assert s == s[..i] + s[i..i + |d|] + s[i + |d|..];
      assert (s[..i] + d + s[i + |d|..])[i..i + |d|] == d;
    }
  }

  /** `s.find(d, from)`: the first occurrence not before `from`. */
  function Find(s: string, d: string, from: nat): (r: Option<nat>)
    ensures r.Some? ==> from <= r.value && r.value + |d| <= |s|
    decreases |s| - from
  {
    if from > |s| then None
    else if OccursAt(s, d, from) then Some(from)
    else Find(s, d, from + 1)
  }

  /** `Find` finds an occurrence, none before it, and nothing only if there is none. */
  lemma {:induction false} FindIsFirst(s: string, d: string, from: nat)
    ensures match Find(s, d, from)
            case Some(i) => OccursAt(s, d, i) && forall j :: from <= j < i ==> !OccursAt(s, d, j)
            case None => forall j :: from <= j ==> !OccursAt(s, d, j)
    decreases |s| - from
  {
    if from <= |s| && !OccursAt(s, d, from) {
      FindIsFirst(s, d, from + 1);
    }
  }

  /** The pieces of `s` from a position on. */
  function Pieces(s: string, d: string, from: nat): (ps: seq<string>)
    requires d != "" && from <= |s|
    ensures |ps| > 0
    decreases |s| - from
  {
    match Find(s, d, from)
    case None => [s[from..]]
    case Some(i) => [s[from..i]] + Pieces(s, d, i + |d|)
  }

  lemma OnePieceMore(done: seq<string>, s: string, d: string, from: nat)
    requires d != "" && from <= |s|
    ensures var r := Find(s, d, from);
            done + Pieces(s, d, from)
            == if r.None? then done + [s[from..]]
               else (done + [s[from..r.value]]) + Pieces(s, d, r.value + |d|)
  {
  }

  method Split(s: string, delimiter: string) returns (res: seq<string>)
    requires delimiter != "" // with an empty one the loop does not end
    ensures res == Pieces(s, delimiter, 0)
  {
    var posStart := 0;
    var delimLen := |delimiter|;
    res := [];
    var posEnd := Find(s, delimiter, posStart);
    ghost var all := Pieces(s, delimiter, posStart);
    while posEnd.Some?
      invariant posStart <= |s| && posEnd == Find(s, delimiter, posStart)
      invariant res + Pieces(s, delimiter, posStart) == all
      decreases |s| - posStart
    {
      OnePieceMore(res, s, delimiter, posStart);
      var token := s[posStart..posEnd.value];
      posStart := posEnd.value + delimLen;
      res := res + [token];
      posEnd := Find(s, delimiter, posStart);
    }
    OnePieceMore(res, s, delimiter, posStart);
    res := res + [s[posStart..]];
  }

  function Join(ps: seq<string>, d: string): string
    requires |ps| > 0
  {
    if |ps| == 1 then ps[0] else (ps[0] + d) + Join(ps[1..], d)
  }

  /** The pieces with the delimiter between them are the input. */
  lemma {:induction false} JoinPieces(s: string, d: string, from: nat)
    requires d != "" && from <= |s|
    ensures Join(Pieces(s, d, from), d) == s[from..]
    decreases |s| - from
  {
    var r := Find(s, d, from);
    if r.Some? {
      var i := r.value;
      FindIsFirst(s, d, from);
      JoinPieces(s, d, i + |d|);
      assert Pieces(s, d, from)[1..] == Pieces(s, d, i + |d|);
      assert s[from..] == (s[from..i] + s[i..i + |d|]) + s[i + |d|..];
    }
  }

  ghost predicate Contains(s: string, d: string) {
    exists i: nat :: OccursAt(s, d, i)
  }

  lemma SubSlice(s: string, from: nat, to: nat, j: nat, k: nat)
    requires from <= to <= |s| && j <= k <= to - from
    ensures s[from..to][j..k] == s[from + j..from + k]
  {
    var t, u := s[from..to][j..k], s[from + j..from + k];
    assert forall i :: 0 <= i < k - j ==> t[i] == u[i];
  }

  /** Up to the first delimiter there is none, nor in the rest if there is no more. */
  lemma SliceIsClean(s: string, d: string, from: nat, to: nat)
    requires d != "" && from <= to <= |s|
    requires forall j :: from <= j && j + |d| <= to ==> !OccursAt(s, d, j)
    ensures !Contains(s[from..to], d)
  {
    forall j: nat
      ensures !OccursAt(s[from..to], d, j)
    {
      if j + |d| <= to - from {
        SubSlice(s, from, to, j, j + |d|);
        assert !OccursAt(s, d, from + j);
      }
    }
  }

  /** No piece contains the delimiter, however long the delimiter is. */
  lemma {:induction false} PiecesAreClean(s: string, d: string, from: nat)
    requires d != "" && from <= |s|
    ensures forall p :: p in Pieces(s, d, from) ==> !Contains(p, d)
    decreases |s| - from
  {
    FindIsFirst(s, d, from);
    match Find(s, d, from)
    case None =>
      SliceIsClean(s, d, from, |s|);
      assert s[from..] == s[from..|s|];
    case Some(i) =>
      SliceIsClean(s, d, from, i);
      PiecesAreClean(s, d, i + |d|);
  }

  /** No delimiter starts inside `p`, even with help from the one that follows. */
  predicate EndsAtDelimiter(p: string, d: string) {
    forall i :: 0 <= i < |p| ==> !OccursAt(p + d, d, i)
  }

  /** The pieces can be told apart again after joining. */
  ghost predicate Separable(ps: seq<string>, d: string)
    requires |ps| > 0
  {
    if |ps| == 1 then !Contains(ps[0], d) else EndsAtDelimiter(ps[0], d) && Separable(ps[1..], d)
  }

  lemma FindIs(s: string, d: string, from: nat, i: nat)
    requires from <= i && OccursAt(s, d, i)
    ensures Find(s, d, from) == Some(i) <==> forall j :: from <= j < i ==> !OccursAt(s, d, j)
  {
    FindIsFirst(s, d, from);
  }

  /** Up to m, the same places from n on in `long` as in `short`. */
  ghost predicate SameOccurrences(long: string, n: nat, short: string, d: string, m: nat) {
    forall i: nat :: i <= m ==> (OccursAt(short, d, i) <==> OccursAt(long, d, n + i))
  }

  lemma FindShifted(long: string, n: nat, p: string, d: string)
    requires OccursAt(p + d, d, |p|) && SameOccurrences(long, n, p + d, d, |p|)
    ensures EndsAtDelimiter(p, d) <==> Find(long, d, n) == Some(n + |p|)
  {
    FindIs(long, d, n, n + |p|);
    if EndsAtDelimiter(p, d) {
      forall j | n <= j < n + |p|
        ensures !OccursAt(long, d, j)
      {
        assert !OccursAt(p + d, d, j - n);
      }
    }
  }

  lemma EndOccurs(p: string, d: string)
    ensures OccursAt(p + d, d, |p|)
  {
  }

  lemma AllInside(before: string, part: string, after: string, d: string, m: nat)
    requires m + |d| <= |part|
    ensures SameOccurrences(before + (part + after), |before|, part, d, m)
  {
  }

  /** What the first delimiter after `before` is does not depend on what precedes or follows. */
  lemma FirstPiece(before: string, p: string, d: string, rest: string, long: string, n: nat)
    requires long == before + ((p + d) + rest) && n == |before|
    ensures EndsAtDelimiter(p, d) <==> Find(long, d, n) == Some(n + |p|)
  {
    AllInside(before, p + d, rest, d, |p|);
    EndOccurs(p, d);
    FindShifted(long, n, p, d);
  }

  lemma LastPiece(s: string, d: string, n: nat)
    requires d != "" && n <= |s|
    ensures Pieces(s, d, n) == [s[n..]] <==> !Contains(s[n..], d)
  {
    var r := Find(s, d, n);
    FindIsFirst(s, d, n);
    assert s[n..|s|] == s[n..];
    if r.None? {
      SliceIsClean(s, d, n, |s|);
    } else {
      SubSlice(s, n, |s|, r.value - n, r.value - n + |d|);
      assert OccursAt(s[n..|s|], d, r.value - n);
    }
  }

  /** The first of several pieces, given what becomes of the others. */
  lemma SplitFirst(s: string, n: nat, p: string, m: nat, others: seq<string>, d: string)
    requires d != "" && |others| > 0 && n + |p| <= |s| && s[n..n + |p|] == p
    requires m == n + |p| + |d| <= |s|
    ensures Pieces(s, d, n) == [p] + others <==> Find(s, d, n) == Some(n + |p|) && Pieces(s, d, m) == others
  {
    FirstLength(s, d, n);
    if Find(s, d, n) == Some(n + |p|) {
      SameHead(p, Pieces(s, d, m), others);
    } else {
      assert ([p] + others)[0] == p;
    }
  }

  lemma SameHead(p: string, v: seq<string>, w: seq<string>)
    ensures [p] + v == [p] + w <==> v == w
  {
    assert ([p] + v)[1..] == v && ([p] + w)[1..] == w;
  }

  lemma Regroup(before: string, p: string, d: string, tail: string, s: string)
    requires s == before + ((p + d) + tail)
    ensures s == (before + p + d) + tail
    ensures s[|before|..|before| + |p|] == p
  {
  }

  lemma SplitJoinOne(before: string, p: string, d: string)
    requires d != ""
    ensures Pieces(before + Join([p], d), d, |before|) == [p] <==> Separable([p], d)
  {
    var s := before + Join([p], d);
    assert s[|before|..] == p;
    LastPiece(s, d, |before|);
  }

  /** One piece more in front, given that it is so for the others. */
  lemma SplitJoinMore(before: string, ps: seq<string>, rest: seq<string>, d: string, s: string, next: nat)
    requires d != "" && |ps| > 1 && rest == ps[1..] && s == before + Join(ps, d)
    requires next == |before| + |ps[0]| + |d| <= |s| && s[|before|..|before| + |ps[0]|] == ps[0]
    requires Pieces(s, d, next) == rest <==> Separable(rest, d)
    ensures Pieces(s, d, |before|) == ps <==> Separable(ps, d)
  {
    FirstPiece(before, ps[0], d, Join(rest, d), s, |before|);
    SplitFirst(s, |before|, ps[0], next, rest, d);
    assert ps == [ps[0]] + rest;
  }

  /** Splitting undoes joining exactly for the lists whose pieces can be told apart. */
  lemma {:induction false} SplitJoin(before: string, ps: seq<string>, d: string)
    requires d != "" && |ps| > 0
    ensures Pieces(before + Join(ps, d), d, |before|) == ps <==> Separable(ps, d)
    decreases |ps|
  {
    if |ps| == 1 {
      SplitJoinOne(before, ps[0], d);
      assert ps == [ps[0]];
    } else {
      var s, next, rest := before + Join(ps, d), before + ps[0] + d, ps[1..];
      SplitJoin(next, rest, d);
      Regroup(before, ps[0], d, Join(rest, d), s);
      SplitJoinMore(before, ps, rest, d, s, |next|);
    }
  }

  lemma FirstLength(s: string, d: string, from: nat)
    requires d != "" && from <= |s|
    ensures |Pieces(s, d, from)| > 1 ==> Find(s, d, from) == Some(from + |Pieces(s, d, from)[0]|)
  {
  }

  /** For a one-character delimiter that is every nonempty list of pieces without it. */
  lemma {:induction false} SeparableByCharacter(ps: seq<string>, c: char)
    requires |ps| > 0
    ensures Separable(ps, [c]) <==> forall p :: p in ps ==> c !in p
    decreases |ps|
  {
    ContainsCharacter(ps[0], c);
    if |ps| > 1 {
      SeparableByCharacter(ps[1..], c);
      CharacterEnds(ps[0], c);
      assert ps == [ps[0]] + ps[1..];
    }
  }

  lemma ContainsCharacter(p: string, c: char)
    ensures forall i: nat :: OccursAt(p, [c], i) <==> i < |p| && p[i] == c
    ensures Contains(p, [c]) <==> c in p
  {
  }

  lemma CharacterEnds(p: string, c: char)
    ensures EndsAtDelimiter(p, [c]) <==> c !in p
  {
    var s := p + [c];
    ContainsCharacter(s, c);
    if c in p {
      var i :| 0 <= i < |p| && p[i] == c;
      assert s[i] == c && OccursAt(s, [c], i);
    }
  }

  /** A field list without commas, joined by commas, is split into itself. */
  lemma FieldsRoundTrip(fields: seq<string>, comma: char)
    requires |fields| > 0
    ensures Pieces(Join(fields, [comma]), [comma], 0) == fields <==> forall f :: f in fields ==> comma !in f
  {
    SplitJoin("", fields, [comma]);
    assert "" + Join(fields, [comma]) == Join(fields, [comma]);
    SeparableByCharacter(fields, comma);
  }
}
