/** What lines survive which end of the serial link. */
module FramingLaws {
  import opened Words
  import opened ByteStrings
  import opened Framing
  import opened Modulo

  // ----- the splitter is what it claims to be

  predicate Plain(delims: Bytes, run: Bytes) {
    forall c :: c in run ==> c !in delims
  }

  predicate AllPlain(delims: Bytes, runs: seq<Bytes>) {
    forall run :: run in runs ==> Plain(delims, run)
  }

  function DelimitersIn(delims: Bytes, wire: Bytes): Bytes {
    if wire == [] then []
    else (if wire[0] in delims then [wire[0]] else []) + DelimitersIn(delims, wire[1..])
  }

  /** Each run followed by the delimiter that ended it, and then the open run. */
  function Reassemble(runs: seq<Bytes>, marks: Bytes, last: Bytes): Bytes
    requires |runs| == |marks|
  {
    if runs == [] then last else runs[0] + [marks[0]] + Reassemble(runs[1..], marks[1..], last)
  }

  /** These runs hold no delimiter and, with the marks put back between them, are `all`. */
  predicate MakesUp(delims: Bytes, runs: seq<Bytes>, marks: Bytes, last: Bytes, all: Bytes) {
    AllPlain(delims, runs) && Plain(delims, last) && |runs| == |marks| && Reassemble(runs, marks, last) == all
  }

  lemma MakesUpMore(delims: Bytes, run: Bytes, c: Byte, runs: seq<Bytes>, marks: Bytes, last: Bytes,
                    rest: Bytes, all: Bytes)
    requires Plain(delims, run) && MakesUp(delims, runs, marks, last, rest) && all == run + [c] + rest
    ensures MakesUp(delims, [run] + runs, [c] + marks, last, all)
  {
    assert ([run] + runs)[1..] == runs && ([c] + marks)[1..] == marks;
  }

  lemma FirstRun(delims: Bytes, pending: Bytes, wire: Bytes)
    requires wire != [] && wire[0] in delims
    ensures Runs(delims, pending, wire) == [pending] + Runs(delims, [], wire[1..])
    ensures OpenRun(delims, pending, wire) == OpenRun(delims, [], wire[1..])
    ensures DelimitersIn(delims, wire) == [wire[0]] + DelimitersIn(delims, wire[1..])
  {
  }

  lemma SameRun(delims: Bytes, pending: Bytes, wire: Bytes)
    requires wire != [] && wire[0] !in delims
    ensures Runs(delims, pending, wire) == Runs(delims, pending + [wire[0]], wire[1..])
    ensures OpenRun(delims, pending, wire) == OpenRun(delims, pending + [wire[0]], wire[1..])
    ensures DelimitersIn(delims, wire) == DelimitersIn(delims, wire[1..])
  {
  }

  /** The runs contain no delimiter and, with the delimiters put back, make up the input. */
  lemma {:induction false} RunsReassemble(delims: Bytes, pending: Bytes, wire: Bytes)
    requires Plain(delims, pending)
    ensures MakesUp(delims, Runs(delims, pending, wire), DelimitersIn(delims, wire),
                    OpenRun(delims, pending, wire), pending + wire)
    decreases |wire|
  {
    if wire == [] {
      assert pending + wire == pending;
    } else if wire[0] in delims {
      var rest := wire[1..];
      RunsReassemble(delims, [], rest);
      assert [] + rest == rest && pending + [wire[0]] + rest == pending + wire;
      FirstRun(delims, pending, wire);
      MakesUpMore(delims, pending, wire[0], Runs(delims, [], rest), DelimitersIn(delims, rest),
                  OpenRun(delims, [], rest), rest, pending + wire);
    } else {
      RunsReassemble(delims, pending + [wire[0]], wire[1..]);
      assert (pending + [wire[0]]) + wire[1..] == pending + wire;
      SameRun(delims, pending, wire);
    }
  }

  // ----- either end, from the moment it starts listening

  /** The longest run that comes out whole. */
  function Capacity(policy: Policy): nat {
    match policy
    case ClearBefore(limit) => limit + 1
    case ClearAfter(limit) => limit
  }

  lemma RetainedWhole(policy: Policy, run: Bytes)
    ensures Retained(policy, run) == run <==> |run| <= Capacity(policy)
    ensures |Retained(policy, run)| <= Capacity(policy)
    ensures forall c :: c in Retained(policy, run) ==> c in run
  {
    var n, k := |run|, policy.limit + 1;
    var m := Kept(policy, n);
    if policy.ClearBefore? {
      if n > 0 {
        ModBounds(n - 1, k);
        if n <= k {
          ModUnique(n - 1, k, 0, n - 1);
        }
      }
    } else {
      ModBounds(n, k);
      if n < k {
        ModUnique(n, k, 0, n);
      }
    }
    assert m <= Capacity(policy);
    assert m == n <==> n <= Capacity(policy);
    assert |run[n - m..]| == m;
  }

  /** Every input, however chunked, comes out as its delimiter-free runs cut to their retained
      ends; the buffer never holds a delimiter and never more than the capacity. */
  lemma ReceiverLaw(policy: Policy, delims: Bytes, wire: Bytes)
    ensures LinesOut(policy, delims, [], wire) == Survivors(policy, Runs(delims, [], wire))
    ensures Buffer(policy, delims, [], wire) == Retained(policy, OpenRun(delims, [], wire))
    ensures Plain(delims, Buffer(policy, delims, [], wire))
    ensures |Buffer(policy, delims, [], wire)| <= Capacity(policy)
  {
    FeedRefinesSplitter(policy, delims, [], wire);
    assert Retained(policy, []) == [];
    RunsReassemble(delims, [], wire);
    RetainedWhole(policy, OpenRun(delims, [], wire));
  }

  // ----- lines sent with CR LF

  const CRLF: Bytes := [CR, LF]

  function WireOf(lines: seq<Bytes>): Bytes {
    if lines == [] then [] else (lines[0] + CRLF) + WireOf(lines[1..])
  }

  lemma {:induction false} PlainRun(delims: Bytes, pending: Bytes, line: Bytes, rest: Bytes)
    requires Plain(delims, line)
    ensures Runs(delims, pending, line + rest) == Runs(delims, pending + line, rest)
    ensures OpenRun(delims, pending, line + rest) == OpenRun(delims, pending + line, rest)
    decreases |line|
  {
    if line == [] {
      assert line + rest == rest && pending + line == pending;
    } else {
      assert line[0] in line && forall c :: c in line[1..] ==> c in line;
      assert (line + rest)[1..] == line[1..] + rest;
      PlainRun(delims, pending + [line[0]], line[1..], rest);
      assert (pending + [line[0]]) + line[1..] == pending + line;
    }
  }

  lemma OneLine(line: Bytes, rest: Bytes)
    requires Plain(CRLF, line)
    ensures Runs(CRLF, [], (line + CRLF) + rest) == [line, []] + Runs(CRLF, [], rest)
    ensures OpenRun(CRLF, [], (line + CRLF) + rest) == OpenRun(CRLF, [], rest)
  {
    assert (line + CRLF) + rest == line + (CRLF + rest);
    PlainRun(CRLF, [], line, CRLF + rest);
    assert [] + line == line;
    assert (CRLF + rest)[1..] == [LF] + rest && (CRLF + rest)[1..][1..] == rest;
    assert Runs(CRLF, line, CRLF + rest) == [line] + Runs(CRLF, [], [LF] + rest);
    assert Runs(CRLF, [], [LF] + rest) == [[]] + Runs(CRLF, [], rest);
  }

  lemma EmptyRunVanishes(policy: Policy, line: Bytes, rest: seq<Bytes>)
    ensures Survivors(policy, [line, []] + rest) == Survivor(policy, line) + Survivors(policy, rest)
  {
  }

  lemma {:induction false} SentLines(policy: Policy, lines: seq<Bytes>)
    requires AllPlain(CRLF, lines)
    ensures Survivors(policy, Runs(CRLF, [], WireOf(lines))) == Survivors(policy, lines)
    ensures OpenRun(CRLF, [], WireOf(lines)) == []
  {
    if lines != [] {
      assert lines[0] in lines && forall line :: line in lines[1..] ==> line in lines;
      var rest := WireOf(lines[1..]);
      OneLine(lines[0], rest);
      SentLines(policy, lines[1..]);
      EmptyRunVanishes(policy, lines[0], Runs(CRLF, [], rest));
    }
  }

  lemma {:induction false} WholeLinesSurvive(policy: Policy, lines: seq<Bytes>)
    requires forall line :: line in lines ==> 0 < |line| <= Capacity(policy)
    ensures Survivors(policy, lines) == lines
  {
    if lines != [] {
      assert lines[0] in lines && forall line :: line in lines[1..] ==> line in lines;
      RetainedWhole(policy, lines[0]);
      WholeLinesSurvive(policy, lines[1..]);
      assert Survivor(policy, lines[0]) == [lines[0]];
      assert lines == [lines[0]] + lines[1..];
    }
  }

  /** Nonempty delimiter-free lines within the capacity arrive as they were sent, on either end. */
  lemma LinesArrive(policy: Policy, lines: seq<Bytes>)
    requires AllPlain(CRLF, lines)
    requires forall line :: line in lines ==> 0 < |line| <= Capacity(policy)
    ensures LinesOut(policy, CRLF, [], WireOf(lines)) == lines
    ensures Buffer(policy, CRLF, [], WireOf(lines)) == []
  {
    ReceiverLaw(policy, CRLF, WireOf(lines));
    SentLines(policy, lines);
    WholeLinesSurvive(policy, lines);
  }

  lemma {:induction false} SurvivorsShort(policy: Policy, runs: seq<Bytes>)
    ensures forall line :: line in Survivors(policy, runs) ==> 0 < |line| <= Capacity(policy)
    ensures forall delims :: AllPlain(delims, runs) ==> AllPlain(delims, Survivors(policy, runs))
  {
    if runs != [] {
      SurvivorsShort(policy, runs[1..]);
      RetainedWhole(policy, runs[0]);
      forall delims | AllPlain(delims, runs)
        ensures AllPlain(delims, Survivors(policy, runs))
      {
        assert runs[0] in runs && forall run :: run in runs[1..] ==> run in runs;
        assert AllPlain(delims, runs[1..]);
        assert Plain(delims, runs[0]);
      }
    }
  }

  /** Nothing longer than the capacity, and nothing with a delimiter in it, ever comes out. */
  lemma OnlyShortPlainLines(policy: Policy, delims: Bytes, wire: Bytes)
    ensures forall line :: line in LinesOut(policy, delims, [], wire) ==>
              0 < |line| <= Capacity(policy) && Plain(delims, line)
  {
    ReceiverLaw(policy, delims, wire);
    RunsReassemble(delims, [], wire);
    SurvivorsShort(policy, Runs(delims, [], wire));
  }
}
