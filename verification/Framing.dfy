/** Line framing on a serial link: the bridge's `Framing` and `Deframer` (src/Framing.cpp) and
    the device's `handle_byte` (examples/basicPubSub/src/main.cpp). The two ends cut lines at
    the same bytes but get rid of overlong ones by different rules. */
module Framing {
  import opened Words
  import opened ByteStrings
  import opened Modulo

  /** When a receive buffer is emptied because it is too long: the bridge looks before it adds
      a byte, the device afterwards. */
  datatype Policy = ClearBefore(limit: nat) | ClearAfter(limit: nat)

  function Push(policy: Policy, buffer: Bytes, c: Byte): Bytes {
    match policy
    case ClearBefore(limit) => if |buffer| > limit then [c] else buffer + [c]
    case ClearAfter(limit) => if |buffer| + 1 > limit then [] else buffer + [c]
  }

  function NextBuffer(policy: Policy, delims: Bytes, buffer: Bytes, c: Byte): Bytes {
    if c in delims then [] else Push(policy, buffer, c)
  }

  function LineOut(delims: Bytes, buffer: Bytes, c: Byte): seq<Bytes> {
    if c in delims && |buffer| > 0 then [buffer] else []
  }

  function Buffer(policy: Policy, delims: Bytes, buffer: Bytes, wire: Bytes): Bytes
    decreases |wire|
  {
    if wire == [] then buffer else Buffer(policy, delims, NextBuffer(policy, delims, buffer, wire[0]), wire[1..])
  }

  function LinesOut(policy: Policy, delims: Bytes, buffer: Bytes, wire: Bytes): seq<Bytes>
    decreases |wire|
  {
    if wire == [] then []
    else
      LineOut(delims, buffer, wire[0])
      + LinesOut(policy, delims, NextBuffer(policy, delims, buffer, wire[0]), wire[1..])
  }

  lemma {:induction false} FeedAppend(policy: Policy, delims: Bytes, buffer: Bytes, v: Bytes, w: Bytes)
    ensures Buffer(policy, delims, buffer, v + w) == Buffer(policy, delims, Buffer(policy, delims, buffer, v), w)
    ensures LinesOut(policy, delims, buffer, v + w)
         == LinesOut(policy, delims, buffer, v) + LinesOut(policy, delims, Buffer(policy, delims, buffer, v), w)
    decreases |v|
  {
    if v == [] {
      assert v + w == w;
    } else {
      var next := NextBuffer(policy, delims, buffer, v[0]);
      assert (v + w)[1..] == v[1..] + w;
      FeedAppend(policy, delims, next, v[1..], w);
      assert LinesOut(policy, delims, buffer, v + w)
          == LineOut(delims, buffer, v[0]) + LinesOut(policy, delims, next, v[1..] + w);
    }
  }

  lemma FeedOneMore(policy: Policy, delims: Bytes, buffer: Bytes, wire: Bytes, i: nat)
    requires i < |wire|
    ensures Buffer(policy, delims, buffer, wire[..i + 1])
         == NextBuffer(policy, delims, Buffer(policy, delims, buffer, wire[..i]), wire[i])
    ensures LinesOut(policy, delims, buffer, wire[..i + 1])
         == LinesOut(policy, delims, buffer, wire[..i])
          + LineOut(delims, Buffer(policy, delims, buffer, wire[..i]), wire[i])
  {
    var b := Buffer(policy, delims, buffer, wire[..i]);
    assert wire[..i + 1] == wire[..i] + [wire[i]];
    FeedAppend(policy, delims, buffer, wire[..i], [wire[i]]);
    assert LinesOut(policy, delims, b, [wire[i]]) == LineOut(delims, b, wire[i]) + [];
  }

  // ----- the two ends

  class Deframer {
    var buffer: Bytes
    const maxFrameLength: nat
    const delimiter: Bytes
    var emitted: seq<Bytes>
    ghost var received: Bytes // everything since construction, however it was chunked

    ghost predicate Valid()
      reads this
    {
      && buffer == Buffer(ClearBefore(maxFrameLength), delimiter, [], received)
      && emitted == LinesOut(ClearBefore(maxFrameLength), delimiter, [], received)
    }

    constructor (delimiter: Bytes, maxFrameLength: nat)
      ensures Valid() && received == [] && emitted == []
      ensures this.delimiter == delimiter && this.maxFrameLength == maxFrameLength
    {
      this.delimiter, this.maxFrameLength := delimiter, maxFrameLength;
      buffer, emitted, received := [], [], [];
    }

    method On(data: Bytes)
      requires Valid()
      modifies this
      ensures Valid() && received == old(received) + data
      ensures buffer == Buffer(ClearBefore(maxFrameLength), delimiter, old(buffer), data)
      ensures emitted == old(emitted) + LinesOut(ClearBefore(maxFrameLength), delimiter, old(buffer), data)
    {
      ghost var policy := ClearBefore(maxFrameLength);
      ghost var before := received;
      FeedAppend(policy, delimiter, [], received, data);
      for i := 0 to |data|
        invariant Valid() && received == before + data[..i]
      {
        var c := data[i];
        assert received + [c] == before + data[..i + 1];
        FeedOneMore(policy, delimiter, [], received + [c], |received|);
        assert (received + [c])[..|received|] == received && (received + [c])[..|received| + 1] == received + [c];
        if c in delimiter {
          if |buffer| > 0 {
            emitted := emitted + [buffer];
            buffer := [];
          }
        } else {
          if |buffer| > maxFrameLength {
            buffer := [];
          }
          buffer := buffer + [c];
        }
        received := received + [c];
      }
      assert data[..|data|] == data;
    }
  }

  /** The receiving half of the device's `SerialPubSub`. */
  class SerialPubSub {
    var buffer: Bytes
    var handled: seq<Bytes> // the arguments `handle_line` has been called with
    ghost var received: Bytes

    ghost predicate Valid()
      reads this
    {
      && buffer == Buffer(ClearAfter(512), [CR, LF], [], received)
      && handled == LinesOut(ClearAfter(512), [CR, LF], [], received)
      && |buffer| <= 512
    }

    constructor ()
      ensures Valid() && received == [] && handled == []
    {
      buffer, handled, received := [], [], [];
    }

    method HandleByte(b: Byte)
      requires Valid()
      modifies this
      ensures Valid() && received == old(received) + [b]
      ensures buffer == NextBuffer(ClearAfter(512), [CR, LF], old(buffer), b)
      ensures handled == old(handled) + LineOut([CR, LF], old(buffer), b)
    {
      FeedOneMore(ClearAfter(512), [CR, LF], [], received + [b], |received|);
      assert (received + [b])[..|received|] == received && (received + [b])[..|received| + 1] == received + [b];
      if b == CR || b == LF {
        if |buffer| > 0 {
          handled := handled + [buffer];
        }
        buffer := [];
      } else {
        buffer := buffer + [b];
      }
      if |buffer| > 512 {
        buffer := [];
      }
      received := received + [b];
    }

    method Rxd(data: Bytes)
      requires Valid()
      modifies this
      ensures Valid() && received == old(received) + data
    {
      for i := 0 to |data|
        invariant Valid() && received == old(received) + data[..i]
      {
        HandleByte(data[i]);
        assert data[..i + 1] == data[..i] + [data[i]];
      }
      assert data[..|data|] == data;
    }
  }

  /** The frame flow of the bridge: `out` is the vector it appends to. */
  method FrameInto(out: Bytes, data: Bytes, delimiter: Bytes) returns (grown: Bytes)
    ensures grown == out + data + delimiter
  {
    grown := out + data;
    for i := 0 to |delimiter|
      invariant grown == out + data + delimiter[..i]
    {
      grown := grown + [delimiter[i]];
      assert delimiter[..i + 1] == delimiter[..i] + [delimiter[i]];
    }
    assert delimiter[..|delimiter|] == delimiter;
  }

  // ----- the splitter both refine

  /** The runs that delimiters end, empty ones included, `pending` being an unfinished first one. */
  function Runs(delims: Bytes, pending: Bytes, wire: Bytes): seq<Bytes>
    decreases |wire|
  {
    if wire == [] then []
    else if wire[0] in delims then [pending] + Runs(delims, [], wire[1..])
    else Runs(delims, pending + [wire[0]], wire[1..])
  }

  /** The run still open at the end. */
  function OpenRun(delims: Bytes, pending: Bytes, wire: Bytes): Bytes
    decreases |wire|
  {
    if wire == [] then pending
    else if wire[0] in delims then OpenRun(delims, [], wire[1..])
    else OpenRun(delims, pending + [wire[0]], wire[1..])
  }

  /** How many bytes of an n-byte run the buffer holds. */
  function Kept(policy: Policy, n: nat): (k: nat)
    ensures k <= n
    ensures policy.ClearBefore? ==> k <= policy.limit + 1 && (n > 0 ==> k > 0)
    ensures policy.ClearAfter? ==> k <= policy.limit
  {
    match policy
    case ClearBefore(limit) => if n == 0 then 0 else ModBounds(n - 1, limit + 1); (n - 1) % (limit + 1) + 1
    case ClearAfter(limit) => ModBounds(n, limit + 1); n % (limit + 1)
  }

  function Retained(policy: Policy, run: Bytes): Bytes {
    run[|run| - Kept(policy, |run|)..]
  }

  lemma PushRetained(policy: Policy, run: Bytes, c: Byte)
    ensures Push(policy, Retained(policy, run), c) == Retained(policy, run + [c])
  {
    var n, k := |run|, policy.limit + 1;
    if policy.ClearBefore? {
      if n > 0 {
        ModNext(n - 1, k);
      } else {
        ModUnique(0, k, 0, 0);
      }
    } else {
      ModNext(n, k);
    }
  }

  function Survivor(policy: Policy, run: Bytes): seq<Bytes> {
    if Retained(policy, run) == [] then [] else [Retained(policy, run)]
  }

  /** What comes out of a list of finished runs. */
  function Survivors(policy: Policy, runs: seq<Bytes>): seq<Bytes> {
    if runs == [] then [] else Survivor(policy, runs[0]) + Survivors(policy, runs[1..])
  }

  /** Whatever its chunks were, the input comes out as its runs, each cut to its retained end. */
  lemma {:induction false} FeedRefinesSplitter(policy: Policy, delims: Bytes, pending: Bytes, wire: Bytes)
    ensures Buffer(policy, delims, Retained(policy, pending), wire) == Retained(policy, OpenRun(delims, pending, wire))
    ensures LinesOut(policy, delims, Retained(policy, pending), wire)
         == Survivors(policy, Runs(delims, pending, wire))
    decreases |wire|
  {
    if wire != [] {
      var held, rest := Retained(policy, pending), wire[1..];
      if wire[0] in delims {
        FeedRefinesSplitter(policy, delims, [], rest);
        assert NextBuffer(policy, delims, held, wire[0]) == Retained(policy, []);
        SurvivorsFirst(policy, pending, Runs(delims, [], rest));
      } else {
        PushRetained(policy, pending, wire[0]);
        FeedRefinesSplitter(policy, delims, pending + [wire[0]], rest);
      }
    }
  }

  lemma SurvivorsFirst(policy: Policy, run: Bytes, rest: seq<Bytes>)
    ensures Survivors(policy, [run] + rest) == Survivor(policy, run) + Survivors(policy, rest)
  {
  }
}
