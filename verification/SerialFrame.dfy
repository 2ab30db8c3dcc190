/** The byte-stuffed framing of examples/espUdp/components/spine/SerialFrame.cpp: octet stuffing
    as in section 4.2 of RFC 1662 with the flag of its section 3.1, and a receiver that differs
    from that standard in three ways. A flag does not cancel a pending escape, an escaped byte
    is stored without looking at the frame limit, and an overflow empties the buffer in the
    middle of a frame whose tail is then delivered all the same. */
module SerialFrame {
  import opened Words
  import opened ByteStrings
  import opened Folds

  const MASK: Byte := 0x20
  const ESC: Byte := 0x7D
  const FLAG: Byte := 0x7E
  const FRAME_MAX: nat := 128

  predicate Special(c: Byte) {
    c == ESC || c == FLAG
  }

  // ----- sender

  function Stuffed(c: Byte): Bytes {
    if Special(c) then [ESC, Xor8(c, MASK)] else [c]
  }

  function Stuff(x: Bytes): Bytes {
    if x == [] then [] else Stuffed(x[0]) + Stuff(x[1..])
  }

  function Encode(x: Bytes): Bytes {
    [FLAG] + Stuff(x) + [FLAG]
  }

  function EncodeAll(xs: seq<Bytes>): Bytes {
    if xs == [] then [] else Encode(xs[0]) + EncodeAll(xs[1..])
  }

  lemma {:induction false} StuffAppend(x: Bytes, y: Bytes)
    ensures Stuff(x + y) == Stuff(x) + Stuff(y)
  {
    if x == [] {
      assert x + y == y;
    } else {
      assert (x + y)[1..] == x[1..] + y;
      StuffAppend(x[1..], y);
    }
  }

  lemma StuffOneMore(so: Bytes, c: Byte, more: Bytes)
    requires more == so + [c]
    ensures Stuff(more) == Stuff(so) + Stuffed(c)
  {
    StuffAppend(so, [c]);
    assert Stuff([c]) == Stuffed(c) + Stuff([]);
  }

  /** `addEscaped`; `out` is the vector it grows. */
  method AddEscaped(out: Bytes, c: Byte) returns (grown: Bytes)
    ensures grown == out + Stuffed(c)
    ensures c == 0x7D ==> grown == out + [0x7D, 0x5D]
    ensures c == 0x7E ==> grown == out + [0x7D, 0x5E]
    ensures c != 0x7D && c != 0x7E ==> grown == out + [c]
  {
    XorMask(c);
    grown := out;
    if c == ESC || c == FLAG {
      grown := grown + [ESC];
      grown := grown + [Xor8(c, MASK)];
    } else {
      grown := grown + [c];
    }
  }

  method Frame(data: Bytes) returns (out: Bytes)
    ensures out == Encode(data)
    ensures |out| >= 2 && out[0] == 0x7E == out[|out| - 1]
  {
    out := [FLAG];
    for i := 0 to |data|
      invariant out == [FLAG] + Stuff(data[..i])
    {
      StuffOneMore(data[..i], data[i], data[..i + 1]);
      out := AddEscaped(out, data[i]);
    }
    assert data[..|data|] == data;
    out := out + [FLAG];
  }

  // ----- receiver

  datatype Receiver = Receiver(frame: Bytes, esc: bool)

  /** `Drop` is an overflow: the buffer and the byte that found no room are lost. */
  datatype Event = Emit(frame: Bytes) | Drop(lost: Bytes, byte: Byte)

  const CLEAN := Receiver([], false)

  function NextState(s: Receiver, c: Byte): Receiver {
    if c == ESC then s.(esc := true)
    else if c == FLAG then s.(frame := [])
    else if s.esc then Receiver(s.frame + [Xor8(c, MASK)], false)
    else if |s.frame| < FRAME_MAX then s.(frame := s.frame + [c])
    else s.(frame := [])
  }

  function Events(s: Receiver, c: Byte): seq<Event> {
    if c == ESC then []
    else if c == FLAG then if |s.frame| > 0 then [Emit(s.frame)] else []
    else if s.esc || |s.frame| < FRAME_MAX then []
    else [Drop(s.frame, c)]
  }

  function RunState(s: Receiver, wire: Bytes): Receiver
    decreases |wire|
  {
    if wire == [] then s else RunState(NextState(s, wire[0]), wire[1..])
  }

  function RunEvents(s: Receiver, wire: Bytes): seq<Event>
    decreases |wire|
  {
    if wire == [] then [] else Events(s, wire[0]) + RunEvents(NextState(s, wire[0]), wire[1..])
  }

  function Emitted(events: seq<Event>): seq<Bytes> {
    if events == [] then []
    else if events[0].Emit? then [events[0].frame] + Emitted(events[1..])
    else Emitted(events[1..])
  }

  function Drops(events: seq<Event>): nat {
    if events == [] then 0 else (if events[0].Drop? then 1 else 0) + Drops(events[1..])
  }

  lemma {:induction false} EventsAppend(a: seq<Event>, b: seq<Event>)
    ensures Emitted(a + b) == Emitted(a) + Emitted(b)
    ensures Drops(a + b) == Drops(a) + Drops(b)
  {
    if a == [] {
      assert a + b == b;
    } else {
      assert (a + b)[1..] == a[1..] + b;
      EventsAppend(a[1..], b);
    }
  }

  lemma {:induction false} RunAppend(s: Receiver, v: Bytes, w: Bytes)
    ensures RunState(s, v + w) == RunState(RunState(s, v), w)
    ensures RunEvents(s, v + w) == RunEvents(s, v) + RunEvents(RunState(s, v), w)
    decreases |v|
  {
    if v == [] {
      assert v + w == w;
    } else {
      assert (v + w)[1..] == v[1..] + w;
      var t := NextState(s, v[0]);
      RunAppend(t, v[1..], w);
      assert RunEvents(s, v + w) == Events(s, v[0]) + RunEvents(t, v[1..] + w);
    }
  }

  lemma RunOneMore(s: Receiver, seen: Bytes, c: Byte, more: Bytes)
    requires more == seen + [c]
    ensures RunState(s, more) == NextState(RunState(s, seen), c)
    ensures RunEvents(s, more) == RunEvents(s, seen) + Events(RunState(s, seen), c)
  {
    var t := RunState(s, seen);
    RunAppend(s, seen, [c]);
    assert RunEvents(t, [c]) == Events(t, c) + [];
  }

  lemma CountsAdd(count: nat, x: nat, y: nat, z: nat, so: UInt32, now: UInt32)
    requires so == Wrap32(count + x) && now == Wrap32(so + y) && z == x + y
    ensures now == Wrap32(count + z)
  {
    Wrap32Adds(count + x, y);
  }

  /** What a port that started with this queue and count has put out after these events. */
  predicate HasPutOut(queue: seq<Bytes>, count: UInt32, events: seq<Event>, out: seq<Bytes>, overflow: UInt32) {
    out == queue + Emitted(events) && overflow == Wrap32(count + Drops(events))
  }

  lemma PutOutOneMore(queue: seq<Bytes>, count: UInt32, so: seq<Event>, now: seq<Event>, events: seq<Event>,
                      out: seq<Bytes>, overflow: UInt32, outNow: seq<Bytes>, overflowNow: UInt32)
    requires HasPutOut(queue, count, so, out, overflow) && HasPutOut(out, overflow, now, outNow, overflowNow)
    requires events == so + now
    ensures HasPutOut(queue, count, events, outNow, overflowNow)
  {
    EventsAppend(so, now);
    CountsAdd(count, Drops(so), Drops(now), Drops(events), overflow, overflowNow);
    Associative(queue, Emitted(so), Emitted(now));
  }

  /** The receiving half of `class SerialFrame`. */
  class SerialPort {
    var frameRxd: Bytes
    var escFlag: bool
    var rxdOverflow: UInt32
    var rxdFrame: seq<Bytes> // what has been put into the outgoing queue

    constructor ()
      ensures State() == CLEAN && rxdOverflow == 0 && rxdFrame == []
    {
      frameRxd, escFlag, rxdOverflow, rxdFrame := [], false, 0, [];
    }

    function State(): Receiver
      reads this
    {
      Receiver(frameRxd, escFlag)
    }

    method RxdByte(c: Byte)
      modifies this
      ensures State() == NextState(old(State()), c)
      ensures rxdFrame == old(rxdFrame) + Emitted(Events(old(State()), c))
      ensures rxdOverflow == Wrap32(old(rxdOverflow) + Drops(Events(old(State()), c)))
    {
      if c == ESC {
        escFlag := true;
      } else if c == FLAG {
        if |frameRxd| > 0 {
          rxdFrame := rxdFrame + [frameRxd];
        }
        frameRxd := [];
      } else if escFlag {
        frameRxd := frameRxd + [Xor8(c, MASK)];
        escFlag := false;
      } else {
        if |frameRxd| < FRAME_MAX {
          frameRxd := frameRxd + [c];
        } else {
          rxdOverflow := Wrap32(rxdOverflow + 1);
          frameRxd := [];
        }
      }
    }

    /** `onRxd`: every byte the UART holds, in order. */
    method OnRxd(wire: Bytes)
      modifies this
      ensures State() == RunState(old(State()), wire)
      ensures rxdFrame == old(rxdFrame) + Emitted(RunEvents(old(State()), wire))
      ensures rxdOverflow == Wrap32(old(rxdOverflow) + Drops(RunEvents(old(State()), wire)))
    {
      ghost var s, queue, count := State(), rxdFrame, rxdOverflow;
      assert queue + [] == queue;
      ghost var seen: Bytes := [];
      var i := 0;
      while i < |wire|
        invariant 0 <= i <= |wire| && seen == wire[..i]
        invariant State() == RunState(s, seen)
        invariant HasPutOut(queue, count, RunEvents(s, seen), rxdFrame, rxdOverflow)
      {
        ghost var more := seen + [wire[i]];
        RunOneMore(s, seen, wire[i], more);
        ghost var now, out, overflow := Events(State(), wire[i]), rxdFrame, rxdOverflow;
        RxdByte(wire[i]);
        PutOutOneMore(queue, count, RunEvents(s, seen), now, RunEvents(s, more), out, overflow, rxdFrame, rxdOverflow);
        seen := more;
        i := i + 1;
      }
      assert seen == wire;
    }
  }
}
