/** What survives the byte-stuffed link: wire facts, conservation, the exact round trip, and
    recovery from any receiver state. */
module StuffingLaws {
  import opened Words
  import opened ByteStrings
  import opened SerialFrame

  // ----- the wire

  function Specials(x: Bytes): nat {
    if x == [] then 0 else (if Special(x[0]) then 1 else 0) + Specials(x[1..])
  }

  lemma MaskSpecial(c: Byte)
    ensures Xor8(Xor8(c, MASK), MASK) == c && Xor8(c, MASK) != c
    ensures Special(c) ==> !Special(Xor8(c, MASK))
  {
    XorTwice(c, MASK);
    XorMask(c);
  }

  /** The bytes on the wire, by number. */
  lemma StuffedByNumber(c: Byte)
    ensures Stuffed(c) == if c == 0x7D then [0x7D, 0x5D] else if c == 0x7E then [0x7D, 0x5E] else [c]
  {
    XorMask(c);
  }

  lemma EncodedByNumber(x: Bytes, c: Byte)
    ensures Encode(x) == [0x7E] + Stuff(x) + [0x7E] && Stuff([]) == []
    ensures Stuff(x + [c])
         == Stuff(x) + if c == 0x7D then [0x7D, 0x5D] else if c == 0x7E then [0x7D, 0x5E] else [c]
  {
    StuffedByNumber(c);
    StuffOneMore(x, c, x + [c]);
  }

  /** Anything without the two special bytes goes out as it is, between flags. */
  lemma {:induction false} PlainOnTheWire(x: Bytes)
    requires forall c :: c in x ==> c != 0x7D && c != 0x7E
    ensures Encode(x) == [0x7E] + x + [0x7E] && Stuff(x) == x
  {
    if x != [] {
      var n := |x| - 1;
      assert x == x[..n] + [x[n]] && x[n] in x && forall c :: c in x[..n] ==> c in x;
      PlainOnTheWire(x[..n]);
      EncodedByNumber(x[..n], x[n]);
    }
  }

  /** What the receiver makes of the bytes on the wire, by number: of an escaped byte, of the two
      special bytes, and of an ordinary one before and after its buffer is full. */
  lemma ReceivedByNumber(f: Bytes, esc: bool, d: Byte)
    ensures d != 0x7D && d != 0x7E ==>
      RunState(Receiver(f, esc), [0x7D, d]) == Receiver(f + [if d / 0x20 % 2 == 0 then d + 0x20 else d - 0x20], false)
      && RunEvents(Receiver(f, esc), [0x7D, d]) == []
    ensures RunState(Receiver(f, esc), [0x7D]) == Receiver(f, true) && RunEvents(Receiver(f, esc), [0x7D]) == []
    ensures RunState(Receiver(f, esc), [0x7E]) == Receiver([], esc)
    ensures RunEvents(Receiver(f, esc), [0x7E]) == if f == [] then [] else [Emit(f)]
    ensures d != 0x7D && d != 0x7E && |f| < 128 ==>
      RunState(Receiver(f, false), [d]) == Receiver(f + [d], false) && RunEvents(Receiver(f, false), [d]) == []
    ensures d != 0x7D && d != 0x7E && |f| >= 128 ==>
      RunState(Receiver(f, false), [d]) == CLEAN && RunEvents(Receiver(f, false), [d]) == [Drop(f, d)]
  {
    RunOne(Receiver(f, esc), 0x7D);
    RunOne(Receiver(f, esc), 0x7E);
    RunOne(Receiver(f, false), d);
    RunTwo(Receiver(f, esc), 0x7D, d);
    XorMask(d);
  }

  /** Between its two flags an encoding has none, and one extra byte for each special one. */
  lemma {:induction false} StuffedWire(x: Bytes)
    ensures FLAG !in Stuff(x)
    ensures |Encode(x)| == |x| + Specials(x) + 2
  {
    if x != [] {
      MaskSpecial(x[0]);
      StuffedWire(x[1..]);
    }
  }

  /** One byte can be read back off the front of what follows it. */
  lemma StuffedPrefix(c: Byte, d: Byte, v: Bytes, w: Bytes)
    requires Stuffed(c) + v == Stuffed(d) + w
    ensures c == d && v == w
  {
    MaskSpecial(c);
    MaskSpecial(d);
    var l, r := Stuffed(c) + v, Stuffed(d) + w;
    assert l[0] == Stuffed(c)[0] && r[0] == Stuffed(d)[0];
    if Special(c) {
      assert l[1] == Xor8(c, MASK) && r[1] == Xor8(d, MASK);
      assert l[2..] == v && r[2..] == w;
    } else {
      assert l[1..] == v && r[1..] == w;
    }
  }

  lemma StuffedNoFlag(c: Byte, rest: Bytes, w: Bytes)
    ensures Stuffed(c) + rest != [FLAG] + w
  {
    assert (Stuffed(c) + rest)[0] == Stuffed(c)[0];
    assert ([FLAG] + w)[0] == FLAG;
  }

  lemma FirstIsStuffed(x: Bytes, tail: Bytes)
    requires x != []
    ensures Stuff(x) + tail == Stuffed(x[0]) + (Stuff(x[1..]) + tail)
  {
  }

  lemma SameTail(c: Byte, v: Bytes, w: Bytes)
    requires [c] + v == [c] + w
    ensures v == w
  {
    assert v == ([c] + v)[1..] && w == ([c] + w)[1..];
  }

  lemma {:induction false} FramePrefix(x: Bytes, y: Bytes, v: Bytes, w: Bytes)
    requires Stuff(x) + ([FLAG] + v) == Stuff(y) + ([FLAG] + w)
    ensures x == y && v == w
  {
    assert [] + ([FLAG] + v) == [FLAG] + v && [] + ([FLAG] + w) == [FLAG] + w;
    if x != [] {
      FirstIsStuffed(x, [FLAG] + v);
    }
    if y != [] {
      FirstIsStuffed(y, [FLAG] + w);
    }
    if x == [] && y == [] {
      SameTail(FLAG, v, w);
    } else if x == [] {
      StuffedNoFlag(y[0], Stuff(y[1..]) + ([FLAG] + w), v);
    } else if y == [] {
      StuffedNoFlag(x[0], Stuff(x[1..]) + ([FLAG] + v), w);
    } else {
      StuffedPrefix(x[0], y[0], Stuff(x[1..]) + ([FLAG] + v), Stuff(y[1..]) + ([FLAG] + w));
      FramePrefix(x[1..], y[1..], v, w);
      assert x == [x[0]] + x[1..] && y == [y[0]] + y[1..];
    }
  }

  lemma FirstIsEncoded(xs: seq<Bytes>)
    requires xs != []
    ensures EncodeAll(xs) == [FLAG] + (Stuff(xs[0]) + ([FLAG] + EncodeAll(xs[1..])))
  {
  }

  /** A stream of encodings can be cut up and decoded in one way only. */
  lemma {:induction false} UniquelyDecodable(xs: seq<Bytes>, ys: seq<Bytes>)
    requires EncodeAll(xs) == EncodeAll(ys)
    ensures xs == ys
  {
    if xs != [] && ys != [] {
      var l, r := [FLAG] + EncodeAll(xs[1..]), [FLAG] + EncodeAll(ys[1..]);
      FirstIsEncoded(xs);
      FirstIsEncoded(ys);
      SameTail(FLAG, Stuff(xs[0]) + l, Stuff(ys[0]) + r);
      FramePrefix(xs[0], ys[0], EncodeAll(xs[1..]), EncodeAll(ys[1..]));
      UniquelyDecodable(xs[1..], ys[1..]);
      assert xs == [xs[0]] + xs[1..] && ys == [ys[0]] + ys[1..];
    }
  }

  // ----- conservation

  /** The data byte, if any, that one byte on the wire brings. */
  function Datum(esc: bool, c: Byte): Bytes {
    if Special(c) then [] else [if esc then Xor8(c, MASK) else c]
  }

  /** The data bytes on a wire, unescaped. */
  function Data(esc: bool, wire: Bytes): Bytes
    decreases |wire|
  {
    if wire == [] then []
    else
      var c := wire[0];
      Datum(esc, c) + Data(c == ESC || (c == FLAG && esc), wire[1..])
  }

  /** The bytes that went out in frames or were lost, in order. */
  function Accounted(events: seq<Event>): Bytes {
    if events == [] then []
    else (match events[0]
          case Emit(f) => f
          case Drop(lost, c) => lost + [c]) + Accounted(events[1..])
  }

  lemma {:induction false} AccountedAppend(a: seq<Event>, b: seq<Event>)
    ensures Accounted(a + b) == Accounted(a) + Accounted(b)
  {
    if a == [] {
      assert a + b == b;
    } else {
      assert (a + b)[1..] == a[1..] + b;
      AccountedAppend(a[1..], b);
    }
  }

  lemma ConservationStep(s: Receiver, c: Byte)
    ensures s.frame + Datum(s.esc, c) == Accounted(Events(s, c)) + NextState(s, c).frame
  {
  }

  lemma Regroup(f: Bytes, d: Bytes, rest: Bytes, a: Bytes, g: Bytes, b: Bytes, h: Bytes)
    requires f + d == a + g && g + rest == b + h
    ensures f + (d + rest) == (a + b) + h
  {
    assert f + (d + rest) == (f + d) + rest;
    assert (a + g) + rest == a + (g + rest);
    assert a + (b + h) == (a + b) + h;
  }

  /** From any state and over any stream, every data byte is delivered, still buffered, or lost
      in a counted overflow: exactly once, and in order. */
  lemma {:induction false} Conservation(s: Receiver, wire: Bytes)
    ensures s.frame + Data(s.esc, wire) == Accounted(RunEvents(s, wire)) + RunState(s, wire).frame
    decreases |wire|
  {
    if wire != [] {
      var t := NextState(s, wire[0]);
      ConservationStep(s, wire[0]);
      Conservation(t, wire[1..]);
      AccountedAppend(Events(s, wire[0]), RunEvents(t, wire[1..]));
      Regroup(s.frame, Datum(s.esc, wire[0]), Data(t.esc, wire[1..]),
              Accounted(Events(s, wire[0])), t.frame, Accounted(RunEvents(t, wire[1..])), RunState(t, wire[1..]).frame);
    }
  }

  // ----- what a payload does to the buffer

  /** The buffer after the stuffed bytes of `x`, and the overflows on the way. */
  function Buffered(f: Bytes, x: Bytes): Bytes
    decreases |x|
  {
    if x == [] then f
    else Buffered(if Special(x[0]) || |f| < FRAME_MAX then f + [x[0]] else [], x[1..])
  }

  function Overflows(f: Bytes, x: Bytes): seq<Event>
    decreases |x|
  {
    if x == [] then []
    else if Special(x[0]) || |f| < FRAME_MAX then Overflows(f + [x[0]], x[1..])
    else [Drop(f, x[0])] + Overflows([], x[1..])
  }

  lemma RunTwo(s: Receiver, c: Byte, d: Byte)
    ensures RunState(s, [c, d]) == NextState(NextState(s, c), d)
    ensures RunEvents(s, [c, d]) == Events(s, c) + Events(NextState(s, c), d)
  {
    assert [c, d] == [c] + [d];
    RunAppend(s, [c], [d]);
    RunOne(s, c);
    RunOne(NextState(s, c), d);
  }

  lemma RunOne(s: Receiver, c: Byte)
    ensures RunState(s, [c]) == NextState(s, c)
    ensures RunEvents(s, [c]) == Events(s, c)
  {
  }

  lemma RunStuffed(f: Bytes, c: Byte)
    ensures RunState(Receiver(f, false), Stuffed(c)) == Receiver(Buffered(f, [c]), false)
    ensures RunEvents(Receiver(f, false), Stuffed(c)) == Overflows(f, [c])
  {
    var s := Receiver(f, false);
    MaskSpecial(c);
    if Special(c) {
      RunTwo(s, ESC, Xor8(c, MASK));
    } else {
      RunOne(s, c);
    }
  }

  lemma {:induction false} RunStuff(f: Bytes, x: Bytes)
    ensures RunState(Receiver(f, false), Stuff(x)) == Receiver(Buffered(f, x), false)
    ensures RunEvents(Receiver(f, false), Stuff(x)) == Overflows(f, x)
    decreases |x|
  {
    if x != [] {
      var g := Buffered(f, [x[0]]);
      RunStuffed(f, x[0]);
      RunStuff(g, x[1..]);
      RunAppend(Receiver(f, false), Stuffed(x[0]), Stuff(x[1..]));
      assert Overflows(f, x) == Overflows(f, [x[0]]) + Overflows(g, x[1..]);
    }
  }

  /** A frame survives if nothing but special bytes stands at index 128 or beyond. */
  predicate Fits(x: Bytes) {
    forall i :: FRAME_MAX <= i < |x| ==> Special(x[i])
  }

  lemma {:induction false} FittingIsBuffered(f: Bytes, x: Bytes)
    requires forall i :: 0 <= i < |x| && |f| + i >= FRAME_MAX ==> Special(x[i])
    ensures Buffered(f, x) == f + x && Overflows(f, x) == []
    decreases |x|
  {
    if x != [] {
      FittingIsBuffered(f + [x[0]], x[1..]);
      assert (f + [x[0]]) + x[1..] == f + x;
    }
  }

  lemma {:induction false} BufferedLength(f: Bytes, x: Bytes)
    ensures |Buffered(f, x)| <= |f| + |x|
    ensures Overflows(f, x) != [] ==> |Buffered(f, x)| < |x|
    decreases |x|
  {
    if x != [] {
      BufferedLength(f + [x[0]], x[1..]);
      BufferedLength([], x[1..]);
    }
  }

  lemma {:induction false} MisfitOverflows(f: Bytes, x: Bytes, i: nat)
    requires i < |x| && |f| + i >= FRAME_MAX && !Special(x[i])
    ensures Overflows(f, x) != []
    decreases |x|
  {
    if i > 0 {
      MisfitOverflows(f + [x[0]], x[1..], i - 1);
    }
  }

  lemma {:induction false} OverflowsAreDrops(f: Bytes, x: Bytes)
    ensures Emitted(Overflows(f, x)) == [] && Drops(Overflows(f, x)) == |Overflows(f, x)|
    decreases |x|
  {
    if x != [] {
      OverflowsAreDrops(f + [x[0]], x[1..]);
      OverflowsAreDrops([], x[1..]);
    }
  }

  lemma {:induction false} BufferedOneMore(f: Bytes, x: Bytes, c: Byte)
    ensures var g := Buffered(f, x);
            if Special(c) || |g| < FRAME_MAX
            then Buffered(f, x + [c]) == g + [c] && |Overflows(f, x + [c])| == |Overflows(f, x)|
            else Buffered(f, x + [c]) == [] && |Overflows(f, x + [c])| == |Overflows(f, x)| + 1
    decreases |x|
  {
    if x != [] {
      assert (x + [c])[1..] == x[1..] + [c];
      BufferedOneMore(if Special(x[0]) || |f| < FRAME_MAX then f + [x[0]] else [], x[1..], c);
    }
  }

  /** Of a payload of ordinary bytes every full 129 are lost and the rest is what is delivered. */
  lemma {:induction false} OrdinaryTail(x: Bytes)
    requires forall c :: c in x ==> !Special(c)
    ensures Buffered([], x) == x[|x| - |x| % 129..]
    ensures |Overflows([], x)| == |x| / 129
    decreases |x|
  {
    if x != [] {
      var n := |x| - 1;
      var y, c := x[..n], x[n];
      assert x == y + [c];
      OrdinaryTail(y);
      BufferedOneMore([], y, c);
    }
  }

  // ----- the round trip

  /** A payload between its flags, from a receiver at rest. */
  lemma RunEncoded(x: Bytes)
    ensures RunState(CLEAN, Encode(x)) == CLEAN
    ensures Drops(RunEvents(CLEAN, Encode(x))) == |Overflows([], x)|
    ensures Emitted(RunEvents(CLEAN, Encode(x))) == if Buffered([], x) == [] then [] else [Buffered([], x)]
  {
    var last := Receiver(Buffered([], x), false);
    RunOne(CLEAN, FLAG);
    RunStuff([], x);
    RunOne(last, FLAG);
    RunAppend(CLEAN, [FLAG], Stuff(x));
    RunAppend(CLEAN, [FLAG] + Stuff(x), [FLAG]);
    assert RunEvents(CLEAN, Encode(x)) == Overflows([], x) + Events(last, FLAG);
    OverflowsAreDrops([], x);
    EventsAppend(Overflows([], x), Events(last, FLAG));
  }

  /** The round trip works for exactly the payloads that fit; any other overflows at least
      once and is not among what is delivered. */
  lemma RoundTrip(x: Bytes)
    requires x != []
    ensures Fits(x) <==> Emitted(RunEvents(CLEAN, Encode(x))) == [x]
    ensures Fits(x) <==> Drops(RunEvents(CLEAN, Encode(x))) == 0
    ensures !Fits(x) ==> x !in Emitted(RunEvents(CLEAN, Encode(x)))
    ensures RunState(CLEAN, Encode(x)) == CLEAN
  {
    RunEncoded(x);
    if Fits(x) {
      FittingIsBuffered([], x);
      assert [] + x == x;
    } else {
      var i :| FRAME_MAX <= i < |x| && !Special(x[i]);
      MisfitOverflows([], x, i);
      BufferedLength([], x);
    }
  }

  // ----- streams of payloads

  /** What one payload makes a clean receiver deliver: itself, if it fits, or what is left after
      its last overflow, if anything. */
  function Outcome(x: Bytes): seq<Bytes> {
    if Buffered([], x) == [] then [] else [Buffered([], x)]
  }

  function Outcomes(xs: seq<Bytes>): seq<Bytes> {
    if xs == [] then [] else Outcome(xs[0]) + Outcomes(xs[1..])
  }

  function OverflowCount(xs: seq<Bytes>): nat {
    if xs == [] then 0 else |Overflows([], xs[0])| + OverflowCount(xs[1..])
  }

  predicate Intact(x: Bytes) {
    x != [] && Fits(x)
  }

  predicate Sendable(xs: seq<Bytes>) {
    forall x :: x in xs ==> Intact(x)
  }

  /** Only what fits comes out as it was, and only what does not fit is counted. */
  lemma OutcomeExact(x: Bytes)
    ensures Outcome(x) == [x] <==> Intact(x)
    ensures Overflows([], x) == [] <==> Fits(x)
    ensures !Fits(x) ==> x !in Outcome(x)
  {
    if x != [] {
      RunEncoded(x);
      RoundTrip(x);
    }
  }

  lemma {:induction false} AtMostOneEach(xs: seq<Bytes>)
    ensures |Outcomes(xs)| <= |xs|
  {
    if xs != [] {
      AtMostOneEach(xs[1..]);
    }
  }

  /** From a clean receiver every payload of a list fares as if it were alone. */
  lemma {:induction false} EachForItself(xs: seq<Bytes>)
    ensures RunState(CLEAN, EncodeAll(xs)) == CLEAN
    ensures Emitted(RunEvents(CLEAN, EncodeAll(xs))) == Outcomes(xs)
    ensures Drops(RunEvents(CLEAN, EncodeAll(xs))) == OverflowCount(xs)
  {
    if xs != [] {
      var first, rest := Encode(xs[0]), EncodeAll(xs[1..]);
      RunEncoded(xs[0]);
      EachForItself(xs[1..]);
      RunAppend(CLEAN, first, rest);
      EventsAppend(RunEvents(CLEAN, first), RunEvents(CLEAN, rest));
    }
  }

  lemma SameList<T>(a: T, v: seq<T>, w: seq<T>)
    ensures [a] + v == [a] + w <==> v == w
  {
    assert ([a] + v)[1..] == v && ([a] + w)[1..] == w;
  }

  /** A list comes out as it was exactly if all of it fits. */
  lemma {:induction false} ListExact(xs: seq<Bytes>)
    ensures Outcomes(xs) == xs <==> Sendable(xs)
    ensures Sendable(xs) ==> OverflowCount(xs) == 0
  {
    if xs != [] {
      var x, rest := xs[0], xs[1..];
      assert xs == [x] + rest && x in xs;
      assert Sendable(xs) <==> Intact(x) && Sendable(rest) by {
        assert forall y :: y in xs <==> y == x || y in rest;
      }
      ListExact(rest);
      OutcomeExact(x);
      AtMostOneEach(rest);
      if Outcome(x) != [] {
        var y := Outcome(x)[0];
        assert Outcomes(xs) == [y] + Outcomes(rest);
        SameList(x, Outcomes(rest), rest);
      }
    }
  }

  // ----- recovery

  /** The first payload as it comes out if an escape was pending when it started. */
  function Arrived(esc: bool, x: Bytes): (y: Bytes)
    ensures |y| == |x|
  {
    if esc && x != [] && !Special(x[0]) then [Xor8(x[0], MASK)] + x[1..] else x
  }

  lemma FirstByte(esc: bool, c: Byte)
    ensures var s, d := Receiver([], esc), Arrived(esc, [c])[0];
      && RunState(s, Stuffed(c)) == Receiver([d], false)
      && RunEvents(s, Stuffed(c)) == []
  {
    var s := Receiver([], esc);
    MaskSpecial(c);
    if Special(c) {
      RunTwo(s, ESC, Xor8(c, MASK));
    } else {
      RunOne(s, c);
    }
  }

  lemma RunStuffFirst(esc: bool, x: Bytes, y: Bytes)
    requires x != [] && y == Arrived(esc, x)
    ensures RunState(Receiver([], esc), Stuff(x)) == Receiver(Buffered([], y), false)
    ensures RunEvents(Receiver([], esc), Stuff(x)) == Overflows([], y)
  {
    FirstByte(esc, x[0]);
    RunAppend(Receiver([], esc), Stuffed(x[0]), Stuff(x[1..]));
    RunStuff([y[0]], x[1..]);
    assert y[1..] == x[1..] && [] + [y[0]] == [y[0]];
  }

  function Stale(s: Receiver): seq<Bytes> {
    if s.frame != [] then [s.frame] else []
  }

  lemma FlagFirst(s: Receiver)
    ensures NextState(s, FLAG) == Receiver([], s.esc)
    ensures Emitted(Events(s, FLAG)) == Stale(s) && Drops(Events(s, FLAG)) == 0
  {
  }

  /** One payload into a receiver in any state at all. */
  lemma FirstFrame(s: Receiver, x: Bytes, y: Bytes)
    requires x != [] && y == Arrived(s.esc, x)
    ensures RunState(s, Encode(x)) == CLEAN
    ensures Emitted(RunEvents(s, Encode(x))) == Stale(s) + Outcome(y)
    ensures Drops(RunEvents(s, Encode(x))) == |Overflows([], y)|
  {
    var last := Receiver(Buffered([], y), false);
    RunOne(s, FLAG);
    FlagFirst(s);
    RunStuffFirst(s.esc, x, y);
    RunOne(last, FLAG);
    FlagFirst(last);
    RunAppend(s, [FLAG], Stuff(x));
    RunAppend(s, [FLAG] + Stuff(x), [FLAG]);
    OverflowsAreDrops([], y);
    EventsAppend(Events(s, FLAG), Overflows([], y));
    EventsAppend(Events(s, FLAG) + Overflows([], y), Events(last, FLAG));
    assert Stale(s) + [] == Stale(s);
  }

  /** From any state at all: at most one stale frame, then what the first payload gives, with its
      first byte altered if an escape was pending and it is ordinary, and then every other payload
      as if it were alone. A payload that does not fit damages only itself. */
  lemma AnyList(s: Receiver, xs: seq<Bytes>)
    requires xs != [] && xs[0] != []
    ensures Emitted(RunEvents(s, EncodeAll(xs))) == Stale(s) + Outcome(Arrived(s.esc, xs[0])) + Outcomes(xs[1..])
    ensures Drops(RunEvents(s, EncodeAll(xs)))
         == |Overflows([], Arrived(s.esc, xs[0]))| + OverflowCount(xs[1..])
    ensures RunState(s, EncodeAll(xs)) == CLEAN
  {
    var first, rest := Encode(xs[0]), EncodeAll(xs[1..]);
    FirstFrame(s, xs[0], Arrived(s.esc, xs[0]));
    EachForItself(xs[1..]);
    RunAppend(s, first, rest);
    EventsAppend(RunEvents(s, first), RunEvents(CLEAN, rest));
  }

  lemma ArrivedFits(esc: bool, x: Bytes, y: Bytes)
    requires Intact(x) && y == Arrived(esc, x)
    ensures Outcome(y) == [y] && |Overflows([], y)| == 0
  {
    assert forall i :: 0 < i < |y| ==> y[i] == x[i];
    OutcomeExact(y);
  }

  /** Self-synchronisation: whatever the receiver holds, at most one stale frame comes out, the
      first payload is exact unless an escape was pending and its first byte is ordinary, in
      which case only that byte is altered, and every later payload is exact. */
  lemma SelfSynchronising(s: Receiver, xs: seq<Bytes>)
    requires xs != [] && Sendable(xs)
    ensures Emitted(RunEvents(s, EncodeAll(xs))) == Stale(s) + [Arrived(s.esc, xs[0])] + xs[1..]
    ensures Drops(RunEvents(s, EncodeAll(xs))) == 0
    ensures RunState(s, EncodeAll(xs)) == CLEAN
  {
    assert xs[0] in xs && forall x :: x in xs[1..] ==> x in xs;
    ArrivedFits(s.esc, xs[0], Arrived(s.esc, xs[0]));
    AnyList(s, xs);
    ListExact(xs[1..]);
  }

  /** The alteration, by number. */
  lemma ArrivedByNumber(x: Bytes)
    requires x != []
    ensures Arrived(false, x) == x
    ensures Arrived(true, x) ==
      if x[0] == 0x7D || x[0] == 0x7E then x
      else [if x[0] / 0x20 % 2 == 0 then x[0] + 0x20 else x[0] - 0x20] + x[1..]
  {
    XorMask(x[0]);
  }

  /** The altered payload is never the one sent: a pending escape is always visible. */
  lemma PendingEscapeShows(x: Bytes)
    requires x != []
    ensures Arrived(true, x) == x <==> Special(x[0])
  {
    MaskSpecial(x[0]);
  }
}
