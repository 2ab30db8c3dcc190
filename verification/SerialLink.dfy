/** The CRLF serial link end to end (src/serial2redis.cpp, src/SessionSerial.cpp): checksum,
    framing, partial writes, chunked reads, deframing, checksum again. */
module SerialLink {
  import opened Options
  import opened ByteStrings
  import opened Folds
  import opened Crc16
  import opened CrlfCrc
  import opened Framing
  import opened FramingLaws
  import opened SerialDevice

  const BRIDGE: Policy := ClearBefore(10000)
  const DEVICE: Policy := ClearAfter(512)

  // ----- the specification of a one-way link

  /** The lines sent for these payloads; nothing is sent for an empty one. */
  function SealedLine(signed: bool, payload: Bytes): seq<Bytes> {
    if payload == [] then [] else [SealAs(signed, payload)]
  }

  function SealedLines(signed: bool, payloads: seq<Bytes>): seq<Bytes> {
    if payloads == [] then [] else SealedLine(signed, payloads[0]) + SealedLines(signed, payloads[1..])
  }

  function OpenedOne(signed: bool, line: Bytes): seq<Bytes> {
    var o := Open(signed, line);
    if o.Some? then [o.value] else []
  }

  function Opened(signed: bool, lines: seq<Bytes>): seq<Bytes> {
    if lines == [] then [] else OpenedOne(signed, lines[0]) + Opened(signed, lines[1..])
  }

  /** What a bridge makes of the bytes on the wire. */
  function Delivered(signed: bool, wire: Bytes): seq<Bytes> {
    Opened(signed, LinesOut(BRIDGE, CRLF, [], wire))
  }

  predicate RightShape(payload: Bytes) {
    2 <= |payload| && |payload| + 4 <= 10001 && Plain(CRLF, payload)
  }

  predicate Deliverable(from: bool, to: bool, payload: Bytes) {
    RightShape(payload) && ChecksumsAgree(from, to, payload)
  }

  // ----- proof

  lemma {:induction false} OpenedAppend(signed: bool, a: seq<Bytes>, b: seq<Bytes>)
    ensures Opened(signed, a + b) == Opened(signed, a) + Opened(signed, b)
  {
    if a == [] {
      assert a + b == b;
    } else {
      assert (a + b)[1..] == a[1..] + b;
      OpenedAppend(signed, a[1..], b);
    }
  }

  lemma {:induction false} SealedLinesAppend(signed: bool, a: seq<Bytes>, b: seq<Bytes>)
    ensures SealedLines(signed, a + b) == SealedLines(signed, a) + SealedLines(signed, b)
  {
    if a == [] {
      assert a + b == b;
    } else {
      assert (a + b)[1..] == a[1..] + b;
      SealedLinesAppend(signed, a[1..], b);
    }
  }

  lemma SealedShape(signed: bool, payload: Bytes)
    requires RightShape(payload)
    ensures Plain(CRLF, SealAs(signed, payload)) && 0 < |SealAs(signed, payload)| <= Capacity(BRIDGE)
  {
  }

  lemma {:induction false} SealedShapes(signed: bool, payloads: seq<Bytes>)
    requires forall p :: p in payloads ==> RightShape(p)
    ensures AllPlain(CRLF, SealedLines(signed, payloads))
    ensures forall line :: line in SealedLines(signed, payloads) ==> 0 < |line| <= Capacity(BRIDGE)
  {
    if payloads != [] {
      assert payloads[0] in payloads && forall p :: p in payloads[1..] ==> p in payloads;
      SealedShape(signed, payloads[0]);
      SealedShapes(signed, payloads[1..]);
    }
  }

  lemma OpenedFirst(from: bool, to: bool, p: Bytes, rest: seq<Bytes>)
    requires RightShape(p)
    ensures Opened(to, SealedLines(from, [p] + rest))
         == (if ChecksumsAgree(from, to, p) then [p] else []) + Opened(to, SealedLines(from, rest))
  {
    OpenSealed(from, to, p);
    assert ([p] + rest)[1..] == rest;
    var line, later := SealAs(from, p), SealedLines(from, rest);
    assert SealedLines(from, [p] + rest) == [line] + later;
    assert ([line] + later)[1..] == later;
  }

  predicate AllAgree(from: bool, to: bool, payloads: seq<Bytes>) {
    forall p :: p in payloads ==> ChecksumsAgree(from, to, p)
  }

  /** Of well-shaped payloads, exactly those on which the checksums agree get through. */
  lemma {:induction false} OpenedSealed(from: bool, to: bool, payloads: seq<Bytes>)
    requires forall p :: p in payloads ==> RightShape(p)
    ensures |Opened(to, SealedLines(from, payloads))| <= |payloads|
    ensures AllAgree(from, to, payloads) ==> Opened(to, SealedLines(from, payloads)) == payloads
    ensures |Opened(to, SealedLines(from, payloads))| == |payloads| ==> AllAgree(from, to, payloads)
  {
    if payloads != [] {
      var p, rest := payloads[0], payloads[1..];
      assert payloads == [p] + rest;
      assert p in payloads && forall q :: q in rest ==> q in payloads;
      OpenedSealed(from, to, rest);
      OpenedFirst(from, to, p, rest);
      assert AllAgree(from, to, payloads) <==> ChecksumsAgree(from, to, p) && AllAgree(from, to, rest) by {
        assert forall q :: q in payloads <==> q == p || q in rest;
      }
    }
  }

  lemma {:induction false} OpenedCameFrom(signed: bool, lines: seq<Bytes>, payload: Bytes) returns (line: Bytes)
    requires payload in Opened(signed, lines)
    ensures line in lines && Open(signed, line) == Some(payload)
  {
    if Open(signed, lines[0]) == Some(payload) {
      line := lines[0];
    } else {
      line := OpenedCameFrom(signed, lines[1..], payload);
    }
  }

  /** Nothing a bridge accepts is misshapen, whatever is on the wire. */
  lemma DeliveredShape(signed: bool, wire: Bytes, payload: Bytes)
    requires payload in Delivered(signed, wire)
    ensures RightShape(payload)
  {
    var lines := LinesOut(BRIDGE, CRLF, [], wire);
    var line := OpenedCameFrom(signed, lines, payload);
    OnlyShortPlainLines(BRIDGE, CRLF, wire);
    assert payload == line[..|line| - 4];
    assert forall c :: c in payload ==> c in line;
  }

  /** A sequence of payloads is delivered as exactly that sequence if and only if each of them
      is at least two bytes, at most 9997 bytes, free of CR and LF, and given the same checksum
      at both ends. */
  lemma LinkExact(from: bool, to: bool, payloads: seq<Bytes>)
    ensures Delivered(to, WireOf(SealedLines(from, payloads))) == payloads
       <==> forall p :: p in payloads ==> Deliverable(from, to, p)
  {
    var lines := SealedLines(from, payloads);
    if Delivered(to, WireOf(lines)) == payloads {
      forall p | p in payloads
        ensures RightShape(p)
      {
        DeliveredShape(to, WireOf(lines), p);
      }
    }
    if forall p :: p in payloads ==> RightShape(p) {
      SealedShapes(from, payloads);
      LinesArrive(BRIDGE, lines);
      OpenedSealed(from, to, payloads);
    }
  }

  /** Seven-bit text always gets through, whichever way `char` is signed at either end. */
  lemma TextIsDelivered(from: bool, to: bool, payloads: seq<Bytes>)
    requires forall p :: p in payloads ==> RightShape(p) && SevenBit(p)
    ensures Delivered(to, WireOf(SealedLines(from, payloads))) == payloads
  {
    forall p | p in payloads
      ensures Deliverable(from, to, p)
    {
      WhenChecksumsAgree(from, to, p);
    }
    LinkExact(from, to, payloads);
  }

  // ----- the code that runs it

  /** What the bridge's responses put on the wire. */
  function SentFor(responses: seq<Bytes>): Bytes {
    WireOf(SealedLines(false, responses))
  }

  /** What one response should put there: nothing, if it is empty. */
  function FrameFor(response: Bytes): Bytes {
    SentFor([response])
  }

  lemma FrameIs(response: Bytes)
    ensures FrameFor(response)
         == if response == [] then [] else response + Hex4(CrcOfBytes(response)) + [0x0D, 0x0A]
  {
    assert SealedLines(false, [response]) == SealedLine(false, response) + SealedLines(false, []);
    if response != [] {
      assert WireOf([SealAs(false, response)]) == (SealAs(false, response) + CRLF) + WireOf([]);
    }
  }

  /** What writing `len` bytes came to on a connected port: the calls made, the bytes taken in
      them, and the code returned. */
  ghost predicate Written(answers: nat -> WriteAnswer, from: nat, next: nat, len: nat, taken: nat, rc: int) {
    && from <= next && WriteEnds(answers, from, next, len, rc)
    && taken == if Offered(answers, from, next) < len then Offered(answers, from, next) else len
  }

  lemma NothingToWrite(answers: nat -> WriteAnswer, from: nat)
    ensures Written(answers, from, from, 0, 0, 0)
  {
  }

  lemma HealthyWrites(answers: nat -> WriteAnswer, from: nat, next: nat, len: nat, taken: nat, rc: int)
    requires Written(answers, from, next, len, taken, rc)
    ensures rc == 0 <==> taken == len
    ensures NeverFatal(answers) ==> rc == 0
  {
    if rc != 0 {
      assert Fatal(answers(next - 1));
    }
  }

  /** One response: checksum, frame, write. The port takes the first `taken` bytes of the frame:
      all of it unless it is not connected or a write fails. */
  method SendResponse(port: Serial, response: Bytes, answers: nat -> WriteAnswer, from: nat, ghost patience: nat)
    returns (sent: bool, rc: int, next: nat, ghost taken: nat)
    requires Patient(answers, patience)
    modifies port`accepted
    ensures sent <==> response != []
    ensures taken <= |FrameFor(response)| && port.accepted == old(port.accepted) + FrameFor(response)[..taken]
    ensures FrameFor(response)
         == if response == [] then [] else response + Hex4(CrcOfBytes(response)) + [0x0D, 0x0A]
    ensures port.connected ==> Written(answers, from, next, |FrameFor(response)|, taken, rc)
    ensures !port.connected ==> taken == 0 && next == from && rc == if sent then 107 else 0
    ensures rc == 0 <==> taken == |FrameFor(response)|
    ensures port.connected && NeverFatal(answers) ==> rc == 0
  {
    var frame: Bytes;
    FrameIs(response);
    sent, frame := AppendCrc(response);
    rc, next, taken := 0, from, 0;
    if sent {
      frame := FrameInto([], frame, CRLF);
      assert frame == FrameFor(response);
      rc, next := port.Txd(frame, answers, from, patience);
      if port.connected {
        taken := if Offered(answers, from, next) < |frame| then Offered(answers, from, next) else |frame|;
        assert frame[..|frame|] == frame;
        HealthyWrites(answers, from, next, |frame|, taken, rc);
      }
    } else {
      NothingToWrite(answers, from);
    }
  }

  lemma {:induction false} WireAppend(a: seq<Bytes>, b: seq<Bytes>)
    ensures WireOf(a + b) == WireOf(a) + WireOf(b)
  {
    if a == [] {
      assert a + b == b;
    } else {
      assert (a + b)[1..] == a[1..] + b;
      WireAppend(a[1..], b);
    }
  }

  lemma SentForOneMore(before: Bytes, responses: seq<Bytes>, i: nat)
    requires i < |responses|
    ensures before + SentFor(responses[..i + 1]) == before + SentFor(responses[..i]) + SentFor([responses[i]])
  {
    assert responses[..i + 1] == responses[..i] + [responses[i]];
    SealedLinesAppend(false, responses[..i], [responses[i]]);
    WireAppend(SealedLines(false, responses[..i]), SealedLines(false, [responses[i]]));
    assert before + (SentFor(responses[..i]) + SentFor([responses[i]]))
        == before + SentFor(responses[..i]) + SentFor([responses[i]]);
  }

  function FramesFor(responses: seq<Bytes>): (frames: seq<Bytes>)
    ensures |frames| == |responses| && forall i :: 0 <= i < |frames| ==> frames[i] == FrameFor(responses[i])
  {
    seq(|responses|, i requires 0 <= i < |responses| => FrameFor(responses[i]))
  }

  predicate Within(taken: seq<nat>, frames: seq<Bytes>) {
    |taken| == |frames| && forall i :: 0 <= i < |frames| ==> taken[i] <= |frames[i]|
  }

  /** So many bytes from the beginning of each frame, one after the other. */
  function Beginnings(frames: seq<Bytes>, taken: seq<nat>): Bytes
    requires Within(taken, frames)
    decreases |frames|
  {
    if frames == [] then []
    else
      var n := |frames| - 1;
      Beginnings(frames[..n], taken[..n]) + frames[n][..taken[n]]
  }

  lemma BeginningsOneMore(before: Bytes, frames: seq<Bytes>, i: nat, taken: seq<nat>, k: nat)
    requires i < |frames| && Within(taken, frames[..i]) && k <= |frames[i]|
    ensures Within(taken + [k], frames[..i + 1])
    ensures before + Beginnings(frames[..i + 1], taken + [k])
         == before + Beginnings(frames[..i], taken) + frames[i][..k]
  {
    var more, now := frames[..i + 1], taken + [k];
    assert more[..i] == frames[..i] && now[..i] == taken;
    assert Beginnings(more, now) == Beginnings(frames[..i], taken) + frames[i][..k];
    Associative(before, Beginnings(frames[..i], taken), frames[i][..k]);
  }

  /** Every frame has been written in its turn, whatever became of the ones before: frame i in the
      calls numbered `calls[i]` to `calls[i + 1]`. */
  ghost predicate AllWritten(answers: nat -> WriteAnswer, frames: seq<Bytes>,
                             calls: seq<nat>, taken: seq<nat>, codes: seq<int>)
    decreases |frames|
  {
    && |calls| == |frames| + 1 && |taken| == |codes| == |frames|
    && if frames == [] then calls == [0]
       else
         var n := |frames| - 1;
         && AllWritten(answers, frames[..n], calls[..n + 1], taken[..n], codes[..n])
         && Written(answers, calls[n], calls[n + 1], |frames[n]|, taken[n], codes[n])
  }

  lemma OneFrameWritten(answers: nat -> WriteAnswer, frames: seq<Bytes>, i: nat,
                        calls: seq<nat>, taken: seq<nat>, codes: seq<int>, next: nat, k: nat, rc: int)
    requires i < |frames| && AllWritten(answers, frames[..i], calls, taken, codes)
    requires Written(answers, calls[i], next, |frames[i]|, k, rc)
    ensures AllWritten(answers, frames[..i + 1], calls + [next], taken + [k], codes + [rc])
  {
    var more, c, t, r := frames[..i + 1], calls + [next], taken + [k], codes + [rc];
    assert more[..i] == frames[..i] && c[..i + 1] == calls && t[..i] == taken && r[..i] == codes;
  }

  /** The bridge ignores what `txd` returns and goes on with the next response. */
  method SendAll(port: Serial, responses: seq<Bytes>, answers: nat -> WriteAnswer, ghost patience: nat)
    returns (ghost calls: seq<nat>, ghost taken: seq<nat>, ghost codes: seq<int>)
    requires Patient(answers, patience)
    modifies port`accepted
    ensures port.connected ==> AllWritten(answers, FramesFor(responses), calls, taken, codes)
    ensures Within(taken, FramesFor(responses))
    ensures port.accepted == old(port.accepted) + Beginnings(FramesFor(responses), taken)
    ensures !port.connected ==> port.accepted == old(port.accepted)
    ensures port.connected && NeverFatal(answers) ==> port.accepted == old(port.accepted) + SentFor(responses)
  {
    ghost var frames, before := FramesFor(responses), port.accepted;
    ghost var healthy := port.connected && NeverFatal(answers);
    var next := 0;
    var i := 0;
    calls, taken, codes := [0], [], [];
    assert responses[..0] == [] && before + [] == before;
    while i < |responses|
      invariant 0 <= i <= |responses| && Within(taken, frames[..i])
      invariant port.connected ==> AllWritten(answers, frames[..i], calls, taken, codes) && next == calls[i]
      invariant port.accepted == before + Beginnings(frames[..i], taken)
      invariant !port.connected ==> port.accepted == before
      invariant healthy ==> port.accepted == before + SentFor(responses[..i])
    {
      var sent, rc;
      ghost var k;
      sent, rc, next, k := SendResponse(port, responses[i], answers, next, patience);
      if port.connected {
        OneFrameWritten(answers, frames, i, calls, taken, codes, next, k, rc);
      }
      BeginningsOneMore(before, frames, i, taken, k);
      SentForOneMore(before, responses, i);
      WholeFrame(frames[i], k);
      calls, taken, codes := calls + [next], taken + [k], codes + [rc];
      i := i + 1;
    }
    assert frames[..i] == frames && responses[..i] == responses;
  }

  lemma WholeFrame(frame: Bytes, k: nat)
    requires k <= |frame|
    ensures k == |frame| ==> frame[..k] == frame
    ensures k == 0 ==> frame[..k] == []
  {
  }

  /** One wake-up of the reader: what its calls of `read` answer, and, should it have to
      reconnect, which of the attempts succeed. */
  datatype WakeUp = WakeUp(answers: seq<ReadAnswer>, attempts: seq<bool>)

  /** Both loops end: some read has no data, some attempt to connect succeeds. */
  predicate Ends(w: WakeUp) {
    RunsDry(w.answers) && true in w.attempts
  }

  predicate AllEnd(wakeUps: seq<WakeUp>) {
    forall w :: w in wakeUps ==> Ends(w)
  }

  /** The data of one wake-up, unless it ended in a read error. */
  function PassedOnOnce(w: WakeUp): Bytes
    requires Ends(w)
  {
    if StopCode(w.answers) == 0 then DataRead(w.answers) else []
  }

  /** The data read before the first answer without any is passed on, in order, unless that answer
      is an error other than 11. */
  lemma PassedOnExactly(chunks: seq<ReadAnswer>, last: ReadAnswer, rest: seq<ReadAnswer>, attempts: seq<bool>)
    requires AllHaveData(chunks) && !(last.Got? && last.chunk != []) && true in attempts
    ensures Ends(WakeUp(chunks + ([last] + rest), attempts))
    ensures PassedOnOnce(WakeUp(chunks + ([last] + rest), attempts))
         == if last.ReadFailed? && last.errno != 11 then [] else DataRead(chunks)
  {
    ReadUpTo(chunks, last, rest);
  }

  function PassedOn(wakeUps: seq<WakeUp>): Bytes
    requires AllEnd(wakeUps)
  {
    if wakeUps == [] then [] else PassedOnOnce(wakeUps[0]) + PassedOn(wakeUps[1..])
  }

  lemma {:induction false} PassedOnSnoc(wakeUps: seq<WakeUp>, last: WakeUp)
    requires AllEnd(wakeUps) && Ends(last)
    ensures AllEnd(wakeUps + [last])
    ensures PassedOn(wakeUps + [last]) == PassedOn(wakeUps) + PassedOnOnce(last)
  {
    if wakeUps == [] {
      assert wakeUps + [last] == [last];
      assert PassedOn([last]) == PassedOnOnce(last) + PassedOn([]);
    } else {
      assert (wakeUps + [last])[1..] == wakeUps[1..] + [last];
      PassedOnSnoc(wakeUps[1..], last);
    }
  }

  /** `SessionSerial::reconnect`: again and again until an attempt succeeds. */
  method Reconnect(port: Serial, attempts: seq<bool>) returns (failed: nat)
    requires true in attempts
    modifies port`connected
    ensures port.connected
    ensures failed < |attempts| && attempts[failed] && forall i :: 0 <= i < failed ==> !attempts[i]
  {
    port.Disconnect();
    failed := 0;
    while true
      invariant 0 <= failed < |attempts| && true in attempts[failed..] && !port.connected
      invariant forall i :: 0 <= i < failed ==> !attempts[i]
      decreases |attempts| - failed
    {
      var ok := port.Connect(attempts[failed]);
      if ok {
        break;
      }
      assert attempts[failed..][1..] == attempts[failed + 1..];
      failed := failed + 1;
    }
  }

  /** `SessionSerial::onRead`: what was read is passed on unless `rxd` failed; a wake-up without
      data and without an error means that the connection is lost. */
  method OnRead(port: Serial, deframer: Deframer, w: WakeUp) returns (reconnected: bool)
    requires Ends(w) && deframer.Valid()
    modifies deframer, port`connected
    ensures deframer.Valid() && port.connected == old(port.connected)
    ensures reconnected <==> port.connected && StopCode(w.answers) == 0 && DataRead(w.answers) == []
    ensures deframer.received == old(deframer.received) + if port.connected then PassedOnOnce(w) else []
    ensures PassedOnOnce(w) == if StopCode(w.answers) == 0 then DataRead(w.answers) else []
  {
    reconnected := false;
    var rc, rxdBuffer := port.Rxd(w.answers);
    if rc == 0 {
      if |rxdBuffer| == 0 {
        var failed := Reconnect(port, w.attempts);
        reconnected := true;
      } else {
        deframer.On(rxdBuffer);
      }
    }
  }

  method CheckAll(signed: bool, lines: seq<Bytes>) returns (payloads: seq<Bytes>)
    ensures payloads == Opened(signed, lines)
  {
    payloads := [];
    for i := 0 to |lines|
      invariant payloads == Opened(signed, lines[..i])
    {
      var accepted := CheckCrc(signed, lines[i]);
      OpenedAppend(signed, lines[..i], [lines[i]]);
      assert lines[..i + 1] == lines[..i] + [lines[i]];
      assert Opened(signed, [lines[i]]) == OpenedOne(signed, lines[i]) + Opened(signed, []);
      if accepted.Some? {
        payloads := payloads + [accepted.value];
      }
    }
    assert lines[..|lines|] == lines;
  }

  /** What a port has delivered after these wake-ups. */
  function Received(connected: bool, wakeUps: seq<WakeUp>): Bytes
    requires AllEnd(wakeUps)
  {
    if connected then PassedOn(wakeUps) else []
  }

  /** Every wake-up of the reader, and then the checks on what came out of the deframer. */
  method ReceiveAll(signed: bool, port: Serial, wakeUps: seq<WakeUp>) returns (payloads: seq<Bytes>)
    requires AllEnd(wakeUps)
    modifies port`connected
    ensures port.connected == old(port.connected)
    ensures payloads == Delivered(signed, Received(port.connected, wakeUps))
  {
    var deframer := new Deframer(CRLF, 10000);
    for i := 0 to |wakeUps|
      invariant port.connected == old(port.connected)
      invariant deframer.Valid() && AllEnd(wakeUps[..i])
      invariant deframer.received == Received(port.connected, wakeUps[..i])
      invariant fresh(deframer) && deframer.delimiter == CRLF && deframer.maxFrameLength == 10000
    {
      assert wakeUps[i] in wakeUps;
      PassedOnSnoc(wakeUps[..i], wakeUps[i]);
      assert wakeUps[..i + 1] == wakeUps[..i] + [wakeUps[i]];
      var reconnected := OnRead(port, deframer, wakeUps[i]);
    }
    assert wakeUps[..|wakeUps|] == wakeUps;
    payloads := CheckAll(signed, deframer.emitted);
  }

  /** The whole link. `line` turns the bytes one port has accepted into the other's wake-ups. As
      long as no write fails and the line loses nothing, the payloads received are the ones sent
      if and only if each of them is deliverable, whatever the partial writes and the read sizes. */
  method Transfer(signed: bool, tx: Serial, rx: Serial, responses: seq<Bytes>,
                  answers: nat -> WriteAnswer, ghost patience: nat, line: Bytes -> seq<WakeUp>)
    returns (payloads: seq<Bytes>, ghost out: Bytes,
             ghost calls: seq<nat>, ghost taken: seq<nat>, ghost codes: seq<int>)
    requires Patient(answers, patience)
    requires forall bytes :: AllEnd(line(bytes))
    modifies tx`accepted, rx`connected
    ensures tx.accepted == old(tx.accepted) + out && rx.connected == old(rx.connected)
    ensures tx.connected ==> AllWritten(answers, FramesFor(responses), calls, taken, codes)
    ensures Within(taken, FramesFor(responses)) && out == Beginnings(FramesFor(responses), taken)
    ensures !tx.connected ==> out == []
    ensures tx.connected && NeverFatal(answers) ==> out == SentFor(responses)
    ensures payloads == Delivered(signed, Received(rx.connected, line(out)))
    ensures tx.connected && NeverFatal(answers) && Received(rx.connected, line(out)) == out ==>
      (payloads == responses <==> forall p :: p in responses ==> Deliverable(false, signed, p))
  {
    var before := |tx.accepted|;
    calls, taken, codes := SendAll(tx, responses, answers, patience);
    var sent := tx.accepted[before..];
    out := sent;
    assert tx.connected && NeverFatal(answers) ==> out == SentFor(responses);
    payloads := ReceiveAll(signed, rx, line(sent));
    LinkExact(false, signed, responses);
  }

  // ----- the device at the other end

  /** `send_json` once the document is text: what is printed. */
  method SendJson(charIsSigned: bool, text: Bytes) returns (printed: Bytes)
    ensures printed == WireOf([SealAs(charIsSigned, text)])
    ensures printed == text + Hex4(CrcOfString(charIsSigned, text)) + [0x0D, 0x0A]
  {
    printed := text;
    var crc := Crc16String(charIsSigned, text);
    printed := printed + crc;
    printed := printed + [CR, LF];
    assert WireOf([SealAs(charIsSigned, text)]) == printed + WireOf([]);
  }

  /** A line arrives whole if and only if it fits: 10001 bytes on the bridge, 512 on the device,
      although the bridge clears its buffer before adding a byte and the device afterwards. */
  lemma Interoperable(policy: Policy, line: Bytes)
    requires line != [] && Plain(CRLF, line)
    ensures LinesOut(policy, CRLF, [], WireOf([line])) == [line] <==> |line| <= Capacity(policy)
    ensures Capacity(BRIDGE) == 10001 && Capacity(DEVICE) == 512
  {
    ReceiverLaw(policy, CRLF, WireOf([line]));
    SentLines(policy, [line]);
    RetainedWhole(policy, line);
    assert Survivors(policy, [line]) == Survivor(policy, line) + Survivors(policy, []);
  }

  /** After any ordinary bytes the device holds exactly the last n mod 513 of them, the bridge the
      last ((n-1) mod 10001) + 1. */
  lemma BufferAfterOrdinaryBytes(data: Bytes)
    requires Plain(CRLF, data)
    ensures Buffer(DEVICE, CRLF, [], data) == data[|data| - |data| % 513..]
    ensures data != [] ==> Buffer(BRIDGE, CRLF, [], data) == data[|data| - ((|data| - 1) % 10001 + 1)..]
  {
    BufferOfRun(DEVICE, data);
    BufferOfRun(BRIDGE, data);
    assert Kept(DEVICE, |data|) == |data| % 513;
    assert data != [] ==> Kept(BRIDGE, |data|) == (|data| - 1) % 10001 + 1;
  }

  lemma BufferOfRun(policy: Policy, data: Bytes)
    requires Plain(CRLF, data)
    ensures Buffer(policy, CRLF, [], data) == Retained(policy, data)
  {
    PlainRun(CRLF, [], data, []);
    assert data + [] == data && [] + data == data;
    ReceiverLaw(policy, CRLF, data);
  }

  /** What the device prints for these texts, one `send_json` after the other. */
  function Printed(charIsSigned: bool, texts: seq<Bytes>): Bytes {
    if texts == [] then [] else WireOf([SealAs(charIsSigned, texts[0])]) + Printed(charIsSigned, texts[1..])
  }

  function SealedTexts(charIsSigned: bool, texts: seq<Bytes>): seq<Bytes> {
    if texts == [] then [] else [SealAs(charIsSigned, texts[0])] + SealedTexts(charIsSigned, texts[1..])
  }

  lemma {:induction false} PrintedIsWire(charIsSigned: bool, texts: seq<Bytes>)
    ensures Printed(charIsSigned, texts) == WireOf(SealedTexts(charIsSigned, texts))
  {
    if texts != [] {
      PrintedIsWire(charIsSigned, texts[1..]);
      WireAppend([SealAs(charIsSigned, texts[0])], SealedTexts(charIsSigned, texts[1..]));
    }
  }

  lemma {:induction false} NoEmptyText(charIsSigned: bool, texts: seq<Bytes>)
    requires forall t :: t in texts ==> t != []
    ensures SealedTexts(charIsSigned, texts) == SealedLines(charIsSigned, texts)
  {
    if texts != [] {
      assert texts[0] in texts && forall t :: t in texts[1..] ==> t in texts;
      NoEmptyText(charIsSigned, texts[1..]);
    }
  }

  /** The bridge gets the texts a device prints exactly if each of them is deliverable. For an
      empty one the device prints a line all the same, which the bridge throws away. */
  lemma PrintedExact(device: bool, bridge: bool, texts: seq<Bytes>)
    ensures Delivered(bridge, Printed(device, texts)) == texts
       <==> forall t :: t in texts ==> Deliverable(device, bridge, t)
  {
    PrintedIsWire(device, texts);
    if Delivered(bridge, Printed(device, texts)) == texts {
      forall t | t in texts
        ensures RightShape(t)
      {
        DeliveredShape(bridge, Printed(device, texts), t);
      }
    }
    if forall t :: t in texts ==> RightShape(t) {
      NoEmptyText(device, texts);
      LinkExact(device, bridge, texts);
    }
  }

  /** Both directions between a bridge and a device: the device sees every nonempty response up
      to 508 bytes with its checksum in place, and the texts it prints reach the bridge as they
      were exactly if each is well-shaped and the two agree on the signs of its bytes. */
  lemma BothDirections(device: bool, bridge: bool, response: Bytes, texts: seq<Bytes>)
    requires Plain(CRLF, response) && response != []
    ensures LinesOut(DEVICE, CRLF, [], WireOf([SealAs(false, response)])) == [SealAs(false, response)]
       <==> |response| <= 508
    ensures Delivered(bridge, Printed(device, texts)) == texts
       <==> forall t :: t in texts ==> Deliverable(device, bridge, t)
  {
    Hex4IsPlain(CrcOfString(false, response));
    Interoperable(DEVICE, SealAs(false, response));
    PrintedExact(device, bridge, texts);
  }
}
