# serial2redis: the transport stack, verified

A Dafny 4.11 model of the byte-level transport of serial2redis, with proofs of what it guarantees.
It covers

- the 16-bit CRC of the serial lines, in its two implementations (one over unsigned bytes, one over
  a `String` whose elements are `char`s that may be sign-extended);
- the byte-stuffed framing of the ESP32 spine (`SerialFrame`), sender and receiver;
- the CRLF serial link: checksum, framing, partial writes, chunked reads, deframing, checking, and
  the Arduino device at the other end with its own overflow rule;
- the UDP session table: one Redis proxy per client address, reply routing, and the timer's sweep;
- three small loops with arithmetic or a round trip of their own: the ultrasonic smoothing filters,
  the NMEA field splitter, and the poller's round robin.

Objects that the program updates in place are classes (`SerialPort`, `Deframer`, `SerialPubSub`,
`Serial`, `RedisProxy`, `UdpBridge`, `UltraSonic`, `Poller`); each method is proved against a
function of the old state, and the laws are lemmas about those functions. Check the project with
`dafny verify dfyconfig.toml`; nothing in it is meant to be executed.

| file | content |
|---|---|
| `Words`, `Modulo`, `BitStrings`, `Folds`, `ByteStrings`, `Options` | machine words, C's `^`, bit strings, iteration |
| `Crc16`, `CrcDivision`, `CrcDetection`, `CrlfCrc` | the CRC: code, meaning, what it detects, the two checksum flows |
| `CrcSigned`, `CrcOrder`, `CrcFlips` | the burst a signed-`char` receiver cannot see; the order of the shift register; when two flipped bits cancel out |
| `SerialFrame`, `StuffingLaws` | byte stuffing: code, laws |
| `Framing`, `FramingLaws`, `SerialDevice`, `SerialLink` | lines, both ends; the port; the whole link |
| `UdpAddress`, `Sessions`, `SessionLaws`, `UdpBridge` | the session table: key, state machine, laws, objects |
| `UltraSonic`, `Split`, `Poller` | the small loops |

## What the proofs found

- Where `char` is signed, the sender's `crc16(Bytes)` and the receiver's `crc16(String)` differ on
  every payload with exactly one byte from 0x80 up, so such a line is never accepted
  (`WhenChecksumsAgree`, which also gives the exact condition for all payloads).
- Where `char` is signed, one sixteen-bit burst is invisible to the receiver: 80 FE 5F, exclusive-ored
  into three consecutive bytes anywhere in the payload. "ABCDE" sealed by the bridge and turned into
  41 C2 BD 1B 45 is accepted (`BurstExample`). No other burst of up to sixteen bits is
  (`BurstAccepted`), and with unsigned `char` none at all.
- Two flipped bits cancel out exactly at certain distances modulo 32767 (`TwoFlips`): 0 where `char`
  is unsigned. Where it is signed, 0 if both or neither is the top bit of its byte, 10426 if only the
  later one is, 22341 if only the earlier one is. One to three flips are therefore always seen in up
  to 4095 bytes, but only in up to 1303 by a receiver whose `char` is signed (`UpToThreeFlips`), and
  a line may carry 9997. 1304 times "A" with two bits flipped is accepted (`FlipsExample`).
- The bridge never accepts a payload of one byte, although it sends one (`OpenSealed`).
- On the stuffed link a flag does not cancel a pending escape: after noise the first byte of the
  next frame may arrive altered, and nothing but that byte (`SelfSynchronising`). A payload with an
  ordinary byte at index 128 or later is never delivered, but what is left after its last overflow is,
  if anything (`RoundTrip`, `RunEncoded`).
- `UdpAddress::operator<` compares `memcmp`'s result with -1. Where `memcmp` returns byte differences
  two clients are taken for one (`ConfusedClients` says exactly which). The session-table proofs
  therefore assume a `memcmp` that returns -1, 0 or 1.
- A client whose first message has not been dispatched yet counts as idle since the epoch and is
  removed by the next sweep (`NewClientMayBeSwept`).
- The distance filter stops one millimetre away from a constant reading (`DistanceSettles`).
- The poller is fair across the wrap of its 32-bit index only if the number of sources divides 2^32
  (`FairForeverExactly`).

## Model

| member | source | states |
|---|---|---|
| Crc16.Crc16Bytes | src/Flows.cpp:184-199 | the nested loops over zero-extended bytes leave the register obtained by absorbing the bytes in order, printed as four uppercase hexadecimal digits |
| Crc16.Crc16String | src/Flows.cpp:201-216 | the same for a `String`, each `char` sign-extended where the platform's `char` is signed |
| Crc16.Hex4Prints | src/Flows.cpp:196-198 | the four digits are those of the register in base sixteen, each from "0123456789ABCDEF", the most significant first |
| Crc16.WidenConverts | src/Flows.cpp:204 | a `char` from 0x80 up reaches the register as itself less 256, modulo 2^16, where `char` is signed |
| Crc16.Hex4Reads | src/Flows.cpp:196-198 | the four printed digits, read as a hexadecimal number, are the register |
| Crc16.Hex4Injective | src/Flows.cpp:225 | comparing the printed checksums is comparing the registers |
| CrcDivision.BytesAreClocked | src/Flows.cpp:186-195 | XORing a whole byte and shifting eight times equals a shift register fed one message bit at a time, for every message and register |
| CrcDivision.CrcIsRemainder | src/Flows.cpp:184-195 | the CRC is the remainder of the message polynomial times x^16, first sixteen bits inverted, on long division by x^16 + x^15 + x^2 + 1 |
| CrcDivision.DivisionIsUnique | src/Flows.cpp:184-195 | a quotient and remainder make up a dividend if and only if they are the ones long division finds |
| CrcDetection.CrcAffine | src/Flows.cpp:184-216 | crc(a^b^c) = crc(a)^crc(b)^crc(c) for messages of one length, in both implementations |
| CrcDetection.SameWordsKeepDifference | src/Flows.cpp:186-195 | the step is injective: registers that differ are still different after any common suffix |
| CrcDetection.BurstDetected | src/Flows.cpp:184-195 | two messages of any length that differ only within sixteen consecutive bits, at any position, have different CRCs |
| CrcDetection.CrcParity | src/Flows.cpp:184-216 | the parity of the register is the parity of the message bits, with and without sign extension |
| CrcDetection.OddFlipsDetected | src/Flows.cpp:184-216 | an odd number of flipped bits changes the CRC, in both implementations |
| CrcSigned.SignedBurst | src/Flows.cpp:201-212 | with signed `char`, of all bursts of up to sixteen bits, in messages of any length and at any position, exactly 80 FE 5F in three consecutive bytes leaves the CRC as it was |
| CrcSigned.NeverSeen | src/Flows.cpp:201-212 | and that one always does, wherever it is |
| CrcSigned.ShortSignedBurst | src/Flows.cpp:201-212 | so with signed `char` any burst of up to fifteen bits changes the CRC |
| CrcOrder.BitOrder | src/Flows.cpp:188-194 | a single bit is back where it was after n turns of the inner loop if and only if n is a multiple of 32767 |
| CrcFlips.SignWordIsShiftedBit | src/Flows.cpp:205-211 | what a flipped top bit exclusive-ors into the register where `char` is signed is a single bit after 10419 turns of the inner loop, as if it had been flipped 10426 bits earlier |
| CrcFlips.TwoFlips | src/Flows.cpp:184-216 | two messages of any length that differ in exactly two bits have one CRC if and only if their distance leaves modulo 32767: 0 for `crc16(Bytes)` and unsigned `char`; for signed `char` 0 if both or neither is bit 7 of its byte, 10426 if only the later one is, 22341 if only the earlier one is |
| CrcFlips.UpToThreeFlips | src/Flows.cpp:184-216 | one, two or three flipped bits always change the CRC of up to 4095 bytes, or of up to 1303 where `char` is signed |
| CrcFlips.KnownAnswers | src/Flows.cpp:184-199 | the CRC of FF is 00FF, of FF FF it is 0000, and of FF FF 80 it is A001 |
| CrcDetection.SignedDiffersBySyndrome | src/Flows.cpp:201-212 | with signed `char` the two CRCs differ by the CRC, from a cleared register, of the sign bits alone, and agree if and only if that is zero |
| CrcDetection.SignednessVisible | src/Flows.cpp:184-212 | the two agree on all seven-bit messages and wherever `char` is unsigned, and disagree on every message with exactly one byte from 0x80 up |
| CrlfCrc.AppendCrc | src/Flows.cpp:312-318 | a nonempty response is followed by its CRC; nothing is emitted for an empty one |
| CrlfCrc.CheckCrc | src/Flows.cpp:219-230 | a line is opened if it has six bytes and its last four are the CRC of the others as a string |
| CrlfCrc.OpenSealed | src/Flows.cpp:221-230 | what one end seals the other opens if and only if the payload has two bytes and the ends compute one checksum for it |
| CrlfCrc.CorruptionExact | src/Flows.cpp:219-230 | whatever happens to the payload of a sealed line, it is accepted if and only if the errors leave in a cleared register the difference between the two ends' checksums of what was sent |
| CrlfCrc.BurstAccepted | src/Flows.cpp:219-230 | a line the receiver would have accepted is, after a burst of up to sixteen bits in its payload, still accepted if and only if the receiver's `char` is signed and the burst is 80 FE 5F in three consecutive bytes |
| CrlfCrc.BurstExample | src/Flows.cpp:219-230 | 41 42 43 44 45 as sealed by the bridge and received as 41 C2 BD 1B 45 is accepted with signed `char` and thrown away with unsigned |
| CrlfCrc.CorruptionRejected | src/Flows.cpp:219-230 | an odd number of flipped payload bits makes any receiver throw the line away; so does, in a line it would have accepted, a burst of up to fifteen bits, or of sixteen with unsigned `char` |
| CrlfCrc.TwoFlipsAccepted | src/Flows.cpp:219-230 | a line the receiver would have accepted is, after two flips in its payload, still accepted if and only if their distance leaves the remainder at which they cancel out for that receiver |
| CrlfCrc.FewFlipsRejected | src/Flows.cpp:219-230 | such a line with one, two or three flips in up to 4095 bytes of payload, or 1303 where the receiver's `char` is signed, is thrown away |
| CrlfCrc.FlipsExample | src/Flows.cpp:219-230 | 1304 bytes 0x41 as sealed by the bridge, with the first received as 0x61 and the last as 0xC1, are accepted with signed `char` and thrown away with unsigned |
| CrlfCrc.WhenChecksumsAgree | src/Flows.cpp:201-216 | exactly when a `String` end with signed and one with unsigned `char` (or the `Bytes` end) agree |
| SerialFrame.AddEscaped | examples/espUdp/components/spine/SerialFrame.cpp:23-30 | appends one byte, stuffed: 7D 5D for 0x7D, 7D 5E for 0x7E, and any other byte as it is |
| SerialFrame.Frame | examples/espUdp/components/spine/SerialFrame.cpp:32-41 | flag, stuffed payload, flag; the flag is 0x7E |
| StuffingLaws.EncodedByNumber | examples/espUdp/components/spine/SerialFrame.cpp:23-41 | the same for every payload, one more byte at a time, in literal bytes |
| StuffingLaws.PlainOnTheWire | examples/espUdp/components/spine/SerialFrame.cpp:32-41 | a payload without 0x7D and 0x7E goes out unchanged between two 0x7E |
| SerialFrame.SerialPort.RxdByte | examples/espUdp/components/spine/SerialFrame.cpp:43-61 | the receiver's buffer, escape flag, overflow count (32 bits) and output queue after one byte |
| StuffingLaws.ReceivedByNumber | examples/espUdp/components/spine/SerialFrame.cpp:43-61 | what each kind of byte does to any receiver, in literal bytes: 7D d stores d with bit 5 the other way round, 7E delivers and clears, an ordinary byte is stored up to the 128th and overflows after it |
| SerialFrame.SerialPort.OnRxd | examples/espUdp/components/spine/SerialFrame.cpp:63-68 | the same after all bytes of a stream |
| StuffingLaws.StuffedWire | examples/espUdp/components/spine/SerialFrame.cpp:23-41 | an encoding has no flag between its two ends, and one extra byte for each special one |
| StuffingLaws.UniquelyDecodable | examples/espUdp/components/spine/SerialFrame.cpp:32-41 | two lists of payloads with the same encoded stream are the same list |
| StuffingLaws.Conservation | examples/espUdp/components/spine/SerialFrame.cpp:43-61 | from any state, over any stream, every unescaped data byte is exactly one of delivered, still buffered, or dropped at a counted overflow, in order |
| StuffingLaws.RunEncoded | examples/espUdp/components/spine/SerialFrame.cpp:43-61 | exactly what one encoded payload of any length makes a clean receiver deliver and count |
| StuffingLaws.OrdinaryTail | examples/espUdp/components/spine/SerialFrame.cpp:53-60 | of a payload of n ordinary bytes the last n mod 129 are delivered and n / 129 overflows counted |
| StuffingLaws.RoundTrip | examples/espUdp/components/spine/SerialFrame.cpp:32-61 | a nonempty payload is recovered by a clean receiver if and only if every byte at index 128 or beyond is 0x7D or 0x7E; otherwise an overflow is counted and the payload is not delivered |
| StuffingLaws.AnyList | examples/espUdp/components/spine/SerialFrame.cpp:43-61 | from any receiver state, for a list of payloads of any size (the first nonempty): at most one stale frame, what the first payload gives with its first byte perhaps altered by a pending escape, and then what each other payload gives on its own; the overflows add up |
| StuffingLaws.ListExact | examples/espUdp/components/spine/SerialFrame.cpp:43-61 | what a list gives is the list itself if and only if every payload is nonempty and fits |
| StuffingLaws.SelfSynchronising | examples/espUdp/components/spine/SerialFrame.cpp:43-61 | from any receiver state a stream of fitting payloads yields at most one stale frame, the first payload exact or with its first byte XORed by 0x20, and all others exact, without overflow |
| StuffingLaws.ArrivedByNumber | examples/espUdp/components/spine/SerialFrame.cpp:43-52 | the alteration by a pending escape adds 0x20 to the first byte or takes it away, and spares 0x7D and 0x7E |
| StuffingLaws.PendingEscapeShows | examples/espUdp/components/spine/SerialFrame.cpp:44-52 | after a pending escape the first payload is exact if and only if it starts with a special byte |
| Framing.Deframer.On | src/Framing.cpp:15-28 | buffer and emitted lines are those of the line receiver over everything received so far, however it was chunked |
| Framing.SerialPubSub.HandleByte | examples/basicPubSub/src/main.cpp:44-56 | the same for the device, one byte at a time, with the overflow test after the byte is added |
| Framing.FrameInto | src/Framing.cpp:35-40 | appends the frame and then the delimiter |
| Framing.FeedAppend | src/Framing.cpp:15-28 | feeding two chunks is feeding their concatenation |
| Framing.FeedRefinesSplitter | src/Framing.cpp:15-28 | the receiver refines a splitter into maximal delimiter-free runs, each run cut to its last ((n-1) mod (max+1))+1 bytes (bridge) or n mod (max+1) bytes (device) |
| FramingLaws.RunsReassemble | src/Framing.cpp:16-23 | the splitter's runs hold no delimiter and, with the delimiters put back, are the input |
| FramingLaws.ReceiverLaw | src/Framing.cpp:15-28 | for any input the emitted lines are the retained ends of its nonempty runs, and the buffer holds no delimiter and at most max+1 bytes |
| FramingLaws.RetainedWhole | src/Framing.cpp:24-25 | a run comes out whole if and only if it is within the capacity |
| FramingLaws.OnlyShortPlainLines | src/Framing.cpp:15-28 | nothing emitted is empty, over the capacity, or contains a delimiter, whatever is received |
| FramingLaws.LinesArrive | src/Framing.cpp:15-40 | a sequence of nonempty delimiter-free lines within the capacity, sent with CR LF, arrives as that sequence, on the bridge and on the device |
| SerialDevice.Serial.Txd | src/serial.cpp:166-196 | under arbitrary partial writes: it ends at the first call that completes the buffer or fails for good (any errno but 11); it returns 0 if and only if the calls took the whole buffer, and that errno otherwise; what has been accepted is the buffer as far as the calls took bytes; not connected nothing; it ends at most as many calls as there are bytes after the last call that may stall |
| SerialDevice.OneWayToEnd | src/serial.cpp:166-196 | for given answers of `write` there is only one call at which it can end and one value it can return |
| SerialDevice.WaitsOnce | src/serial.cpp:183-186 | errno 11 and then a write of everything: 0 after two calls |
| SerialDevice.FailsAtOnce | src/serial.cpp:187-190 | any other errno at the first call is returned after that call |
| SerialDevice.Serial.Rxd | src/serial.cpp:146-164 | returns what all reads up to the first one without data gave, in order, and 0 or that one's error |
| SerialDevice.DataReadAppend | src/serial.cpp:150-155 | reads with data in front of others put their data in front of the others' data |
| SerialDevice.ReadUpTo | src/serial.cpp:156-162 | whatever follows the first read without data does not count, and that read alone decides the return value: its errno if it failed with any but 11, else 0 |
| SerialDevice.ReadMeans | src/serial.cpp:146-164 | what is returned is what the index of the first read without data says, without recursion |
| SerialLink.LinkExact | src/serial2redis.cpp:65-78 | a sequence of payloads is delivered as exactly that sequence if and only if each has 2 to 9997 bytes, no CR or LF, and one checksum at both ends |
| SerialLink.TextIsDelivered | src/serial2redis.cpp:74-78 | seven-bit payloads of that shape are always delivered |
| SerialLink.SendResponse | src/serial2redis.cpp:77-78 | the port takes a beginning of the frame (payload, checksum, CR LF; nothing for an empty response), as much as the calls of `write` took: all of it if and only if `txd` returns 0, none if it is not connected, and always all of it if it is connected and no write fails |
| SerialLink.SendAll | src/SessionSerial.cpp:21-25 | every response is tried in turn, each from the call after the last one's, because failures are ignored, and of each frame the port takes the beginning that its calls took; all of every frame if it is connected and no write fails |
| SerialLink.Reconnect | src/SessionSerial.cpp:60-67 | disconnects, attempts until one succeeds, and is connected then, after exactly as many failures as come first |
| SerialLink.OnRead | src/SessionSerial.cpp:40-53 | what was read is passed to the deframer if the port is connected and the read did not end in an error other than 11; without data and without an error the port is disconnected and connected again, and the deframer keeps its partial line |
| SerialLink.PassedOnExactly | src/SessionSerial.cpp:40-53 | for any reads with data, the first one without, and any after it: the former's data is passed on, in order, unless the latter failed with an errno other than 11 |
| SerialLink.ReceiveAll | src/serial2redis.cpp:75-76 | any wake-ups, with reads of any sizes, failures and reconnects among them, deliver what the bytes of those that did not fail amount to |
| SerialLink.Transfer | src/serial2redis.cpp:74-78 | the whole link over any line: what is delivered is what the bytes accepted by the sending port and passed on at the other amount to; if no write fails and the line loses nothing, that is what was sent if and only if every payload is deliverable |
| SerialLink.SendJson | examples/basicPubSub/src/main.cpp:87-94 | the device prints the text, its checksum and CR LF |
| SerialLink.Interoperable | examples/basicPubSub/src/main.cpp:44-56 | a delimiter-free line arrives whole if and only if it has at most 10001 bytes (bridge) or 512 (device) |
| SerialLink.BufferAfterOrdinaryBytes | examples/basicPubSub/src/main.cpp:52-55 | after n ordinary bytes the device holds exactly the last n mod 513, the bridge the last ((n-1) mod 10001)+1 |
| SerialLink.BothDirections | examples/basicPubSub/src/main.cpp:44-94 | the device receives a response with its checksum if and only if it has at most 508 bytes; the bridge receives the texts the device prints, one line for each, empty ones included, as they were if and only if each is deliverable |
| UdpAddresses.TotalOrder | src/Udp.h:23-35 | with a `memcmp` that returns signs, `operator<` is a strict total order whose equivalence is equality and `operator==` |
| UdpAddresses.OrderByNumber | src/Udp.h:31-35 | the order is descending: by the first byte in which the IPs differ, and then by port |
| UdpAddresses.CompareAt | src/Udp.h:32 | what both kinds of `memcmp` return, by the first bytes that differ |
| UdpAddresses.ConfusedClients | src/Udp.h:31-35 | with a `memcmp` that returns differences, different addresses are one key if and only if their IPs differ and the first bytes that do are more than one apart |
| UdpAddresses.ConfusedExample | src/Udp.h:31-35 | 10.0.0.1 and 10.0.0.3 on one port are then one key |
| Sessions.StepKeepsInv | src/udp2redis.cpp:75-122 | every event keeps: no shared proxies, each filed under the address it was created for and answers to, every message sent to its sender's client, none destroyed twice or used after that, no message from the future |
| SessionLaws.Reachable | src/udp2redis.cpp:64-124 | so does every run from the start |
| SessionLaws.RepliesGoHome | src/udp2redis.cpp:86-91 | over any run each proxy's callback sends exactly the answers that proxy got while it lived, in order, and every one of them to the client the proxy was created for, also after that client has been given another proxy |
| SessionLaws.ClientGetsItsAnswers | src/udp2redis.cpp:86-91 | so the payloads sent to an address are the answers given to the proxies that address had at the time, in order, and nothing else |
| SessionLaws.DeliveredInOrder | src/udp2redis.cpp:80-100 | a client's proxy was created by a datagram from it when it had none, has been there ever since, and has been given exactly its datagrams since then, in order |
| SessionLaws.HandledExactly | src/udp2redis.cpp:137-148 | over any run a live proxy has handled exactly as many of its client's datagrams since its creation, from the first on, as there were dispatches with one waiting, counted on the events alone; the others wait |
| SessionLaws.AllHandled | src/udp2redis.cpp:137-148 | once there were as many such dispatches as datagrams, all have been handled in order and nothing waits |
| SessionLaws.TwoMessages | src/udp2redis.cpp:80-100 | two datagrams of a new client and two dispatches: both handled, in that order, at that time |
| SessionLaws.OneAnswer | src/udp2redis.cpp:86-91 | an answer to a new client's proxy is sent from the server's address to that client's |
| SessionLaws.SweepExact | src/udp2redis.cpp:106-122 | the sweep removes exactly the clients idle for longer than the timeout, destroys each of their proxies once and no other, and leaves the others unchanged |
| SessionLaws.LastMessageTime | src/udp2redis.cpp:138-148 | once a message of a client has been dispatched since its proxy was created, `_lastMessage` is the time of the last such dispatch |
| SessionLaws.IdleClientGone | src/udp2redis.cpp:105-122 | if the timer has fired within 3000 ms, no client still there that has had a message dispatched had its last one more than timeout + 3000 ms ago |
| SessionLaws.InactivityWraps | src/udp2redis.cpp:163 | `inactivity` is the difference modulo 2^64 |
| SessionLaws.TimePasses | src/udp2redis.cpp:139 | the time is the latest the clock has shown |
| SessionLaws.KeptExactlyIfActive | src/udp2redis.cpp:105-122 | over any run a client keeps its proxy if and only if at each sweep it has not been idle for longer than the timeout, and then the proxy has got all its datagrams |
| SessionLaws.NewClientMayBeSwept | src/udp2redis.cpp:131-163 | a sweep between a client's first datagram and its dispatch keeps the client if and only if the clock is still within the timeout |
| UdpBridges.UdpBridge.OnDatagram | src/udp2redis.cpp:75-101 | finds or creates the proxy and queues the payload, as the state machine does |
| UdpBridges.UdpBridge.EraseExpired | src/udp2redis.cpp:108-121 | walking the map in key order and erasing under the iterator visits every client once and erases exactly the expired ones |
| UdpBridges.UdpBridge.OnTick | src/udp2redis.cpp:106-122 | the sweep on the heap is the sweep of the state machine |
| UdpBridges.UdpBridge.Handle | src/udp2redis.cpp:64-124 | after any sequence of events the objects are where the state machine is, no two addresses sharing a proxy object |
| UltraSonics.UltraSonic.On | examples/espUdp/components/ultrasonic/UltraSonic.cpp:19-28 | for readings above 0 and below 4000 mm the distance moves to half its error, rounded up, on the same side, and the delay as in DelayStep; any other reading changes nothing; the distance stays in [0, 4000) |
| UltraSonics.DelayStep | examples/espUdp/components/ultrasonic/UltraSonic.cpp:25 | wraparound, unsigned halving and narrowing together add half the difference rounded down, for times below 2^31 |
| UltraSonics.DistanceError | examples/espUdp/components/ultrasonic/UltraSonic.cpp:24 | under a constant reading the error after k ticks is the first one divided by 2^k, rounded up, with its sign |
| UltraSonics.DistanceSettles | examples/espUdp/components/ultrasonic/UltraSonic.cpp:23-24 | from twelve ticks on the error is one millimetre for ever, unless it was zero from the start |
| UltraSonics.DelayError | examples/espUdp/components/ultrasonic/UltraSonic.cpp:25 | the delay's signed error after k ticks is the first one divided by 2^k, rounded up |
| Splitting.Split | examples/espUdp/components/gps/Neo6m.cpp:15-27 | the loop cuts at the first delimiter found from each position on, and ends for every nonempty delimiter |
| Splitting.OccursExactly | examples/espUdp/components/gps/Neo6m.cpp:20 | the delimiter is found at i exactly if the string is something of length i, the delimiter, and something |
| Splitting.JoinPieces | examples/espUdp/components/gps/Neo6m.cpp:15-27 | joining the pieces with the delimiter gives back the input |
| Splitting.PiecesAreClean | examples/espUdp/components/gps/Neo6m.cpp:20-25 | no piece contains the delimiter, whatever its length |
| Splitting.SplitJoin | examples/espUdp/components/gps/Neo6m.cpp:15-27 | splitting undoes joining if and only if in no piece a delimiter starts, even with help from the one after it |
| Splitting.FieldsRoundTrip | examples/espUdp/components/gps/Neo6m.cpp:15-27 | for a one-character delimiter: if and only if no piece contains it |
| Polling.Poller.OnTimer | examples/espUdp/components/limero/Poller.h:12-15 | a served tick asks the source the index points at and advances the index modulo 2^32; others change nothing |
| Polling.Balanced | examples/espUdp/components/limero/Poller.h:12-15 | while the index does not wrap, or always if the number of sources divides 2^32, no two request counts differ by more than one |
| Polling.RoundIsFair | examples/espUdp/components/limero/Poller.h:12-15 | under the same condition any n consecutive served ticks ask each of n sources once |
| Polling.FairExactly | examples/espUdp/components/limero/Poller.h:12-15 | a round from a given index is fair if and only if the index does not wrap in it or n divides 2^32 |
| Polling.FairForeverExactly | examples/espUdp/components/limero/Poller.h:12-15 | every round is fair, wrap included, if and only if n divides 2^32 |

## Left out

- The `limero` framework is not part of this model: a flow is a partial function that emits into a fresh output, a queue is a FIFO that does not drop.
- JSON and CBOR translation, the pub/sub/log mapping, Redis and the web server: payloads are opaque byte strings.
- Sockets, termios, DNS: `open`, `write` and `read` are oracles, "delivered" means accepted by `write`; `fsync`, `tcdrain` and `tcflush` have no effect.
- SerialDevice.Serial.Txd: assumes that only finitely many writes answer nothing or EAGAIN, because otherwise the loop does not end.
- SerialLink.Transfer: says what arrives after failed writes or reads only as the deframing and checking of the bytes that got through, because a truncated frame runs into the next one.
- SerialLink.OnRead: assumes that reads run dry and that some attempt to reconnect succeeds, because otherwise its loops do not end.
- CrlfCrc.CorruptionRejected: covers corruption of the payload, not of the four checksum digits; for those only the payload's own checksum is accepted (`OpenAccepts`).
- SessionLaws.IdleClientGone: speaks of clients with a message dispatched since their proxy was created, because an undispatched one has no time of last message; see NewClientMayBeSwept.
- Proxies after deletion: callbacks still in flight, the asynchronous disconnect. Events for a client without a proxy do nothing.
- UdpAddresses.TotalOrder: assumes a `memcmp` that returns -1, 0 or 1, and so do all session-table results, because the keys of the table are then told apart by equality.
- `handle_line` of the device beyond receiving its line: it goes on after a checksum mismatch, and assumes four bytes.
- Inputs longer than the range of the `int` loop counters.
- UltraSonics.UltraSonic.On: takes the reading in millimetres as an integer; its conversion from microseconds is floating point.
- GPS coordinates, the AS5600, Wifi, LED, semaphores, pin locks, the baud-rate table, configuration: floating point, hardware or finite tables.
