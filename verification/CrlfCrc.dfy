/** The checksum flows at the two ends of a serial line (src/Flows.cpp): a response is sealed
    with the CRC of its bytes, a received line is opened if its CRC as a string agrees. */
module CrlfCrc {
  import opened Words
  import opened Options
  import opened ByteStrings
  import opened BitStrings
  import opened Folds
  import opened Crc16
  import opened CrcDivision
  import opened CrcDetection
  import opened CrcSigned
  import opened CrcOrder
  import opened CrcFlips

  /** Text and checksum as a `String` end writes them. */
  function SealAs(charIsSigned: bool, payload: Bytes): Bytes {
    payload + Hex4(CrcOfString(charIsSigned, payload))
  }

  /** Payloads of fewer than two bytes are never accepted: the line must have six. */
  function Open(charIsSigned: bool, line: Bytes): Option<Bytes> {
    if |line| < 6 then None
    else
      var payload := line[..|line| - 4];
      if line[|line| - 4..] == Hex4(CrcOfString(charIsSigned, payload)) then Some(payload) else None
  }

  /** The end of `responseToCrlfCrc`; `ok` is false where the flow emits nothing. */
  method AppendCrc(response: Bytes) returns (ok: bool, frame: Bytes)
    ensures ok <==> response != []
    ensures ok ==> frame == response + Hex4(CrcOfBytes(response))
  {
    frame := response;
    if |frame| > 0 {
      var crc := Crc16Bytes(frame);
      frame := frame + crc;
      return true, frame;
    }
    return false, frame;
  }

  /** The start of `crlfCrcToRequest`, up to the JSON parser. */
  method CheckCrc(charIsSigned: bool, line: Bytes) returns (accepted: Option<Bytes>)
    ensures accepted == Open(charIsSigned, line)
  {
    if |line| < 6 {
      return None;
    }
    var crc := line[|line| - 4..];
    var payload := line[..|line| - 4];
    var crc2 := Crc16String(charIsSigned, payload);
    if crc != crc2 {
      return None;
    }
    return Some(payload);
  }

  /** The two ends compute one checksum for this payload, whatever `char` is at each. */
  predicate ChecksumsAgree(from: bool, to: bool, payload: Bytes) {
    CrcOfString(from, payload) == CrcOfString(to, payload)
  }

  /** Whatever four bytes follow a payload, they are accepted only if they are its checksum. */
  lemma OpenAccepts(charIsSigned: bool, payload: Bytes, trailer: Bytes)
    requires |trailer| == 4
    ensures Open(charIsSigned, payload + trailer)
         == if |payload| >= 2 && trailer == Hex4(CrcOfString(charIsSigned, payload)) then Some(payload) else None
  {
  }

  /** What is sealed is opened again exactly if the ends agree and the payload has two bytes. */
  lemma OpenSealed(from: bool, to: bool, payload: Bytes)
    ensures Open(to, SealAs(from, payload))
         == if |payload| >= 2 && ChecksumsAgree(from, to, payload) then Some(payload) else None
  {
    OpenAccepts(to, payload, Hex4(CrcOfString(from, payload)));
    Hex4Injective(CrcOfString(from, payload), CrcOfString(to, payload));
  }

  /** A sealed line with errors in its payload is accepted exactly if what the errors leave in a
      cleared register is the difference between the checksums of the two ends. */
  lemma CorruptionExact(from: bool, to: bool, sent: Bytes, received: Bytes)
    requires |received| == |sent|
    ensures Open(to, received + Hex4(CrcOfString(from, sent)))
         == if |sent| >= 2 && AbsorbAll(0, WidenAll(to, Zip(Xor8, sent, received)))
                           == Xor16(CrcOfString(from, sent), CrcOfString(to, sent))
            then Some(received) else None
  {
    var f, t, r := CrcOfString(from, sent), CrcOfString(to, sent), CrcOfString(to, received);
    OpenAccepts(to, received, Hex4(f));
    Hex4Injective(f, r);
    CrcDifference(to, sent, received);
    XorCommutes(t, r);
    XorTwice(r, t);
    XorTwice(f, t);
  }

  /** A line that would have been accepted, and whose payload then suffered a burst of up to
      sixteen bits, is accepted all the same in one case only: the receiver's `char` is signed
      and the burst is 80 FE 5F. */
  lemma BurstAccepted(from: bool, to: bool, sent: Bytes, received: Bytes, p: nat)
    requires ChecksumsAgree(from, to, sent)
    requires received != sent && BurstAt(MessageBits(sent), MessageBits(received), p)
    ensures Open(to, received + Hex4(CrcOfString(from, sent)))
         == if to && exists i :: DiffersUnseen(sent, received, i) then Some(received) else None
  {
    var f, r := CrcOfString(from, sent), CrcOfString(to, received);
    if to {
      SignedBurst(sent, received, p);
    } else {
      BurstDetected(sent, received, p);
    }
    OpenAccepts(to, received, Hex4(f));
    Hex4Injective(f, r);
  }

  /** An odd number of flipped bits makes any receiver throw the line away, and so does a burst
      of up to fifteen bits in a line that would have been accepted, or of sixteen where the
      receiver's `char` is unsigned. */
  lemma CorruptionRejected(from: bool, to: bool, sent: Bytes, received: Bytes, p: nat)
    requires |received| == |sent| && received != sent
    requires Weight(BitStrings.Xor(MessageBits(sent), MessageBits(received))) % 2 == 1
          || (ChecksumsAgree(from, to, sent) && ShortBurstAt(MessageBits(sent), MessageBits(received), p))
          || (ChecksumsAgree(from, to, sent) && !to && BurstAt(MessageBits(sent), MessageBits(received), p))
    ensures Open(to, received + Hex4(CrcOfString(from, sent))) == None
  {
    var f, r := CrcOfString(from, sent), CrcOfString(to, received);
    OpenAccepts(to, received, Hex4(f));
    Hex4Injective(f, r);
    if Weight(BitStrings.Xor(MessageBits(sent), MessageBits(received))) % 2 == 1 {
      OddFlipsShow(from, to, sent, received);
    } else if to {
      ShortSignedBurst(sent, received, p);
    } else {
      BurstDetected(sent, received, p);
    }
  }

  /** A line that would have been accepted, with two bits of its payload flipped at distance `d`,
      is accepted all the same exactly if `d` leaves the remainder at which the two cancel out. */
  lemma TwoFlipsAccepted(from: bool, to: bool, sent: Bytes, received: Bytes, i: nat, j: nat, d: nat)
    requires ChecksumsAgree(from, to, sent)
    requires DiffersInTwo(MessageBits(sent), MessageBits(received), i, j) && j == i + d
    ensures Open(to, received + Hex4(CrcOfString(from, sent)))
         == if |sent| >= 2 && d % ORDER == Gap(to, i, j) then Some(received) else None
  {
    var f, r := CrcOfString(from, sent), CrcOfString(to, received);
    TwoFlipsExact(to, sent, received, i, j, d);
    OpenAccepts(to, received, Hex4(f));
    Hex4Injective(f, r);
  }

  /** One, two or three flipped bits in the payload of a line that would have been accepted, of at
      most 4095 bytes or of 1303 where the receiver's `char` is signed, make it be thrown away. */
  lemma FewFlipsRejected(from: bool, to: bool, sent: Bytes, received: Bytes, m: Bits, n: Bits)
    requires ChecksumsAgree(from, to, sent) && |received| == |sent| <= SafeLength(to)
    requires m == MessageBits(sent) && n == MessageBits(received) && 1 <= Weight(BitStrings.Xor(m, n)) <= 3
    ensures Open(to, received + Hex4(CrcOfString(from, sent))) == None
  {
    var f, r := CrcOfString(from, sent), CrcOfString(to, received);
    UpToThreeFlips(to, sent, received, m, n);
    OpenAccepts(to, received, Hex4(f));
    Hex4Injective(f, r);
  }

  lemma ErrorAt42()
    ensures Xor8(0x42, 0x80) == 0xC2
  {
    assert Words.Xor(0x4, 0x8) == 0xC;
  }

  lemma ErrorAt43()
    ensures Xor8(0x43, 0xFE) == 0xBD
  {
    assert Words.Xor(0x4, 0xF) == 0xB;
  }

  lemma ErrorAt44()
    ensures Xor8(0x44, 0x5F) == 0x1B
  {
    assert Words.Xor(0x4, 0x5) == 0x1;
  }

  lemma ExampleDiffers(sent: Bytes, received: Bytes)
    requires sent == [0x41, 0x42, 0x43, 0x44, 0x45] && received == [0x41, 0xC2, 0xBD, 0x1B, 0x45]
    ensures SevenBit(sent) && DiffersUnseen(sent, received, 1) && CR !in received && LF !in received
  {
    ErrorAt42();
    ErrorAt43();
    ErrorAt44();
  }

  /** What such a difference does to seven-bit text. */
  lemma ExampleAccepted(sent: Bytes, received: Bytes, i: nat, p: nat)
    requires SevenBit(sent) && DiffersUnseen(sent, received, i) && p == 8 * i + 7
    ensures BurstAt(MessageBits(sent), MessageBits(received), p)
    ensures Open(true, received + Hex4(CrcOfBytes(sent))) == Some(received)
    ensures Open(false, received + Hex4(CrcOfBytes(sent))) == None
  {
    DiffersInBurst(sent, received, i);
    WhenChecksumsAgree(false, true, sent);
    BurstAccepted(false, true, sent, received, p);
    BurstAccepted(false, false, sent, received, p);
  }

  /** "ABCDE" sealed by a bridge and hit by a sixteen-bit burst: free of CR and LF, accepted by a
      bridge with signed `char`, thrown away by one with unsigned `char`. */
  lemma BurstExample(sent: Bytes, received: Bytes)
    requires sent == [0x41, 0x42, 0x43, 0x44, 0x45] && received == [0x41, 0xC2, 0xBD, 0x1B, 0x45]
    ensures BurstAt(MessageBits(sent), MessageBits(received), 15) && CR !in received && LF !in received
    ensures Open(true, received + Hex4(CrcOfBytes(sent))) == Some(received)
    ensures Open(false, received + Hex4(CrcOfBytes(sent))) == None
  {
    ExampleDiffers(sent, received);
    ExampleAccepted(sent, received, 1, 15);
  }

  lemma ToggledAt41()
    ensures Xor8(0x41, 0x61) == 0x20
    ensures Xor8(0x41, 0xC1) == 0x80
  {
    assert Words.Xor(0x4, 0x6) == 0x2;
    assert Words.Xor(0x4, 0xC) == 0x8;
  }

  lemma FlipsExampleToggled(sent: Bytes, received: Bytes, last: nat)
    requires last == 1303 && sent == seq(last + 1, _ => 0x41) && received == sent[0 := 0x61][last := 0xC1]
    ensures SevenBit(sent) && CR !in received && LF !in received
    ensures TwoToggled(sent, received, 0, 5, last, 7)
  {
    ToggledAt41();
    assert Pow2(5) == 0x20 && Pow2(7) == 0x80;
  }

  /** What two flips LEAD bits apart do to seven-bit text, if the second one hits a top bit. */
  lemma LeadFlipsAccepted(sent: Bytes, received: Bytes, i: nat, j: nat, d: nat)
    requires SevenBit(sent) && |sent| >= 2 && DiffersInTwo(MessageBits(sent), MessageBits(received), i, j)
    requires j == i + d && d == LEAD && SignBit(true, j) && !SignBit(true, i)
    ensures Open(true, received + Hex4(CrcOfBytes(sent))) == Some(received)
    ensures Open(false, received + Hex4(CrcOfBytes(sent))) == None
  {
    WhenChecksumsAgree(false, true, sent);
    TwoFlipsAccepted(false, true, sent, received, i, j, d);
    TwoFlipsAccepted(false, false, sent, received, i, j, d);
  }

  /** 1304 times "A" sealed by a bridge, bit 5 of the first byte and bit 7 of the last flipped:
      free of CR and LF, accepted by a bridge with signed `char`, thrown away by one with unsigned. */
  lemma FlipsExample(sent: Bytes, received: Bytes)
    requires sent == seq(1304, _ => 0x41) && received == sent[0 := 0x61][1303 := 0xC1]
    ensures DiffersInTwo(MessageBits(sent), MessageBits(received), 5, 10431) && CR !in received && LF !in received
    ensures Open(true, received + Hex4(CrcOfBytes(sent))) == Some(received)
    ensures Open(false, received + Hex4(CrcOfBytes(sent))) == None
  {
    FlipsExampleToggled(sent, received, 1303);
    ToggledDiffers(sent, received, 0, 5, 1303, 7);
    LeadFlipsAccepted(sent, received, 5, 10431, LEAD);
  }

  predicate SevenBit(data: Bytes) {
    forall b :: b in data ==> b < 0x80
  }

  lemma {:induction false} SevenBitHasNoHighBytes(data: Bytes)
    requires SevenBit(data)
    ensures HighBytes(data) == 0
  {
    if data != [] {
      assert data[0] in data;
      assert forall b :: b in data[1..] ==> b in data;
      SevenBitHasNoHighBytes(data[1..]);
    }
  }

  /** The ends agree on seven-bit text, and on everything where `char` is signed alike; where it
      is not, exactly on the payloads whose signs cancel out, never on a single high byte. */
  lemma WhenChecksumsAgree(from: bool, to: bool, payload: Bytes)
    ensures from == to || SevenBit(payload) ==> ChecksumsAgree(from, to, payload)
    ensures from != to && HighBytes(payload) == 1 ==> !ChecksumsAgree(from, to, payload)
    ensures from != to ==> (ChecksumsAgree(from, to, payload) <==> SignSyndrome(payload) == 0)
  {
    SignednessVisible(payload);
    SignedDiffersBySyndrome(payload);
    if SevenBit(payload) {
      SevenBitHasNoHighBytes(payload);
    }
  }
}
