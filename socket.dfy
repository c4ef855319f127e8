/**
 * The sock352 Socket with its datagram socket abstracted away: every
 * datagram the socket sends is appended to `outbox`, and every method that
 * reads from the network takes the datagrams it will read as a parameter.
 * The class keeps the source's per-connection bookkeeping: the transmit
 * queue, the acknowledgement queue, the list of outstanding packets and
 * the two sequence counters.
 */
module Sock352 {
  import opened ByteOrder
  import opened Frame
  import opened Transfer

  /** How a call to close() ends. */
  datatype CloseStatus =
    | Closed      // FIN sent, the peer's frame received, final ACKs sent
    | Waiting     // every datagram read and none acceptable: close() is still blocked
    | PackFailed  // pack raised struct.error on the FIN (its sequence number is too large)

  class Socket {
    var transmitQueue: seq<Packet>
    var ackQueue: seq<Packet>
    /** The module-level list_of_outstanding_packets, without the send timestamps. */
    var outstanding: seq<Packet>
    var mySequenceNumber: nat
    var otherSequenceNumber: nat
    /** lastpacketrecived: the reply prepared by the last handshake receive (None before it). */
    var lastPacketReceived: Option<Packet>
    /** Every datagram sent, oldest first. */
    var outbox: seq<Bytes>

    /** Everything queued for acknowledgement and the prepared reply can be packed. */
    ghost predicate Valid()
      reads this
    {
      AllFit(ackQueue) && (lastPacketReceived.Some? ==> Fits(lastPacketReceived.value))
    }

    function InFlightState(): InFlight
      reads this
    {
      InFlight(transmitQueue, outstanding)
    }

    constructor ()
      ensures Valid()
      ensures transmitQueue == [] && ackQueue == [] && outstanding == [] && outbox == []
      ensures mySequenceNumber == 0 && otherSequenceNumber == 0 && lastPacketReceived == None
    {
      transmitQueue, ackQueue, outstanding, outbox := [], [], [], [];
      mySequenceNumber, otherSequenceNumber := 0, 0;
      lastPacketReceived := None;
    }

    /** Pack a packet and send the bytes; pack may raise struct.error first, and then nothing is sent. */
    method Transmit(p: Packet) returns (ok: bool)
      modifies this`outbox
      ensures ok <==> Fits(p)
      ensures outbox == old(outbox) + if ok then [Encode(p)] else []
    {
      var r := Pack(p);
      ok := r.Packed?;
      if ok {
        outbox := outbox + [r.bytes];
      }
    }

    // -------------------------------------------------------------------
    // Handshake: sendtomyversion and recvfrommyverison, modes 0 to 2

    /** sendtomyversion mode 0 (client): send a SYN numbered 0x8ecb and queue it. */
    method SendSyn()
      requires Valid()
      modifies this
      ensures Valid()
      ensures mySequenceNumber == CLIENT_ISN
      ensures transmitQueue == old(transmitQueue) + [SynPacket()]
      ensures outbox == old(outbox) + [Encode(SynPacket())]
      ensures ackQueue == old(ackQueue) && outstanding == old(outstanding)
      ensures otherSequenceNumber == old(otherSequenceNumber) && lastPacketReceived == old(lastPacketReceived)
    {
      var syn := SynPacket();
      mySequenceNumber := syn.seqNum;
      transmitQueue := transmitQueue + [syn];
      var _ := Transmit(syn);
    }

    /** sendtomyversion mode 1 (server): queue and send the SYN+ACK prepared on receipt of the SYN. */
    method SendSynAck()
      requires Valid() && lastPacketReceived.Some?
      modifies this
      ensures Valid()
      ensures lastPacketReceived == old(lastPacketReceived)
      ensures transmitQueue == old(transmitQueue) + [lastPacketReceived.value]
      ensures outbox == old(outbox) + [Encode(lastPacketReceived.value)]
      ensures ackQueue == old(ackQueue) && outstanding == old(outstanding)
      ensures mySequenceNumber == old(mySequenceNumber) && otherSequenceNumber == old(otherSequenceNumber)
    {
      transmitQueue := transmitQueue + [lastPacketReceived.value];
      var _ := Transmit(lastPacketReceived.value);
    }

    /**
     * sendtomyversion mode 2 (client): send the prepared ACK, but only once
     * the SYN has left the transmit queue.
     */
    method SendHandshakeAck()
      requires Valid()
      requires transmitQueue == [] ==> lastPacketReceived.Some?
      modifies this
      ensures Valid()
      ensures lastPacketReceived == old(lastPacketReceived)
      ensures transmitQueue == old(transmitQueue) && ackQueue == old(ackQueue) && outstanding == old(outstanding)
      ensures outbox == old(outbox) + if transmitQueue == [] then [Encode(lastPacketReceived.value)] else []
      ensures mySequenceNumber == old(mySequenceNumber) && otherSequenceNumber == old(otherSequenceNumber)
    {
      if |transmitQueue| == 0 {
        var _ := Transmit(lastPacketReceived.value);
      }
    }

    /**
     * recvfrommyverison mode 0 (server): take the peer's sequence number
     * from the SYN and prepare the SYN+ACK numbered 0x2be6.
     */
    method RecvSyn(datagram: Bytes)
      requires Valid()
      modifies this
      ensures Valid()
      ensures otherSequenceNumber == Received(datagram, HANDSHAKE_BUFSIZE).seqNum
      ensures mySequenceNumber == SERVER_ISN
      ensures lastPacketReceived == Some(SynAckReply(Received(datagram, HANDSHAKE_BUFSIZE)))
      ensures transmitQueue == old(transmitQueue) && ackQueue == old(ackQueue)
      ensures outstanding == old(outstanding) && outbox == old(outbox)
    {
      var packet := Received(datagram, HANDSHAKE_BUFSIZE);
      otherSequenceNumber := packet.seqNum;
      packet := packet.(ackNum := packet.seqNum);
      packet := packet.(cntl := SetFlag(packet.cntl, ACK));
      packet := packet.(seqNum := SERVER_ISN);
      mySequenceNumber := packet.seqNum;
      lastPacketReceived := Some(packet);
    }

    /**
     * The transmit-queue removal of handshake receive modes 1 and 2: it
     * removes every entry numbered `ack` while indexing up to the original
     * length, so it runs without IndexError exactly when no entry before
     * the last one matches; then it removes at most that last entry.
     */
    method RemoveDuringRange(ack: nat)
      requires forall j | 0 <= j < |transmitQueue| - 1 :: transmitQueue[j].seqNum != ack
      modifies this`transmitQueue
      ensures transmitQueue == RemoveFirstBySeq(old(transmitQueue), ack)
    {
      var n := |transmitQueue|;
      for i := 0 to n
        invariant transmitQueue == old(transmitQueue)
        invariant forall j | 0 <= j < i :: transmitQueue[j].seqNum != ack
      {
        if transmitQueue[i].seqNum == ack {
          RemoveFirstAt(transmitQueue, ack, i);
          transmitQueue := transmitQueue[..i] + transmitQueue[i + 1..];
          assert i == n - 1;
          return;
        }
      }
      RemoveFirstUnchanged(transmitQueue, ack);
    }

    /**
     * recvfrommyverison mode 1 (server): the final ACK of the handshake
     * removes the SYN+ACK it acknowledges from the transmit queue.
     */
    method RecvHandshakeAck(datagram: Bytes)
      requires Valid()
      requires forall j | 0 <= j < |transmitQueue| - 1 ::
                 transmitQueue[j].seqNum != Received(datagram, HANDSHAKE_BUFSIZE).ackNum
      modifies this
      ensures Valid()
      ensures transmitQueue == RemoveFirstBySeq(old(transmitQueue), Received(datagram, HANDSHAKE_BUFSIZE).ackNum)
      ensures lastPacketReceived == Some(ServerAckReply(Received(datagram, HANDSHAKE_BUFSIZE)))
      ensures mySequenceNumber == old(mySequenceNumber) && otherSequenceNumber == old(otherSequenceNumber)
      ensures ackQueue == old(ackQueue) && outstanding == old(outstanding) && outbox == old(outbox)
    {
      var packet := Received(datagram, HANDSHAKE_BUFSIZE);
      RemoveDuringRange(packet.ackNum);
      packet := packet.(cntl := MaskFlag(packet.cntl, ACK));
      packet := packet.(ackNum := packet.seqNum);
      packet := packet.(seqNum := 0);
      lastPacketReceived := Some(packet);
    }

    /**
     * recvfrommyverison mode 2 (client): the SYN+ACK removes the SYN it
     * acknowledges, gives the peer's sequence number, and becomes the ACK
     * to send back.
     */
    method RecvSynAck(datagram: Bytes)
      requires Valid()
      requires forall j | 0 <= j < |transmitQueue| - 1 ::
                 transmitQueue[j].seqNum != Received(datagram, HANDSHAKE_BUFSIZE).ackNum
      modifies this
      ensures Valid()
      ensures transmitQueue == RemoveFirstBySeq(old(transmitQueue), Received(datagram, HANDSHAKE_BUFSIZE).ackNum)
      ensures otherSequenceNumber == Received(datagram, HANDSHAKE_BUFSIZE).seqNum
      ensures lastPacketReceived == Some(ClientAckReply(Received(datagram, HANDSHAKE_BUFSIZE)))
      ensures mySequenceNumber == old(mySequenceNumber)
      ensures ackQueue == old(ackQueue) && outstanding == old(outstanding) && outbox == old(outbox)
    {
      var packet := Received(datagram, HANDSHAKE_BUFSIZE);
      RemoveDuringRange(packet.ackNum);
      otherSequenceNumber := packet.seqNum;
      lastPacketReceived := Some(ClientAckReply(packet));
    }

    /** connect(): SYN out, SYN+ACK in, ACK out (if the SYN was acknowledged). */
    method Connect(synAck: Bytes)
      requires Valid() && transmitQueue == []
      modifies this
      ensures Valid()
      ensures mySequenceNumber == CLIENT_ISN
      ensures otherSequenceNumber == Received(synAck, HANDSHAKE_BUFSIZE).seqNum
      ensures transmitQueue == RemoveFirstBySeq([SynPacket()], Received(synAck, HANDSHAKE_BUFSIZE).ackNum)
      ensures lastPacketReceived == Some(ClientAckReply(Received(synAck, HANDSHAKE_BUFSIZE)))
      ensures outbox == old(outbox) + [Encode(SynPacket())]
                        + if transmitQueue == [] then [Encode(lastPacketReceived.value)] else []
      ensures ackQueue == old(ackQueue) && outstanding == old(outstanding)
    {
      SendSyn();
      RecvSynAck(synAck);
      SendHandshakeAck();
    }

    /** accept(): SYN in, SYN+ACK out, final ACK in. */
    method Accept(syn: Bytes, finalAck: Bytes)
      requires Valid() && transmitQueue == []
      modifies this
      ensures Valid()
      ensures mySequenceNumber == SERVER_ISN
      ensures otherSequenceNumber == Received(syn, HANDSHAKE_BUFSIZE).seqNum
      ensures outbox == old(outbox) + [Encode(SynAckReply(Received(syn, HANDSHAKE_BUFSIZE)))]
      ensures transmitQueue == RemoveFirstBySeq([SynAckReply(Received(syn, HANDSHAKE_BUFSIZE))],
                                                Received(finalAck, HANDSHAKE_BUFSIZE).ackNum)
      ensures lastPacketReceived == Some(ServerAckReply(Received(finalAck, HANDSHAKE_BUFSIZE)))
      ensures ackQueue == old(ackQueue) && outstanding == old(outstanding)
    {
      RecvSyn(syn);
      SendSynAck();
      RecvHandshakeAck(finalAck);
    }

    // -------------------------------------------------------------------
    // Sending

    /**
     * The loop shared by sendto, sendclosingpacket and sendfinalACK: send
     * every queued packet, oldest first, rewritten as an ACK-only frame,
     * and empty the queue.
     */
    method FlushAcks()
      requires Valid()
      modifies this
      ensures Valid()
      ensures ackQueue == []
      ensures outbox == old(outbox) + AckFrames(old(ackQueue))
      ensures transmitQueue == old(transmitQueue) && outstanding == old(outstanding)
      ensures mySequenceNumber == old(mySequenceNumber) && otherSequenceNumber == old(otherSequenceNumber)
      ensures lastPacketReceived == old(lastPacketReceived)
    {
      ghost var sent := 0;
      while |ackQueue| > 0
        invariant Valid()
        invariant 0 <= sent <= |old(ackQueue)|
        invariant ackQueue == old(ackQueue)[sent..]
        invariant outbox == old(outbox) + AckFrames(old(ackQueue)[..sent])
        invariant transmitQueue == old(transmitQueue) && outstanding == old(outstanding)
        invariant mySequenceNumber == old(mySequenceNumber) && otherSequenceNumber == old(otherSequenceNumber)
        invariant lastPacketReceived == old(lastPacketReceived)
        decreases |ackQueue|
      {
        var ackOnly := AckFor(ackQueue[0]);
        var _ := Transmit(ackOnly);
        ackQueue := ackQueue[1..];
        assert old(ackQueue)[..sent + 1][..sent] == old(ackQueue)[..sent];
        sent := sent + 1;
      }
      assert old(ackQueue)[..sent] == old(ackQueue);
    }

    /**
     * sendto(buffer): flush the pending acknowledgements, then send the
     * payload as one DATA packet numbered one past the previous one and
     * record it in the transmit queue and the outstanding list. If pack
     * raises (number or length out of range), the counter has already moved.
     */
    method SendTo(buffer: Bytes) returns (ok: bool)
      requires Valid()
      modifies this
      ensures Valid()
      ensures ackQueue == []
      ensures mySequenceNumber == old(mySequenceNumber) + 1
      ensures ok <==> Fits(DataPacket(mySequenceNumber, buffer))
      ensures outbox == old(outbox) + AckFrames(old(ackQueue))
                        + if ok then [Encode(DataPacket(mySequenceNumber, buffer))] else []
      ensures transmitQueue == old(transmitQueue) + if ok then [DataPacket(mySequenceNumber, buffer)] else []
      ensures outstanding == old(outstanding) + if ok then [DataPacket(mySequenceNumber, buffer)] else []
      ensures otherSequenceNumber == old(otherSequenceNumber) && lastPacketReceived == old(lastPacketReceived)
    {
      FlushAcks();
      var packet := NewPacket();
      packet := packet.(data := buffer, size := |buffer|);
      packet := packet.(cntl := SetFlag(packet.cntl, DATA));
      mySequenceNumber := mySequenceNumber + 1;
      packet := packet.(seqNum := mySequenceNumber, ackNum := 0);
      ok := Transmit(packet);
      if ok {
        outstanding := outstanding + [packet];
        transmitQueue := transmitQueue + [packet];
      }
    }

    /** sendclosingpacket(): flush the acknowledgements, then send and record a FIN. */
    method SendClosingPacket() returns (ok: bool)
      requires Valid()
      modifies this
      ensures Valid()
      ensures ackQueue == []
      ensures mySequenceNumber == old(mySequenceNumber) + 1
      ensures ok <==> Fits(FinPacket(mySequenceNumber))
      ensures outbox == old(outbox) + AckFrames(old(ackQueue))
                        + if ok then [Encode(FinPacket(mySequenceNumber))] else []
      ensures transmitQueue == old(transmitQueue) + if ok then [FinPacket(mySequenceNumber)] else []
      ensures outstanding == old(outstanding) + if ok then [FinPacket(mySequenceNumber)] else []
      ensures otherSequenceNumber == old(otherSequenceNumber) && lastPacketReceived == old(lastPacketReceived)
    {
      FlushAcks();
      var packet := NewPacket();
      packet := packet.(cntl := SetFlag(packet.cntl, FIN), ackNum := 0);
      mySequenceNumber := mySequenceNumber + 1;
      packet := packet.(seqNum := mySequenceNumber);
      ok := Transmit(packet);
      if ok {
        outstanding := outstanding + [packet];
        transmitQueue := transmitQueue + [packet];
      }
    }

    /** sendfinalACK(): flush the acknowledgements (send failures are swallowed). */
    method SendFinalAck()
      requires Valid()
      modifies this
      ensures Valid()
      ensures ackQueue == []
      ensures outbox == old(outbox) + AckFrames(old(ackQueue))
      ensures transmitQueue == old(transmitQueue) && outstanding == old(outstanding)
      ensures mySequenceNumber == old(mySequenceNumber) && otherSequenceNumber == old(otherSequenceNumber)
      ensures lastPacketReceived == old(lastPacketReceived)
    {
      FlushAcks();
    }

    // -------------------------------------------------------------------
    // Receiving

    /** recvfrom's transmit-queue search: remove the first entry numbered `ack`, then stop. */
    method RemoveFromTransmitQueue(ack: nat)
      modifies this`transmitQueue
      ensures transmitQueue == RemoveFirstBySeq(old(transmitQueue), ack)
    {
      for i := 0 to |transmitQueue|
        invariant transmitQueue == old(transmitQueue)
        invariant forall j | 0 <= j < i :: transmitQueue[j].seqNum != ack
      {
        if transmitQueue[i].seqNum == ack {
          RemoveFirstAt(transmitQueue, ack, i);
          transmitQueue := transmitQueue[..i] + transmitQueue[i + 1..];
          return;
        }
      }
      NoneMatch(transmitQueue, ack);
    }

    /**
     * The outstanding-list search: every entry numbered `ack` is removed
     * while iterating over the same list, so Python's list iterator (an
     * index into the list as it is now) skips the entry after each removal.
     */
    method RemoveFromOutstanding(ack: nat)
      modifies this`outstanding
      ensures outstanding == RemoveWhileIterating(old(outstanding), ack)
    {
      IterateRemovingIsLoop([], outstanding, ack);
      assert [] + outstanding == outstanding;
      var pos := 0;
      while pos < |outstanding|
        invariant IterateRemoving(outstanding, pos, ack) == RemoveWhileIterating(old(outstanding), ack)
        decreases |outstanding| + 1 - pos
      {
        if outstanding[pos].seqNum == ack {
          outstanding := outstanding[..pos] + outstanding[pos + 1..];
        }
        pos := pos + 1;
      }
    }

    /**
     * The acknowledgement half of one loop iteration: recvfrom searches the
     * outstanding list only when the transmit queue is non-empty,
     * recvfromforclosing always.
     */
    method AckIncoming(ack: nat, closing: bool)
      modifies this`transmitQueue, this`outstanding
      ensures InFlightState() == AckStep(old(InFlightState()), ack, closing)
    {
      if |transmitQueue| != 0 {
        RemoveFromTransmitQueue(ack);
        if !closing {
          RemoveFromOutstanding(ack);
        }
      }
      if closing {
        RemoveFromOutstanding(ack);
      }
    }

    /**
     * The loop of recvfrom (`closing` false) and recvfromforclosing
     * (`closing` true), up to the frame it accepts: read the datagrams in
     * order, match each one's acknowledgement, and stop after the first
     * acceptable frame (`found`) or when the datagrams run out.
     */
    method ScanFrames(inputs: seq<Bytes>, closing: bool) returns (consumed: nat, found: bool)
      modifies this`transmitQueue, this`outstanding
      ensures found <==> FirstAccepted(inputs, otherSequenceNumber, closing) < |inputs|
      ensures consumed == if found then FirstAccepted(inputs, otherSequenceNumber, closing) + 1 else |inputs|
      ensures InFlightState() == AfterFrames(old(InFlightState()), inputs[..consumed], closing)
    {
      consumed, found := 0, false;
      while consumed < |inputs| && !found
        invariant consumed <= |inputs|
        invariant !found ==> consumed <= FirstAccepted(inputs, otherSequenceNumber, closing)
        invariant found ==> 0 < consumed && consumed - 1 == FirstAccepted(inputs, otherSequenceNumber, closing)
        invariant InFlightState() == AfterFrames(old(InFlightState()), inputs[..consumed], closing)
      {
        FirstAcceptedAt(inputs, otherSequenceNumber, closing, consumed);
        var packet := Received(inputs[consumed], DATA_BUFSIZE);
        AckIncoming(packet.ackNum, closing);
        assert inputs[..consumed + 1][..consumed] == inputs[..consumed];
        consumed := consumed + 1;
        found := Acceptable(packet, otherSequenceNumber, closing);
      }
    }

    /**
     * recvfrom(nbytes) (`closing` false; nbytes is ignored) and
     * recvfromforclosing() (`closing` true): the frame the scan stops at is
     * accepted, which advances the expected
     * sequence number and queues the frame for acknowledgement. None when
     * the datagrams run out first (the source keeps blocking).
     */
    method Receive(inputs: seq<Bytes>, closing: bool) returns (data: Option<Bytes>, consumed: nat)
      requires Valid()
      modifies this
      ensures Valid()
      ensures data.Some? <==> FirstAccepted(inputs, old(otherSequenceNumber), closing) < |inputs|
      ensures consumed == if data.Some? then FirstAccepted(inputs, old(otherSequenceNumber), closing) + 1 else |inputs|
      ensures InFlightState() == AfterFrames(old(InFlightState()), inputs[..consumed], closing)
      ensures data.Some? ==>
                && data.value == Received(inputs[consumed - 1], DATA_BUFSIZE).data
                && otherSequenceNumber == old(otherSequenceNumber) + 1
                && ackQueue == old(ackQueue) + [Received(inputs[consumed - 1], DATA_BUFSIZE)]
      ensures data.None? ==> otherSequenceNumber == old(otherSequenceNumber) && ackQueue == old(ackQueue)
      ensures mySequenceNumber == old(mySequenceNumber) && lastPacketReceived == old(lastPacketReceived)
      ensures outbox == old(outbox)
    {
      var found;
      consumed, found := ScanFrames(inputs, closing);
      if found {
        var packet := Received(inputs[consumed - 1], DATA_BUFSIZE);
        otherSequenceNumber := otherSequenceNumber + 1;
        ackQueue := ackQueue + [packet];
        data := Some(packet.data);
      } else {
        data := None;
      }
    }

    /**
     * close(): send the FIN, wait for the peer's FIN (or next frame), then
     * acknowledge it. The FIN is numbered one past the last packet sent.
     */
    method Close(inputs: seq<Bytes>) returns (status: CloseStatus, consumed: nat)
      requires Valid()
      modifies this
      ensures Valid()
      ensures mySequenceNumber == old(mySequenceNumber) + 1
      ensures status == PackFailed <==> !Fits(FinPacket(mySequenceNumber))
      ensures status == PackFailed ==>
                && consumed == 0 && InFlightState() == old(InFlightState())
                && otherSequenceNumber == old(otherSequenceNumber)
      ensures status == Waiting ==>
                && FirstAccepted(inputs, old(otherSequenceNumber), true) == consumed == |inputs|
                && otherSequenceNumber == old(otherSequenceNumber)
      ensures status == Closed ==>
                && consumed == FirstAccepted(inputs, old(otherSequenceNumber), true) + 1 <= |inputs|
                && otherSequenceNumber == old(otherSequenceNumber) + 1
      ensures status != PackFailed ==>
                InFlightState() == AfterFrames(InFlight(old(transmitQueue) + [FinPacket(mySequenceNumber)],
                                                        old(outstanding) + [FinPacket(mySequenceNumber)]),
                                               inputs[..consumed], true)
      ensures ackQueue == []
      ensures outbox == old(outbox) + AckFrames(old(ackQueue))
                        + (if status == PackFailed then [] else [Encode(FinPacket(mySequenceNumber))])
                        + (if status == Closed then AckFrames([Received(inputs[consumed - 1], DATA_BUFSIZE)]) else [])
      ensures lastPacketReceived == old(lastPacketReceived)
    {
      var ok := SendClosingPacket();
      if !ok {
        return PackFailed, 0;
      }
      var data;
      data, consumed := Receive(inputs, true);
      if data.None? {
        return Waiting, consumed;
      }
      SendFinalAck();
      status := Closed;
    }
  }
}
