/**
 * Two sockets driven through the call order of the echo client and server
 * (rel_client_1.py and rel_server_1.py): connect/accept, then, line by
 * line, the client sends, the server receives and sends the line back, and
 * the client receives it. Each side reads exactly the datagrams the other
 * side appended to its outbox, in order, with nothing lost or reordered.
 */
module Session {
  import opened ByteOrder
  import opened Frame
  import opened Transfer
  import opened Sock352

  /**
   * The state between two lines of the echo loop: the counters agree, the
   * client has nothing in flight, and the server's last echo (if any) is
   * both in flight on the server and waiting in the client's ack queue.
   */
  ghost predicate Connected(client: Socket, server: Socket)
    reads client, server
  {
    && client != server && client.Valid() && server.Valid()
    && client.mySequenceNumber == server.otherSequenceNumber
    && server.mySequenceNumber == client.otherSequenceNumber
    && client.transmitQueue == [] && client.outstanding == []
    && server.transmitQueue == client.ackQueue && server.outstanding == client.ackQueue
    && server.ackQueue == [] && |client.ackQueue| <= 1
  }

  /**
   * connect() on the client and accept() on the server, interleaved as
   * they run against each other: each receive reads the datagram the peer
   * has just sent.
   */
  method Handshake() returns (client: Socket, server: Socket)
    ensures fresh(client) && fresh(server)
    ensures Connected(client, server) && client.ackQueue == []
    ensures client.mySequenceNumber == CLIENT_ISN && server.mySequenceNumber == SERVER_ISN
    ensures client.outbox == [Encode(SynPacket()), Encode(ClientAckReply(SynAckReply(SynPacket())))]
    ensures server.outbox == [Encode(SynAckReply(SynPacket()))]
  {
    HandshakeFrames();
    WireRoundTrip(SynPacket(), HANDSHAKE_BUFSIZE);
    WireRoundTrip(SynAckReply(SynPacket()), HANDSHAKE_BUFSIZE);
    WireRoundTrip(ClientAckReply(SynAckReply(SynPacket())), HANDSHAKE_BUFSIZE);
    client := new Socket();
    server := new Socket();
    client.SendSyn();
    assert client.outbox[0] == Encode(SynPacket());
    server.RecvSyn(client.outbox[0]);
    assert server.lastPacketReceived == Some(SynAckReply(SynPacket()));
    server.SendSynAck();
    assert server.outbox[0] == Encode(SynAckReply(SynPacket()));
    client.RecvSynAck(server.outbox[0]);
    assert client.transmitQueue == [];
    client.SendHandshakeAck();
    assert client.outbox[1] == Encode(ClientAckReply(SynAckReply(SynPacket())));
    server.RecvHandshakeAck(client.outbox[1]);
    assert server.transmitQueue == [];
  }

  /**
   * The datagrams sendto puts on the wire for `line` numbered `n` while
   * `pending` waits to be acknowledged: one ACK-only frame per pending
   * packet, then the DATA packet.
   */
  function SentFrames(pending: seq<Packet>, n: nat, line: Bytes): (ds: seq<Bytes>)
    requires AllFit(pending) && n < TWO_32 && |line| < TWO_16
    ensures |ds| == |pending| + 1
  {
    AckFrames(pending) + [Encode(DataPacket(n, line))]
  }

  /**
   * How the peer reads those datagrams when its own in-flight packet (if
   * any) is the pending one: the ACK frame clears it from both lists and is
   * discarded, and the DATA packet is accepted whole.
   */
  lemma ReadingSentFrames(pending: seq<Packet>, other: nat, line: Bytes)
    requires |pending| <= 1 && AllFit(pending) && other + 1 < TWO_32 && |line| <= MAX_SIZE
    ensures FirstAccepted(SentFrames(pending, other + 1, line), other, false) == |pending|
    ensures Received(SentFrames(pending, other + 1, line)[|pending|], DATA_BUFSIZE) == DataPacket(other + 1, line)
    ensures AfterFrames(InFlight(pending, pending), SentFrames(pending, other + 1, line), false) == InFlight([], [])
  {
    var request := DataPacket(other + 1, line);
    WireRoundTrip(request, DATA_BUFSIZE);
    if pending == [] {
      var frames := SentFrames(pending, other + 1, line);
      assert frames == [Encode(request)];
      assert AfterFrames(InFlight([], []), frames[..0], false) == InFlight([], []);
    } else {
      var p := pending[0];
      assert pending == [p];
      assert AckFrames([p]) == [Encode(AckFor(p))];
      assert SentFrames(pending, other + 1, line) == [Encode(AckFor(p)), Encode(request)];
      ReadingAckThenData(p, other, line);
    }
  }

  /** The two datagrams of a send while one packet awaits acknowledgement, as the peer reads them. */
  lemma ReadingAckThenData(p: Packet, other: nat, line: Bytes)
    requires Fits(p) && other + 1 < TWO_32 && |line| <= MAX_SIZE
    ensures FirstAccepted([Encode(AckFor(p)), Encode(DataPacket(other + 1, line))], other, false) == 1
    ensures AfterFrames(InFlight([p], [p]), [Encode(AckFor(p)), Encode(DataPacket(other + 1, line))], false)
         == InFlight([], [])
  {
    var ack, data := Encode(AckFor(p)), Encode(DataPacket(other + 1, line));
    WireRoundTrip(AckFor(p), DATA_BUFSIZE);
    WireRoundTrip(DataPacket(other + 1, line), DATA_BUFSIZE);
    assert [ack, data][1..] == [data];
    var start := InFlight([p], [p]);
    AfterOneMoreFrame(start, [], ack, false);
    AfterOneMoreFrame(start, [ack], data, false);
    assert [] + [ack] == [ack] && [ack] + [data] == [ack, data];
    AckClearsOnlyPacket(p);
  }

  /** The acknowledgement of the only packet in flight leaves nothing in flight. */
  lemma AckClearsOnlyPacket(p: Packet)
    ensures AckStep(InFlight([p], [p]), p.seqNum, false) == InFlight([], [])
  {
    assert [p][1..] == [];
  }

  /**
   * recvfrom on either side of the echo loop: the peer's datagrams clear
   * what was in flight, and the line numbered one past the last accepted
   * packet is returned and queued for acknowledgement.
   */
  method ReceiveLine(sock: Socket, pending: seq<Packet>, frames: seq<Bytes>, line: Bytes)
    returns (received: Option<Bytes>)
    requires sock.Valid() && sock.otherSequenceNumber + 1 < TWO_32 && |line| <= MAX_SIZE
    requires |pending| <= 1 && AllFit(pending)
    requires sock.transmitQueue == pending && sock.outstanding == pending
    requires frames == SentFrames(pending, sock.otherSequenceNumber + 1, line)
    modifies sock
    ensures received == Some(line)
    ensures sock.Valid()
    ensures sock.otherSequenceNumber == old(sock.otherSequenceNumber) + 1
    ensures sock.transmitQueue == [] && sock.outstanding == []
    ensures sock.ackQueue == old(sock.ackQueue) + [DataPacket(sock.otherSequenceNumber, line)]
    ensures sock.mySequenceNumber == old(sock.mySequenceNumber) && sock.outbox == old(sock.outbox)
  {
    ReadingSentFrames(pending, sock.otherSequenceNumber, line);
    received := ReceiveLast(sock, frames, DataPacket(sock.otherSequenceNumber + 1, line));
  }

  /**
   * recvfrom over datagrams whose last one is the first acceptable and
   * whose acknowledgements empty both lists: all of them are consumed and
   * the last one's payload is returned.
   */
  method ReceiveLast(sock: Socket, frames: seq<Bytes>, last: Packet) returns (received: Option<Bytes>)
    requires sock.Valid() && frames != []
    requires FirstAccepted(frames, sock.otherSequenceNumber, false) == |frames| - 1
    requires Received(frames[|frames| - 1], DATA_BUFSIZE) == last
    requires AfterFrames(sock.InFlightState(), frames, false) == InFlight([], [])
    modifies sock
    ensures received == Some(last.data)
    ensures sock.Valid()
    ensures sock.otherSequenceNumber == old(sock.otherSequenceNumber) + 1
    ensures sock.transmitQueue == [] && sock.outstanding == []
    ensures sock.ackQueue == old(sock.ackQueue) + [last]
    ensures sock.mySequenceNumber == old(sock.mySequenceNumber) && sock.outbox == old(sock.outbox)
  {
    var consumed;
    received, consumed := sock.Receive(frames, false);
    assert frames[..consumed] == frames;
  }

  /**
   * rel_server_1.py's loop body: receive the client's line, then send it
   * back; the send flushes the line's acknowledgement ahead of the echo.
   */
  method ServeLine(server: Socket, pending: seq<Packet>, frames: seq<Bytes>, line: Bytes)
    returns (received: Option<Bytes>)
    requires server.Valid() && server.otherSequenceNumber + 1 < TWO_32 && server.mySequenceNumber + 1 < TWO_32
    requires |line| <= MAX_SIZE && |pending| <= 1 && AllFit(pending)
    requires server.transmitQueue == pending && server.outstanding == pending && server.ackQueue == []
    requires frames == SentFrames(pending, server.otherSequenceNumber + 1, line)
    modifies server
    ensures received == Some(line)
    ensures server.Valid()
    ensures server.otherSequenceNumber == old(server.otherSequenceNumber) + 1
    ensures server.mySequenceNumber == old(server.mySequenceNumber) + 1
    ensures server.outbox == old(server.outbox)
                             + SentFrames([DataPacket(server.otherSequenceNumber, line)], server.mySequenceNumber, line)
    ensures server.transmitQueue == [DataPacket(server.mySequenceNumber, line)]
    ensures server.outstanding == [DataPacket(server.mySequenceNumber, line)]
    ensures server.ackQueue == []
  {
    received := ReceiveLine(server, pending, frames, line);
    var ok := server.SendTo(received.value);
  }

  /**
   * One round of the echo loop: the client sends a line (acknowledging the
   * previous echo first), the server receives it and sends it back, and the
   * client receives it. The rounds chain: the state between lines is kept,
   * with this echo now the one awaiting acknowledgement.
   */
  method EchoLine(client: Socket, server: Socket, line: Bytes) returns (received: Option<Bytes>, echoed: Option<Bytes>)
    requires Connected(client, server)
    requires client.mySequenceNumber + 1 < TWO_32 && server.mySequenceNumber + 1 < TWO_32
    requires |line| <= MAX_SIZE
    modifies client, server
    ensures received == Some(line) && echoed == Some(line)
    ensures Connected(client, server)
    ensures client.mySequenceNumber == old(client.mySequenceNumber) + 1
    ensures server.mySequenceNumber == old(server.mySequenceNumber) + 1
    ensures client.ackQueue == [DataPacket(server.mySequenceNumber, line)]
    ensures client.outbox == old(client.outbox) + SentFrames(old(client.ackQueue), client.mySequenceNumber, line)
    ensures server.outbox == old(server.outbox)
                             + SentFrames([DataPacket(client.mySequenceNumber, line)], server.mySequenceNumber, line)
  {
    var c := client.mySequenceNumber;
    var pending := client.ackQueue;
    // The client sends the line.
    var sent := |client.outbox|;
    var ok := client.SendTo(line);
    // The server reads what the client sent, and sends it back.
    var served := |server.outbox|;
    received := ServeLine(server, pending, client.outbox[sent..], line);
    // The client reads what the server sent.
    assert client.transmitQueue == [DataPacket(c + 1, line)];
    echoed := ReceiveLine(client, [DataPacket(c + 1, line)], server.outbox[served..], line);
  }

  /**
   * rel_client_1.py's loop over its lines: every line comes back unchanged
   * and in order, and the server receives each line exactly once.
   */
  method EchoLines(client: Socket, server: Socket, lines: seq<Bytes>) returns (served: seq<Bytes>, echoed: seq<Bytes>)
    requires Connected(client, server)
    requires client.mySequenceNumber + |lines| < TWO_32 && server.mySequenceNumber + |lines| < TWO_32
    requires forall i | 0 <= i < |lines| :: |lines[i]| <= MAX_SIZE
    modifies client, server
    ensures served == lines && echoed == lines
    ensures Connected(client, server)
    ensures client.mySequenceNumber == old(client.mySequenceNumber) + |lines|
    ensures server.mySequenceNumber == old(server.mySequenceNumber) + |lines|
  {
    served, echoed := [], [];
    for i := 0 to |lines|
      invariant Connected(client, server)
      invariant client.mySequenceNumber == old(client.mySequenceNumber) + i
      invariant server.mySequenceNumber == old(server.mySequenceNumber) + i
      invariant served == lines[..i] && echoed == lines[..i]
    {
      var received, back := EchoLine(client, server, lines[i]);
      served, echoed := served + [received.value], echoed + [back.value];
      assert lines[..i + 1] == lines[..i] + [lines[i]];
    }
    assert lines[..|lines|] == lines;
  }

  /**
   * Connect, then echo every line of the client's input: what comes back
   * is exactly what was sent, which is what the client's digest check
   * compares.
   */
  method EchoSession(lines: seq<Bytes>) returns (served: seq<Bytes>, echoed: seq<Bytes>)
    requires CLIENT_ISN + |lines| < TWO_32
    requires forall i | 0 <= i < |lines| :: |lines[i]| <= MAX_SIZE
    ensures served == lines && echoed == lines
  {
    var client, server := Handshake();
    served, echoed := EchoLines(client, server, lines);
  }
}
