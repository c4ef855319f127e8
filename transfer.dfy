/**
 * The per-connection rules of sock352 stated on values: how the handshake
 * rewrites a received packet into its reply, how pending acknowledgements
 * become ACK-only frames, how an incoming acknowledgement is matched
 * against the transmit queue and the outstanding list, and which frames
 * the receiver accepts.
 */
module Transfer {
  import opened ByteOrder
  import opened Frame

  /** Initial sequence number of the active (connecting) side. */
  const CLIENT_ISN: nat := 0x8ecb
  /** Initial sequence number of the passive (accepting) side. */
  const SERVER_ISN: nat := 0x2be6
  /** recvfrom buffer size used during the handshake. */
  const HANDSHAKE_BUFSIZE: nat := 1000

  /**
   * recvfrom buffer size of the data path: a whole packet, header included.
   * The source passes MAX_SIZE, which cuts the payload short (see
   * PayloadCutAtMaxSize); the model uses MAX_PKT.
   */
  const DATA_BUFSIZE: nat := MAX_PKT

  // ---------------------------------------------------------------------
  // Receiving a datagram

  /** What a datagram socket's recvfrom(bufsize) hands back: the excess is discarded. */
  function Truncate(d: Bytes, bufsize: nat): (r: Bytes)
    ensures |r| <= bufsize && r <= d
    ensures |d| <= bufsize ==> r == d
  {
    if |d| <= bufsize then d else d[..bufsize]
  }

  /**
   * A fresh packet unpacked from a datagram read with recvfrom(bufsize):
   * whatever arrives, it can be packed again.
   */
  function Received(d: Bytes, bufsize: nat): (r: Packet)
    ensures Fits(r)
  {
    Unpacked(NewPacket(), Truncate(d, bufsize))
  }

  /**
   * With a header's worth of bytes, header and payload together are exactly
   * the part of the datagram the buffer took, and the payload received is a
   * prefix of the payload sent.
   */
  lemma ReceivedPayloadPrefix(d: Bytes, bufsize: nat)
    requires HEADER_SIZE <= |d| && HEADER_SIZE <= bufsize
    ensures HEADER_SIZE + |Received(d, bufsize).data| == if |d| <= bufsize then |d| else bufsize
    ensures Received(d, bufsize).data <= d[HEADER_SIZE..]
  {
  }

  /** A packet sent whole (within the buffer size) arrives unchanged. */
  lemma WireRoundTrip(p: Packet, bufsize: nat)
    requires Fits(p) && HEADER_SIZE + |p.data| <= bufsize
    ensures Received(Encode(p), bufsize) == p
  {
    EncodeLayout(p);
    RoundTrip(p, NewPacket());
  }

  /**
   * The data path as written reads datagrams with recvfrom(MAX_SIZE): a
   * DATA packet whose payload is longer than MAX_SIZE - 12 bytes (up to the
   * documented 63 KB limit) loses the tail of its payload to the header's
   * 12 bytes.
   */
  lemma PayloadCutAtMaxSize(n: nat, buffer: Bytes)
    requires n < TWO_32 && MAX_SIZE - HEADER_SIZE < |buffer| <= MAX_SIZE
    ensures Received(Encode(DataPacket(n, buffer)), MAX_SIZE).data == buffer[..MAX_SIZE - HEADER_SIZE]
    ensures Received(Encode(DataPacket(n, buffer)), MAX_SIZE).data != buffer
  {
    var p := DataPacket(n, buffer);
    EncodeLayout(p);
    var t := Truncate(Encode(p), MAX_SIZE);
    assert t == Encode(p)[..MAX_SIZE];
    assert t[HEADER_SIZE..] == Encode(p)[HEADER_SIZE..][..MAX_SIZE - HEADER_SIZE];
  }

  /** With a whole-packet buffer, every payload up to MAX_SIZE arrives intact, header fields and all. */
  lemma FullPayloadDelivered(n: nat, buffer: Bytes)
    requires n < TWO_32 && |buffer| <= MAX_SIZE
    ensures Received(Encode(DataPacket(n, buffer)), DATA_BUFSIZE) == DataPacket(n, buffer)
  {
    WireRoundTrip(DataPacket(n, buffer), DATA_BUFSIZE);
  }

  /** A datagram shorter than a header is received as a fresh, all-default packet. */
  lemma ShortDatagram(d: Bytes, bufsize: nat)
    requires |d| < HEADER_SIZE
    ensures Received(d, bufsize) == Packet(MESSAGE_TYPE, 0, 0, 0, 0, [])
  {
  }

  // ---------------------------------------------------------------------
  // Packets built by the sender

  /** The SYN of sendtomyversion mode 0. */
  function SynPacket(): Packet
  {
    NewPacket().(cntl := SetFlag(0, SYN), seqNum := CLIENT_ISN, ackNum := 0, size := 0)
  }

  /** Mode 0 of recvfrommyverison: the server turns the client's SYN into its SYN+ACK. */
  function SynAckReply(p: Packet): (r: Packet)
    ensures r.seqNum == SERVER_ISN && r.ackNum == p.seqNum
    ensures MaskFlag(r.cntl, ACK) == ACK as int && MaskFlag(r.cntl, SYN) == MaskFlag(p.cntl, SYN)
    ensures r.msgType == p.msgType && r.size == p.size && r.data == p.data
    ensures Fits(p) ==> Fits(r)
  {
    p.(ackNum := p.seqNum, cntl := SetFlag(p.cntl, ACK), seqNum := SERVER_ISN)
  }

  /** Mode 1 of recvfrommyverison: the server's rewrite of the handshake's final ACK. */
  function ServerAckReply(p: Packet): (r: Packet)
    ensures r.seqNum == 0 && r.ackNum == p.seqNum
    ensures r.cntl == 0 || r.cntl == ACK as int
    ensures r.cntl == ACK as int <==> MaskFlag(p.cntl, ACK) == ACK as int
    ensures r.msgType == p.msgType && r.size == p.size && r.data == p.data
    ensures Fits(p) ==> Fits(r)
  {
    p.(cntl := MaskFlag(p.cntl, ACK), ackNum := p.seqNum, seqNum := 0)
  }

  /** Mode 2 of recvfrommyverison: the client's ACK of the server's SYN+ACK. */
  function ClientAckReply(p: Packet): (r: Packet)
    ensures r.seqNum == 0 && r.ackNum == p.seqNum
    ensures MaskFlag(r.cntl, ACK) == ACK as int && MaskFlag(r.cntl, SYN) == MaskFlag(p.cntl, SYN)
    ensures r.msgType == p.msgType && r.size == p.size && r.data == p.data
    ensures Fits(p) ==> Fits(r)
  {
    p.(cntl := SetFlag(p.cntl, ACK), ackNum := p.seqNum, seqNum := 0)
  }

  /** The DATA packet that sendto builds for `buffer` with sequence number `n`. */
  function DataPacket(n: nat, buffer: Bytes): (r: Packet)
    ensures r.msgType == MESSAGE_TYPE && r.cntl == DATA as int
    ensures r.seqNum == n && r.ackNum == 0 && r.data == buffer && r.size == |buffer|
    ensures Fits(r) <==> n < TWO_32 && |buffer| < TWO_16
  {
    NewPacket().(data := buffer, size := |buffer|, cntl := SetFlag(0, DATA), seqNum := n, ackNum := 0)
  }

  /** The FIN that sendclosingpacket builds with sequence number `n`. */
  function FinPacket(n: nat): (r: Packet)
    ensures r.msgType == MESSAGE_TYPE && r.cntl == FIN as int
    ensures r.seqNum == n && r.ackNum == 0 && r.data == [] && r.size == 0
    ensures Fits(r) <==> n < TWO_32
  {
    NewPacket().(cntl := SetFlag(0, FIN), ackNum := 0, seqNum := n)
  }

  /**
   * The SYN on the wire: type 0x44, cntl SYN, then seq 0x00008ecb, ack 0
   * and size 0 in network byte order, and nothing else; the server reads
   * it back as seq 36555.
   */
  lemma SynOnTheWire()
    ensures Encode(SynPacket()) == [0x44, 0x01, 0x00, 0x00, 0x8e, 0xcb, 0, 0, 0, 0, 0, 0]
    ensures Received(Encode(SynPacket()), HANDSHAKE_BUFSIZE) == Packet(0x44, 1, 36555, 0, 0, [])
  {
    WireRoundTrip(SynPacket(), HANDSHAKE_BUFSIZE);
  }

  /**
   * The three handshake frames as each side reads them: the server's reply
   * acknowledges the client's initial number with SYN|ACK and carries its
   * own, and the client's answer acknowledges the server's number with
   * sequence number 0.
   */
  lemma HandshakeFrames()
    ensures SynAckReply(Received(Encode(SynPacket()), HANDSHAKE_BUFSIZE))
         == Packet(MESSAGE_TYPE, 3, SERVER_ISN, CLIENT_ISN, 0, [])
    ensures ClientAckReply(Received(Encode(SynAckReply(SynPacket())), HANDSHAKE_BUFSIZE))
         == Packet(MESSAGE_TYPE, 3, 0, SERVER_ISN, 0, [])
    ensures ServerAckReply(Received(Encode(ClientAckReply(SynAckReply(SynPacket()))), HANDSHAKE_BUFSIZE))
         == Packet(MESSAGE_TYPE, 2, 0, 0, 0, [])
  {
    WireRoundTrip(SynPacket(), HANDSHAKE_BUFSIZE);
    WireRoundTrip(SynAckReply(SynPacket()), HANDSHAKE_BUFSIZE);
    WireRoundTrip(ClientAckReply(SynAckReply(SynPacket())), HANDSHAKE_BUFSIZE);
  }

  // ---------------------------------------------------------------------
  // Flushing the acknowledgement queue

  /** The in-place rewrite of a queued packet into an ACK-only frame. */
  function AckFor(p: Packet): (r: Packet)
    ensures r.cntl == ACK as int && r.ackNum == p.seqNum && r.seqNum == 0
    ensures r.data == [] && r.size == 0 && r.msgType == p.msgType
    ensures Fits(p) ==> Fits(r) && |Encode(r)| == HEADER_SIZE
  {
    p.(cntl := ACK, ackNum := p.seqNum, seqNum := 0, data := [], size := 0)
  }

  predicate AllFit(q: seq<Packet>)
  {
    forall i | 0 <= i < |q| :: Fits(q[i])
  }

  /** The datagrams the ack flush sends for the queue `q`, in queue order. */
  function AckFrames(q: seq<Packet>): (ws: seq<Bytes>)
    requires AllFit(q)
    ensures |ws| == |q|
  {
    if q == [] then [] else AckFrames(q[..|q| - 1]) + [Encode(AckFor(q[|q| - 1]))]
  }

  /**
   * The i-th flushed datagram is read by the peer as a header-only frame
   * with cntl ACK, seq 0 and size 0 that acknowledges the i-th queued
   * packet's sequence number: one frame per queued packet, FIFO.
   */
  lemma {:induction false} AckFramesAcknowledge(q: seq<Packet>, i: nat, bufsize: nat)
    requires AllFit(q) && i < |q| && HEADER_SIZE <= bufsize
    ensures |AckFrames(q)[i]| == HEADER_SIZE
    ensures Received(AckFrames(q)[i], bufsize)
         == Packet(q[i].msgType, ACK, 0, q[i].seqNum, 0, [])
  {
    if i == |q| - 1 {
      EncodeLayout(AckFor(q[i]));
      WireRoundTrip(AckFor(q[i]), bufsize);
    } else {
      assert AllFit(q[..|q| - 1]);
      AckFramesAcknowledge(q[..|q| - 1], i, bufsize);
    }
  }

  // ---------------------------------------------------------------------
  // Matching an incoming acknowledgement

  /**
   * The transmit-queue search of recvfrom: drop the first entry whose
   * sequence number equals `a`, if there is one.
   */
  function RemoveFirstBySeq(q: seq<Packet>, a: nat): (r: seq<Packet>)
    ensures |r| <= |q| <= |r| + 1
  {
    if q == [] then []
    else if q[0].seqNum == a then q[1..]
    else [q[0]] + RemoveFirstBySeq(q[1..], a)
  }

  /** With a match at `i` and none before it, exactly entry `i` goes. */
  lemma {:induction false} RemoveFirstAt(q: seq<Packet>, a: nat, i: nat)
    requires i < |q| && q[i].seqNum == a
    requires forall j | 0 <= j < i :: q[j].seqNum != a
    ensures RemoveFirstBySeq(q, a) == q[..i] + q[i + 1..]
  {
    if i > 0 {
      RemoveFirstAt(q[1..], a, i - 1);
      assert q[..i] == [q[0]] + q[1..][..i - 1];
      assert q[i + 1..] == q[1..][i..];
    }
  }

  /** The queue is left as it was exactly when no entry matches. */
  lemma {:induction false} RemoveFirstUnchanged(q: seq<Packet>, a: nat)
    ensures RemoveFirstBySeq(q, a) == q <==> forall j | 0 <= j < |q| :: q[j].seqNum != a
  {
    if q != [] && q[0].seqNum != a {
      RemoveFirstUnchanged(q[1..], a);
      assert forall j | 1 <= j < |q| :: q[j] == q[1..][j - 1];
    }
  }

  /**
   * Removing matching entries from a Python list while a for loop iterates
   * over that same list: removing the current element shifts the list
   * under the iterator, so the element right after each removed one is
   * never examined.
   */
  function RemoveWhileIterating(s: seq<Packet>, a: nat): (r: seq<Packet>)
    ensures |r| <= |s|
  {
    if s == [] then []
    else if s[0].seqNum == a then
      if |s| == 1 then [] else [s[1]] + RemoveWhileIterating(s[2..], a)
    else [s[0]] + RemoveWhileIterating(s[1..], a)
  }

  /** Neither removal invents or duplicates a packet: the result is a sub-multiset of the input. */
  lemma {:induction false} RemovalsOnlyRemove(s: seq<Packet>, a: nat)
    ensures multiset(RemoveFirstBySeq(s, a)) <= multiset(s)
    ensures multiset(RemoveWhileIterating(s, a)) <= multiset(s)
  {
    if s != [] {
      assert s == [s[0]] + s[1..];
      RemovalsOnlyRemove(s[1..], a);
      if s[0].seqNum == a && |s| > 1 {
        assert s[1..] == [s[1]] + s[2..];
        RemovalsOnlyRemove(s[2..], a);
      }
    }
  }

  /**
   * The same loop as the interpreter runs it: the iterator is an index into
   * the list as it is now; it advances after every element, and a removal
   * shifts the elements after it down by one.
   */
  function IterateRemoving(s: seq<Packet>, pos: nat, a: nat): (r: seq<Packet>)
    ensures |r| <= |s|
    decreases |s| + 1 - pos
  {
    if pos >= |s| then s
    else if s[pos].seqNum == a then IterateRemoving(s[..pos] + s[pos + 1..], pos + 1, a)
    else IterateRemoving(s, pos + 1, a)
  }

  /** The loop never touches the entries the iterator has already passed. */
  lemma {:induction false} IterateRemovingKeepsPrefix(s: seq<Packet>, pos: nat, a: nat)
    requires pos <= |s|
    ensures pos <= |IterateRemoving(s, pos, a)| && IterateRemoving(s, pos, a)[..pos] == s[..pos]
    decreases |s| + 1 - pos
  {
    if pos < |s| {
      if s[pos].seqNum == a {
        var t := s[..pos] + s[pos + 1..];
        assert t[..pos] == s[..pos];
        if pos + 1 <= |t| {
          IterateRemovingKeepsPrefix(t, pos + 1, a);
          assert IterateRemoving(t, pos + 1, a)[..pos] == IterateRemoving(t, pos + 1, a)[..pos + 1][..pos];
        }
      } else {
        IterateRemovingKeepsPrefix(s, pos + 1, a);
        assert IterateRemoving(s, pos + 1, a)[..pos] == IterateRemoving(s, pos + 1, a)[..pos + 1][..pos];
      }
    }
  }

  /** One step of the loop at an entry numbered `a`: it is removed and the iterator moves past its successor. */
  lemma IterateRemovingMatch(p: seq<Packet>, t: seq<Packet>, a: nat)
    requires t != [] && t[0].seqNum == a
    ensures IterateRemoving(p + t, |p|, a) == IterateRemoving(p + t[1..], |p| + 1, a)
  {
    var s := p + t;
    assert s[|p|] == t[0];
    assert s[..|p|] == p;
    assert s[|p| + 1..] == t[1..];
  }

  /** One step of the loop at any other entry: the iterator moves on. */
  lemma IterateRemovingSkip(p: seq<Packet>, t: seq<Packet>, a: nat)
    requires t != [] && t[0].seqNum != a
    ensures IterateRemoving(p + t, |p|, a) == IterateRemoving((p + [t[0]]) + t[1..], |p| + 1, a)
  {
    assert (p + t)[|p|] == t[0];
    assert p + t == (p + [t[0]]) + t[1..];
  }

  /**
   * Once the iterator has passed the prefix `p`, the rest of the loop acts
   * on the suffix as the structural definition says; from index 0 the two
   * definitions agree.
   */
  lemma {:induction false} IterateRemovingIsLoop(p: seq<Packet>, t: seq<Packet>, a: nat)
    ensures IterateRemoving(p + t, |p|, a) == p + RemoveWhileIterating(t, a)
    decreases |t|, 1
  {
    if t == [] {
      assert p + t == p;
    } else if t[0].seqNum == a {
      IterateRemovingIsLoopAtMatch(p, t, a);
    } else {
      IterateRemovingIsLoopAtOther(p, t, a);
    }
  }

  lemma {:induction false} IterateRemovingIsLoopAtMatch(p: seq<Packet>, t: seq<Packet>, a: nat)
    requires t != [] && t[0].seqNum == a
    ensures IterateRemoving(p + t, |p|, a) == p + RemoveWhileIterating(t, a)
    decreases |t|, 0
  {
    IterateRemovingMatch(p, t, a);
    if |t| == 1 {
      assert p + t[1..] == p;
      assert RemoveWhileIterating(t, a) == [];
    } else {
      var q := p + [t[1]];
      assert p + t[1..] == q + t[2..];
      IterateRemovingIsLoop(q, t[2..], a);
      assert RemoveWhileIterating(t, a) == [t[1]] + RemoveWhileIterating(t[2..], a);
      assert q + RemoveWhileIterating(t[2..], a) == p + ([t[1]] + RemoveWhileIterating(t[2..], a));
    }
  }

  lemma {:induction false} IterateRemovingIsLoopAtOther(p: seq<Packet>, t: seq<Packet>, a: nat)
    requires t != [] && t[0].seqNum != a
    ensures IterateRemoving(p + t, |p|, a) == p + RemoveWhileIterating(t, a)
    decreases |t|, 0
  {
    IterateRemovingSkip(p, t, a);
    var q := p + [t[0]];
    IterateRemovingIsLoop(q, t[1..], a);
    assert RemoveWhileIterating(t, a) == [t[0]] + RemoveWhileIterating(t[1..], a);
    assert q + RemoveWhileIterating(t[1..], a) == p + ([t[0]] + RemoveWhileIterating(t[1..], a));
  }

  /** Independent reference: keep exactly the entries whose sequence number is not `a`. */
  function FilterOut(s: seq<Packet>, a: nat): (r: seq<Packet>)
  {
    if s == [] then [] else (if s[0].seqNum == a then [] else [s[0]]) + FilterOut(s[1..], a)
  }

  predicate DistinctSeqs(s: seq<Packet>)
  {
    forall i, j | 0 <= i < j < |s| :: s[i].seqNum != s[j].seqNum
  }

  /**
   * When sequence numbers are distinct (as they are for the packets one
   * socket sends), the skipping loop removes every matching entry, and so
   * does the transmit-queue search: both agree with the filter.
   */
  lemma {:induction false} RemoveWhileIteratingIsFilter(s: seq<Packet>, a: nat)
    requires DistinctSeqs(s)
    ensures RemoveWhileIterating(s, a) == FilterOut(s, a)
    ensures RemoveFirstBySeq(s, a) == FilterOut(s, a)
  {
    if s != [] {
      assert DistinctSeqs(s[1..]) by {
        forall i, j | 0 <= i < j < |s[1..]| ensures s[1..][i].seqNum != s[1..][j].seqNum {
          assert s[1..][i] == s[i + 1] && s[1..][j] == s[j + 1];
        }
      }
      RemoveWhileIteratingIsFilter(s[1..], a);
      if s[0].seqNum == a {
        NoneMatch(s[1..], a);
        if |s| > 1 {
          assert s[2..] == s[1..][1..];
          assert FilterOut(s[1..], a) == [s[1]] + FilterOut(s[2..], a);
          NoneMatch(s[2..], a);
        }
      }
    }
  }

  /** Helper: a list with no entry numbered `a` passes through every removal unchanged. */
  lemma {:induction false} NoneMatch(s: seq<Packet>, a: nat)
    requires forall j | 0 <= j < |s| :: s[j].seqNum != a
    ensures FilterOut(s, a) == s && RemoveWhileIterating(s, a) == s && RemoveFirstBySeq(s, a) == s
  {
    if s != [] {
      NoneMatch(s[1..], a);
    }
  }

  /** With two adjacent entries numbered `a`, the second one survives the loop. */
  lemma AdjacentDuplicateSurvives(p: Packet, a: nat)
    requires p.seqNum == a
    ensures RemoveWhileIterating([p, p], a) == [p] != FilterOut([p, p], a)
  {
    assert [p, p][1..] == [p];
    assert FilterOut([p], a) == [];
  }

  // ---------------------------------------------------------------------
  // One incoming frame's effect on the sent-but-unacknowledged packets

  /** The socket's transmit queue and the list of outstanding packets. */
  datatype InFlight = InFlight(transmit: seq<Packet>, outstanding: seq<Packet>)

  /**
   * recvfrom consults the outstanding list only when the transmit queue is
   * non-empty; recvfromforclosing (`closing`) always does.
   */
  function AckStep(f: InFlight, a: nat, closing: bool): InFlight
  {
    if f.transmit == [] && !closing then f
    else InFlight(RemoveFirstBySeq(f.transmit, a), RemoveWhileIterating(f.outstanding, a))
  }

  /**
   * An acknowledgement that matches nothing leaves both lists unchanged; one
   * that matches removes at most one transmit-queue entry, the first match,
   * and touches the outstanding list only if it is consulted.
   */
  lemma AckStepEffect(f: InFlight, a: nat, closing: bool)
    ensures (forall j | 0 <= j < |f.transmit| :: f.transmit[j].seqNum != a)
         && (forall j | 0 <= j < |f.outstanding| :: f.outstanding[j].seqNum != a)
         ==> AckStep(f, a, closing) == f
    ensures |f.transmit| - 1 <= |AckStep(f, a, closing).transmit| <= |f.transmit|
    ensures f.transmit == [] && !closing ==> AckStep(f, a, closing) == f
    ensures forall i | 0 <= i < |f.transmit| && f.transmit[i].seqNum == a
                       && (forall j | 0 <= j < i :: f.transmit[j].seqNum != a)
              :: AckStep(f, a, closing).transmit == f.transmit[..i] + f.transmit[i + 1..]
  {
    if (forall j | 0 <= j < |f.transmit| :: f.transmit[j].seqNum != a)
       && (forall j | 0 <= j < |f.outstanding| :: f.outstanding[j].seqNum != a) {
      NoneMatch(f.transmit, a);
      NoneMatch(f.outstanding, a);
    }
    forall i | 0 <= i < |f.transmit| && f.transmit[i].seqNum == a
               && (forall j | 0 <= j < i :: f.transmit[j].seqNum != a)
      ensures AckStep(f, a, closing).transmit == f.transmit[..i] + f.transmit[i + 1..]
    {
      RemoveFirstAt(f.transmit, a, i);
    }
  }

  /** The combined effect of the frames read from `ds`, in order. */
  function AfterFrames(f: InFlight, ds: seq<Bytes>, closing: bool): InFlight
  {
    if ds == [] then f
    else AckStep(AfterFrames(f, ds[..|ds| - 1], closing), Received(ds[|ds| - 1], DATA_BUFSIZE).ackNum, closing)
  }

  /** Reading one more datagram applies its acknowledgement to the state the earlier ones left. */
  lemma AfterOneMoreFrame(f: InFlight, ds: seq<Bytes>, d: Bytes, closing: bool)
    ensures AfterFrames(f, ds + [d], closing) == AckStep(AfterFrames(f, ds, closing), Received(d, DATA_BUFSIZE).ackNum, closing)
  {
    assert (ds + [d])[..|ds|] == ds;
  }

  // ---------------------------------------------------------------------
  // The receiver rule

  /**
   * recvfrom accepts only the next sequence number (go-back-N: anything
   * else is discarded, never buffered); recvfromforclosing also accepts
   * any frame whose cntl is exactly FIN.
   */
  predicate Acceptable(p: Packet, other: nat, closing: bool)
  {
    p.seqNum == other + 1 || (closing && p.cntl == FIN)
  }

  /**
   * The two receiver rules: outside closing exactly one sequence number is
   * accepted; closing accepts everything recvfrom would, and besides that
   * only frames whose cntl is exactly FIN.
   */
  lemma AcceptanceRule(p: Packet, q: Packet, other: nat)
    ensures Acceptable(p, other, false) && Acceptable(q, other, false) ==> p.seqNum == q.seqNum
    ensures Acceptable(p, other, false) ==> Acceptable(p, other, true)
    ensures p.cntl == FIN as int ==> Acceptable(p, other, true)
    ensures Acceptable(p, other, true) && !Acceptable(p, other, false) ==> p.cntl == FIN as int
  {
  }

  /** Index of the first datagram whose frame is acceptable, or |ds| if there is none. */
  function FirstAccepted(ds: seq<Bytes>, other: nat, closing: bool): (i: nat)
    ensures i <= |ds|
  {
    if ds == [] then 0
    else if Acceptable(Received(ds[0], DATA_BUFSIZE), other, closing) then 0
    else 1 + FirstAccepted(ds[1..], other, closing)
  }

  /**
   * FirstAccepted finds the first acceptable frame: every frame before it
   * is discarded, and the one at the index (if any) is acceptable.
   */
  lemma {:induction false} FirstAcceptedIsFirst(ds: seq<Bytes>, other: nat, closing: bool)
    ensures forall j | 0 <= j < FirstAccepted(ds, other, closing) ::
              !Acceptable(Received(ds[j], DATA_BUFSIZE), other, closing)
    ensures FirstAccepted(ds, other, closing) < |ds| ==>
              Acceptable(Received(ds[FirstAccepted(ds, other, closing)], DATA_BUFSIZE), other, closing)
  {
    if ds != [] && !Acceptable(Received(ds[0], DATA_BUFSIZE), other, closing) {
      FirstAcceptedIsFirst(ds[1..], other, closing);
      forall j | 1 <= j < FirstAccepted(ds, other, closing)
        ensures !Acceptable(Received(ds[j], DATA_BUFSIZE), other, closing)
      {
        assert ds[j] == ds[1..][j - 1];
      }
    }
  }

  /**
   * The step the receive loop relies on: at an index not past the first
   * acceptable frame, the frame there is acceptable exactly when it is
   * the first one.
   */
  lemma {:induction false} FirstAcceptedAt(ds: seq<Bytes>, other: nat, closing: bool, i: nat)
    requires i < |ds| && i <= FirstAccepted(ds, other, closing)
    ensures Acceptable(Received(ds[i], DATA_BUFSIZE), other, closing) <==> FirstAccepted(ds, other, closing) == i
  {
    if i > 0 {
      FirstAcceptedAt(ds[1..], other, closing, i - 1);
      assert ds[1..][i - 1] == ds[i];
    }
  }
}
