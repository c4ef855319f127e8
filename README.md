# sock352 in Dafny

A model of the sock352 library (`sock352.py`): a reliable, connection-oriented
byte transport layered over UDP datagrams, in the style of a teaching TCP.
The model covers its two parts:

- **The packet codec.** A packet is a 12-byte header in the `struct` format
  `'!bbLLH'` followed by the payload. The header fields are type, control
  flags, sequence number, acknowledgement number and payload size, in network
  byte order. `Packet.pack` builds the bytes. `Packet.unpack` overwrites a
  packet's fields from bytes.
- **The per-connection bookkeeping of `Socket`.** This covers the three-way
  handshake (`sendtomyversion` and `recvfrommyverison`, modes 0 to 2),
  `sendto`, `recvfrom`, and the close sequence (`sendclosingpacket`,
  `recvfromforclosing`, `sendfinalACK`, `close`). The state is:
  - the transmit queue;
  - the acknowledgement queue;
  - the list of outstanding packets;
  - the two sequence counters;
  - the reply prepared during the handshake.

The UDP socket is abstracted away. Every datagram a socket sends is appended
to its `outbox`. Every operation that reads from the network takes the
datagrams it will read as a parameter. It reports how many of them it
consumed, and `None`/`Waiting` if it would still be blocked when they run out.

Files:

- `byteorder.dfy` (module `ByteOrder`): bytes, signed bytes, big-endian 16-
  and 32-bit fields, and the bitwise flag operations on a signed control byte.
- `frame.dfy` (module `Frame`): the constants, the `Packet` record and the
  `PacketObject` class, `Pack`/`Unpacked` and their round trips.
- `transfer.dfy` (module `Transfer`): the protocol rules as functions on
  values, each with its lemmas:
  - reading a datagram with a bounded buffer;
  - the packets each step builds;
  - ACK-only frames;
  - matching an acknowledgement against the transmit queue and the
    outstanding list, including Python's remove-while-iterating behaviour;
  - the go-back-N receiver rule.
- `socket.dfy` (module `Sock352`): the `Socket` class. Its methods change the
  fields in place, and each is proved against the functions of `Transfer`.
- `session.dfy` (module `Session`): a client and a server socket driven in the
  order the echo client and server use them:
  - connect/accept, step by step as the two run against each other;
  - then, for every line, the client sends it, the server receives it and
    sends it back, and the client receives it.

  Every receive is given the datagrams the peer's sends appended to its
  `outbox`, so each side reads exactly what the other side sent.

The library's comments ask for a socket that works at various drop rates
with a drop probability that can be set (sock352.py:128-131, 210-216), and
for unpack to check that its input holds a header (sock352.py:80). The
model follows what the code does with these:

- A datagram shorter than the header is not a decode error. `unpack` leaves
  the packet as it was, so the receiver sees a fresh packet with all-default
  fields (`ShortDatagram`).
- `sendto` does not reject a payload larger than `MAX_SIZE`. `struct.pack`
  fails only at 65536 bytes or more (`SendTo` returns `ok == false`).
- The library has no drop simulator. `set_drop_prob` does nothing.

## Model

| member | source | states |
|---|---|---|
| ByteOrder.Be16RoundTrip | sock352.py:29 | decoding the big-endian 'H' encoding of any value below 2^16 gives the value back |
| ByteOrder.FromBe16RoundTrip | sock352.py:29 | encoding the value decoded from any 2 bytes gives the bytes back |
| ByteOrder.Be32RoundTrip | sock352.py:29 | decoding the big-endian 'L' encoding of any value below 2^32 gives the value back |
| ByteOrder.FromBe32RoundTrip | sock352.py:29 | encoding the value decoded from any 4 bytes gives the bytes back |
| ByteOrder.SetFlag | sock352.py:286 | Python's `\|` of a flag into a signed control byte sets every bit of the flag and keeps every other bit |
| ByteOrder.MaskFlag | sock352.py:360 | Python's `&` of a signed control byte with a mask keeps exactly the control byte's bits inside the mask and clears all others |
| Frame.Header | sock352.py:29 | the header of '!bbLLH' is exactly 12 bytes |
| Frame.Pack | sock352.py:100-111 | pack succeeds exactly when seq and ack are below 2^32 and size is below 2^16; otherwise struct.error |
| Frame.Unpacked | sock352.py:79-97 | with fewer than 12 bytes the packet is unchanged; otherwise the payload is everything after byte 12, whatever size says; a packet whose fields fit still fits |
| Frame.PacketObject.constructor | sock352.py:70-76 | a fresh Packet has type 0x44 and every other field zero or empty |
| Frame.PacketObject.Unpack | sock352.py:79-97 | unpack overwrites the six fields in place exactly as `Unpacked` describes |
| Frame.Encode | sock352.py:100-111 | pack's output is the 12-byte header followed by the payload: 12 + len(data) bytes |
| Frame.EncodeLayout | sock352.py:100-111 | the output is 12 + len(data) bytes, header-only exactly when data is empty; bytes 0-1 read back as type and cntl, bytes 2-5, 6-9 and 10-11 as seq, ack and size; the rest is data |
| Frame.RoundTrip | sock352.py:79-111 | unpack(pack(p)) restores all six fields into any packet, even when size differs from len(data) |
| Frame.UnpackThenPack | sock352.py:79-111 | pack(unpack(b)) gives back every byte string of at least 12 bytes |
| Transfer.Truncate | sock352.py:527 | a datagram read with recvfrom(bufsize) is a prefix of at most bufsize bytes, the whole datagram when it fits |
| Transfer.Received | sock352.py:527-530 | a packet unpacked from whatever datagram arrives can always be packed again |
| Transfer.ReceivedPayloadPrefix | sock352.py:527-530 | with at least a header's worth of bytes, header plus payload is exactly what the buffer took, and the payload is a prefix of the one sent |
| Transfer.WireRoundTrip | sock352.py:527-530 | a packet sent whole within the buffer size is received unchanged |
| Transfer.PayloadCutAtMaxSize | sock352.py:527 | as written, recvfrom(MAX_SIZE) delivers only the first MAX_SIZE - 12 payload bytes of a longer DATA packet |
| Transfer.FullPayloadDelivered | sock352.py:42 | with a MAX_PKT buffer every payload up to MAX_SIZE arrives with all fields intact |
| Transfer.ShortDatagram | sock352.py:94-97 | a datagram shorter than a header is received as a fresh packet (type 0x44, everything else zero) |
| Transfer.SynOnTheWire | sock352.py:284-295 | the SYN is the 12 bytes 44 01 00 00 8e cb 00 00 00 00 00 00 and is read back with seq 36555 |
| Transfer.HandshakeFrames | sock352.py:331-384 | the server's reply to the SYN is SYN\|ACK (cntl 3) with seq 0x2be6 and ack 0x8ecb; the client's answer keeps SYN\|ACK (cntl 3), with seq 0 and ack 0x2be6; the server rewrites that answer to cntl ACK, seq 0, ack 0 |
| Transfer.SynAckReply | sock352.py:335-338 | the server's reply acknowledges the SYN's seq, carries 0x2be6, has the ACK flag set and the SYN flag kept, and can be packed when the SYN could |
| Transfer.ServerAckReply | sock352.py:360-362 | the server's rewrite of the final ACK has cntl ACK if the ACK flag was set and 0 otherwise, acknowledges its seq and has seq 0 |
| Transfer.ClientAckReply | sock352.py:380-383 | the client's answer acknowledges the SYN+ACK's seq with seq 0, has the ACK flag set and the SYN flag kept, and can be packed when the SYN+ACK could |
| Transfer.DataPacket | sock352.py:490-496 | sendto's packet has cntl DATA, the given seq, ack 0, the buffer as data and its length as size; pack accepts it exactly when seq < 2^32 and the buffer is shorter than 65536 bytes |
| Transfer.FinPacket | sock352.py:591-595 | the closing packet has cntl FIN, the given seq, ack 0 and no payload; pack accepts it exactly when seq < 2^32 |
| Transfer.AckFor | sock352.py:472-477 | the rewritten ack-queue entry has cntl ACK, acknowledges the entry's seq, has seq 0 and no payload, and packs to a bare 12-byte header |
| Transfer.AckFrames | sock352.py:469-486 | the flush sends one datagram per queued packet |
| Transfer.AckFramesAcknowledge | sock352.py:469-486 | the i-th flushed datagram is a 12-byte frame that the peer reads as cntl ACK, seq 0, size 0, empty data, ack equal to the i-th queued packet's seq: FIFO, one per packet |
| Transfer.RemoveFirstBySeq | sock352.py:537-544 | the transmit-queue search removes at most one entry |
| Transfer.RemoveFirstAt | sock352.py:537-544 | when entry i is the first one numbered ack, exactly entry i is removed and the rest keep their order |
| Transfer.RemoveFirstUnchanged | sock352.py:537-544 | the queue is unchanged exactly when no entry is numbered ack |
| Transfer.RemoveWhileIterating | sock352.py:545-547 | the outstanding-list loop never makes the list longer |
| Transfer.RemovalsOnlyRemove | sock352.py:537-547 | neither removal adds or duplicates a packet: the result is a sub-multiset of the input |
| Transfer.IterateRemoving | sock352.py:545-547 | the interpreter's iteration with in-place removal never makes the list longer |
| Transfer.IterateRemovingKeepsPrefix | sock352.py:545-547 | the entries the iterator has passed are never touched |
| Transfer.IterateRemovingIsLoop | sock352.py:545-547 | Python's index-based iteration with in-place removal equals the structural definition that skips the entry after each removed one |
| Transfer.RemoveWhileIteratingIsFilter | sock352.py:537-547 | when sequence numbers are distinct, both removals remove exactly the entries numbered ack |
| Transfer.NoneMatch | sock352.py:537-547 | an ack that matches no entry leaves every list unchanged |
| Transfer.AdjacentDuplicateSurvives | sock352.py:545-547 | with two adjacent entries numbered ack, the outstanding-list loop removes only the first |
| Transfer.AckStepEffect | sock352.py:534-547 | one datagram's ack (AckStep): an ack that matches nothing changes neither list; at most one transmit-queue entry goes, the first match; with an empty transmit queue recvfrom touches neither list, while recvfromforclosing (lines 617-631) always searches the outstanding list |
| Transfer.AfterOneMoreFrame | sock352.py:524-547 | reading one more datagram applies its ack to the state the earlier datagrams left |
| Transfer.AcceptanceRule | sock352.py:633-642 | the receiver rule (Acceptable, also line 555): recvfrom accepts exactly one sequence number; recvfromforclosing accepts everything recvfrom does and, besides that, only frames whose cntl is exactly FIN |
| Transfer.FirstAccepted | sock352.py:552-561 | the index of the first acceptable frame is at most the number of datagrams |
| Transfer.FirstAcceptedIsFirst | sock352.py:552-561 | every frame before the index fails the receiver rule (seq == other + 1, or cntl == FIN when closing), and the frame at the index passes it |
| Transfer.FirstAcceptedAt | sock352.py:552-561 | below the first acceptable index, a frame is acceptable exactly when it is the first acceptable one |
| Sock352.Socket.constructor | sock352.py:185-198 | a new socket has empty queues, zero counters and no prepared reply |
| Sock352.Socket.Transmit | sock352.py:294-295 | a packet is sent exactly when it can be packed, and then its bytes are the next datagram |
| Sock352.Socket.SendSyn | sock352.py:284-295 | mode 0 sends the SYN numbered 0x8ecb, appends it to the transmit queue and sets mySequenceNumber to 0x8ecb |
| Sock352.Socket.SendSynAck | sock352.py:297-300 | mode 1 appends the prepared reply to the transmit queue and sends it |
| Sock352.Socket.SendHandshakeAck | sock352.py:303-308 | mode 2 sends the prepared reply only when the transmit queue is empty, and changes nothing else |
| Sock352.Socket.RecvSyn | sock352.py:331-343 | receive mode 0 sets otherSequenceNumber to the SYN's seq and mySequenceNumber to 0x2be6, and prepares the SYN+ACK |
| Sock352.Socket.RemoveDuringRange | sock352.py:351-356 | the range loop removes the first entry numbered ack; its precondition is exactly the condition under which it raises no IndexError |
| Sock352.Socket.RecvHandshakeAck | sock352.py:346-363 | receive mode 1 removes the acknowledged SYN+ACK and prepares cntl & ACK, ack = seq, seq = 0 without touching the counters |
| Sock352.Socket.RecvSynAck | sock352.py:365-384 | receive mode 2 removes the acknowledged SYN, sets otherSequenceNumber to the server's seq and prepares the ACK |
| Sock352.Socket.Connect | sock352.py:246-262 | connect sends the SYN and then the ACK, which goes out only if the SYN+ACK acknowledged the SYN |
| Sock352.Socket.Accept | sock352.py:265-279 | accept takes the client's number, sends exactly one SYN+ACK and removes it again when the final ACK acknowledges it |
| Sock352.Socket.FlushAcks | sock352.py:469-486 | the ack queue ends empty and the datagrams sent are the ACK-only frames of the old queue in order; nothing else changes |
| Sock352.Socket.SendTo | sock352.py:467-505 | flushes the acks, then mySequenceNumber grows by exactly 1 and one DATA packet with that seq, size len(buffer) and ack 0 is sent and appended to both lists, unless pack fails |
| Sock352.Socket.SendClosingPacket | sock352.py:566-604 | flushes the acks, then sends a FIN numbered mySequenceNumber + 1 and appends it to both lists, unless pack fails |
| Sock352.Socket.SendFinalAck | sock352.py:646-667 | flushes the acks and changes nothing else |
| Sock352.Socket.RemoveFromTransmitQueue | sock352.py:537-544 | the loop removes exactly what RemoveFirstBySeq removes |
| Sock352.Socket.RemoveFromOutstanding | sock352.py:545-547 | the loop leaves exactly what RemoveWhileIterating leaves |
| Sock352.Socket.AckIncoming | sock352.py:534-547 | one datagram's ack changes the two lists exactly as AckStep says |
| Sock352.Socket.ScanFrames | sock352.py:524-561 | the loop stops right after the first acceptable datagram, or after all of them, and the lists end as AfterFrames says |
| Sock352.Socket.Receive | sock352.py:522-561 | recvfrom, and recvfromforclosing (lines 607-642) when `closing`, return the data of the first acceptable frame, increment otherSequenceNumber by exactly 1 and queue that frame for ACK; without one, the counter and the ack queue are untouched |
| Sock352.Socket.Close | sock352.py:674-684 | close sends the FIN, waits for the first acceptable frame, and then acknowledges it; the FIN's seq is one past the last packet sent |
| Session.Handshake | sock352.py:246-279 | connect and accept, interleaved, each reading the datagram the peer just sent: afterwards each side's expected number is the other's initial number and nothing is in flight or waiting |
| Session.SentFrames | sock352.py:467-505 | a sendto while packets await acknowledgement puts one ACK-only frame per packet, then the DATA packet, on the wire |
| Session.ReadingSentFrames | sock352.py:522-561 | the peer discards the ACK frames, which clear its own packet from both lists, and accepts the DATA packet whole |
| Session.ReadingAckThenData | sock352.py:522-561 | an ACK frame followed by the next DATA packet: the second is the first acceptable, and both lists end empty |
| Session.ReceiveLine | sock352.py:522-561 | recvfrom on the peer's datagrams returns the line, advances the expected number by one, queues the line for acknowledgement and leaves nothing in flight |
| Session.ReceiveLast | sock352.py:522-561 | when the last datagram is the first acceptable one and the acks empty both lists, recvfrom consumes all of them and returns the last one's payload |
| Session.ServeLine | sock352.py:522-561 | the server's loop body: it receives the line and sends it back, flushing the line's ACK ahead of the echo |
| Session.EchoLine | rel_client_1.py:90-93 | one round returns the line on both sides, advances each counter by one and restores the between-lines state, with the echo awaiting acknowledgement, so rounds chain |
| Session.EchoLines | rel_client_1.py:85-101 | the client's loop: every line comes back unchanged and in order, and the server receives each line once |
| Session.EchoSession | rel_client_1.py:80-101 | connect and then echo any list of lines: what is received and what is echoed are both exactly the lines sent |

## Findings

| source | as written | input that shows it | evidently intended | confidence | as-written member | corrected member |
|---|---|---|---|---|---|---|
| sock352.py:527 | recvfrom and recvfromforclosing read each datagram with `recvfrom(MAX_SIZE)`, a buffer the size of the largest payload | `sendto` of a 63 KB (MAX_SIZE-byte) buffer: its packet is MAX_SIZE + 12 bytes, and the receiver gets only the first MAX_SIZE - 12 payload bytes | read with a whole-packet buffer (`MAX_PKT`, sock352.py:42, "max size of the packet with the headers") | medium, not executed | Transfer.PayloadCutAtMaxSize | Transfer.FullPayloadDelivered |

The rest of the model reads data-path datagrams with the corrected buffer,
`Transfer.DATA_BUFSIZE`.

## Left out

- The retransmission thread (`transmittingThread`, `resendPackets`, `startThread`): its purpose is concurrency and wall-clock timeouts, and it loops forever. Nothing in the model ever resends.
- RTT measurement in connect/accept and the send timestamps kept in the outstanding list (`skbuf.time_sent`): these are floating-point wall-clock values.
- The UDP socket itself (`bind`, `setsockopt`, the real `sendto`/`recvfrom`). Sending is modelled by `outbox` and receiving by the `inputs` parameter. The address-selection branches only choose a destination.
- `sendtomyversion` mode 3 and `recvfrommyverison` mode 4: mode 3 refers to an undefined name and is never called; mode 4 only reads and unpacks one datagram.
- `initalconnect`/`initalaccept`, which are never called; `toHex`, `toHexFields` and `dbg_print`, which are debugging output; `set_debug_level`, `set_drop_prob` and `set_random_seed`, which do nothing or only store a value.
- Sock352.Socket.RecvHandshakeAck: requires no match before the last transmit-queue entry. In the source such a match raises IndexError, and that error path is not modelled. The handshake always has a single entry.
- Sock352.Socket.RecvSynAck: the same precondition as RecvHandshakeAck, for the same reason.
- Sock352.Socket.Connect: requires an empty transmit queue, the state of a new socket, so that the final ACK's condition can be stated.
- Sock352.Socket.Accept: requires an empty transmit queue, as a new socket has.
- Sock352.Socket.SendSynAck: requires a prepared reply. Before receive mode 0 the source holds the integer 0 there, and `pack` would raise AttributeError.
- The module-level `list_of_outstanding_packets` is modelled as a field of each socket. The source shares one list between all sockets of a process, and the drivers use one socket per process.
- Packets are values: the in-place field updates of the source's Packet objects are modelled as record updates, apart from `PacketObject.Unpack`. No packet object is changed after it is queued, except ack-queue entries, which are rewritten as they are flushed and dropped at the same time.
- `__init__` sets `OtherSequenceNumber` (capital O), so `otherSequenceNumber` is unset until the handshake. The model starts it at 0 and does not model the AttributeError of a recvfrom before connect/accept.
- Sock352.Socket.Receive: the `nbytes` argument of recvfrom is ignored, as in the source.
- Sock352.Socket.Receive: blocking is modelled as `None`, and `Close` as `Waiting`, when the given datagrams run out before an acceptable frame.
- Sock352.Socket.Close: an exception raised by `pack` for a FIN whose seq does not fit is modelled as `PackFailed`. The source lets it propagate out of close.
- Session.EchoSession: the line count the client sends before its first line (rel_client_1.py:82-83) is left out. The echo server's handling of it is not part of this model.
- Sock352.Socket.Receive: reads data-path datagrams with the corrected buffer (`DATA_BUFSIZE`, which is MAX_PKT), not `recvfrom(MAX_SIZE)` as sock352.py:527 and 611 do. As written, a payload longer than MAX_SIZE - 12 bytes arrives cut short (see Findings).
- Sock352.Socket.ScanFrames: the same corrected buffer as Receive.
- Sock352.Socket.Close: the same corrected buffer as Receive.
- Session.ServeLine: lines up to MAX_SIZE bytes come back whole only with the corrected buffer. As written, lines of MAX_SIZE - 11 to MAX_SIZE bytes are cut short.
- Session.ReceiveLine: the same corrected buffer as ServeLine.
- Session.EchoLine: the same corrected buffer as ServeLine.
- Session.EchoLines: the same corrected buffer as ServeLine.
- Session.EchoSession: the same corrected buffer as ServeLine.
- rel_client_1.py's argument parsing, file reading, MD5 digests and timing: the session model keeps only its call order.
