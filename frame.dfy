/**
 * The sock352 packet and its wire codec: a fixed 12-byte header in the
 * struct format '!bbLLH' (type, cntl, seq, ack, size) followed by the
 * payload bytes.
 */
module Frame {
  import opened ByteOrder

  /** The first byte of every packet. */
  const MESSAGE_TYPE: Int8 := 0x44

  /** struct.calcsize('!bbLLH'). */
  const HEADER_SIZE: nat := 12

  // Control flags.
  const SYN: Byte := 0x01
  const ACK: Byte := 0x02
  const DATA: Byte := 0x04
  const FIN: Byte := 0x08

  /** Largest payload per packet (63 KB). */
  const MAX_SIZE: nat := 63 * 1024

  /** Largest packet, headers included. */
  const MAX_PKT: nat := (16 + 16 + 16) + MAX_SIZE

  /**
   * The six fields of a Python Packet object. `size` is whatever the
   * sender wrote; nothing ties it to `|data|`.
   */
  datatype Packet = Packet(msgType: Int8, cntl: Int8, seqNum: nat, ackNum: nat, size: nat, data: Bytes)

  /** Packet(): the field values of a freshly constructed packet. */
  function NewPacket(): Packet
  {
    Packet(MESSAGE_TYPE, 0, 0, 0, 0, [])
  }

  /** The fields are in the ranges that struct's 'L' and 'H' codes accept. */
  predicate Fits(p: Packet)
  {
    p.seqNum < TWO_32 && p.ackNum < TWO_32 && p.size < TWO_16
  }

  function Header(p: Packet): (h: Bytes)
    requires Fits(p)
    ensures |h| == HEADER_SIZE
  {
    [SignedToByte(p.msgType), SignedToByte(p.cntl)] + Be32(p.seqNum) + Be32(p.ackNum) + Be16(p.size)
  }

  /**
   * The bytes Packet.pack returns for a packet whose fields fit: the
   * header, then the payload.
   */
  function Encode(p: Packet): (r: Bytes)
    requires Fits(p)
    ensures |r| == HEADER_SIZE + |p.data|
  {
    if |p.data| == 0 then Header(p) else Header(p) + p.data
  }

  datatype Option<T> = None | Some(value: T)

  datatype PackResult = Packed(bytes: Bytes) | StructError

  /** Packet.pack: struct.pack raises struct.error on a field out of range. */
  function Pack(p: Packet): (r: PackResult)
    ensures r.Packed? <==> Fits(p)
  {
    if Fits(p) then Packed(Encode(p)) else StructError
  }

  /**
   * The fields of packet `p` after Packet.unpack: with at least a header's
   * worth of bytes it overwrites all six, taking everything after the
   * header as the payload whatever `size` says; with fewer it changes
   * nothing.
   */
  function Unpacked(p: Packet, b: Bytes): (r: Packet)
    ensures |b| < HEADER_SIZE ==> r == p
    ensures |b| >= HEADER_SIZE ==> r.data == b[HEADER_SIZE..] && |r.data| + HEADER_SIZE == |b|
    ensures Fits(p) ==> Fits(r)
  {
    if |b| >= HEADER_SIZE then
      Packet(ByteToSigned(b[0]), ByteToSigned(b[1]), FromBe32(b[2..6]), FromBe32(b[6..10]), FromBe16(b[10..12]), b[12..])
    else
      p
  }

  /** A Python Packet object: six fields that unpack overwrites in place. */
  class PacketObject {
    var msgType: Int8
    var cntl: Int8
    var seqNum: nat
    var ackNum: nat
    var size: nat
    var data: Bytes

    function Fields(): Packet
      reads this
    {
      Packet(msgType, cntl, seqNum, ackNum, size, data)
    }

    /** Packet(): the defaults of a fresh packet. */
    constructor ()
      ensures Fields() == NewPacket()
    {
      msgType, cntl, seqNum, ackNum, size, data := MESSAGE_TYPE, 0, 0, 0, 0, [];
    }

    /**
     * Packet.unpack(bytes): decode the header with '!bbLLH' and keep the
     * rest as the payload, or leave every field alone on a short input.
     */
    method Unpack(bytes: Bytes)
      modifies this
      ensures Fields() == Unpacked(old(Fields()), bytes)
    {
      if |bytes| >= HEADER_SIZE {
        msgType := ByteToSigned(bytes[0]);
        cntl := ByteToSigned(bytes[1]);
        seqNum := FromBe32(bytes[2..6]);
        ackNum := FromBe32(bytes[6..10]);
        size := FromBe16(bytes[10..12]);
        data := bytes[HEADER_SIZE..];
      }
    }
  }

  /**
   * The layout of pack's output, read back field by field with the
   * big-endian decoders: type and cntl as signed bytes, then seq, ack and
   * size, then the payload; header-only exactly when the payload is empty.
   */
  lemma EncodeLayout(p: Packet)
    requires Fits(p)
    ensures |Encode(p)| == HEADER_SIZE + |p.data|
    ensures |Encode(p)| == HEADER_SIZE <==> p.data == []
    ensures ByteToSigned(Encode(p)[0]) == p.msgType && ByteToSigned(Encode(p)[1]) == p.cntl
    ensures FromBe32(Encode(p)[2..6]) == p.seqNum
    ensures FromBe32(Encode(p)[6..10]) == p.ackNum
    ensures FromBe16(Encode(p)[10..12]) == p.size
    ensures Encode(p)[HEADER_SIZE..] == p.data
  {
    var e := Encode(p);
    assert e == Header(p) + p.data;
    assert Header(p)[10..12] == Be16(p.size);
    assert e[2..6] == Be32(p.seqNum);
    assert e[6..10] == Be32(p.ackNum);
    assert e[10..12] == Be16(p.size);
    Be32RoundTrip(p.seqNum);
    Be32RoundTrip(p.ackNum);
    Be16RoundTrip(p.size);
  }

  /**
   * unpack(pack(p)) restores all six fields, whatever packet is unpacked
   * into, and recovers the payload even when `size` disagrees with it.
   */
  lemma RoundTrip(p: Packet, into: Packet)
    requires Fits(p)
    ensures Pack(p).Packed? && Unpacked(into, Pack(p).bytes) == p
  {
    EncodeLayout(p);
  }

  /** pack(unpack(b)) gives back every byte string of at least header size. */
  lemma UnpackThenPack(into: Packet, b: Bytes)
    requires |b| >= HEADER_SIZE
    ensures Pack(Unpacked(into, b)) == Packed(b)
  {
    var p := Unpacked(into, b);
    FromBe32RoundTrip(b[2..6]);
    FromBe32RoundTrip(b[6..10]);
    FromBe16RoundTrip(b[10..12]);
    assert Header(p) == b[..HEADER_SIZE];
    assert b == b[..HEADER_SIZE] + b[HEADER_SIZE..];
  }
}
