/**
 * The primitive encodings behind the sock352 header format '!bbLLH':
 * network byte order (big-endian) for the unsigned 16- and 32-bit fields,
 * and the two's-complement byte that struct's 'b' code packs a signed
 * value into.
 */
module ByteOrder {

  /** One octet, as Python's bytes objects hold them. */
  type Byte = b: int | 0 <= b < 256

  type Bytes = seq<Byte>

  /** The Python ints that struct's 'b' code accepts. */
  type Int8 = x: int | -128 <= x < 128

  const TWO_16: nat := 0x1_0000
  const TWO_32: nat := 0x1_0000_0000

  // ---------------------------------------------------------------------
  // Signed bytes ('b')

  /** The byte that 'b' packs for a signed value (two's complement). */
  function SignedToByte(x: Int8): Byte
  {
    if x < 0 then x + 256 else x
  }

  /** The signed value that 'b' unpacks from a byte. */
  function ByteToSigned(b: Byte): Int8
  {
    if b < 128 then b else b - 256
  }

  /** A byte read as eight bits and back is the same byte. */
  lemma BitsRoundTrip(v: bv8)
    ensures SignedToByte(ByteToSigned(v as int)) as bv8 == v
  {
  }

  /**
   * Python's `c | f` on a signed control byte and a non-negative flag:
   * on two's-complement integers this is the bitwise or of the bytes, so
   * every bit of `f` is set and every other bit is kept from `c`.
   */
  function SetFlag(c: Int8, f: Byte): (r: Int8)
    ensures (SignedToByte(r) as bv8) & (f as bv8) == f as bv8
    ensures (SignedToByte(r) as bv8) & !(f as bv8) == (SignedToByte(c) as bv8) & !(f as bv8)
  {
    var v := (SignedToByte(c) as bv8) | (f as bv8);
    BitsRoundTrip(v);
    ByteToSigned(v as int)
  }

  /**
   * Python's `c & f` on a signed control byte and a non-negative mask: the
   * bits of `c` inside `f`, and no others.
   */
  function MaskFlag(c: Int8, f: Byte): (r: Int8)
    ensures (SignedToByte(r) as bv8) & !(f as bv8) == 0
    ensures (SignedToByte(r) as bv8) & (f as bv8) == (SignedToByte(c) as bv8) & (f as bv8)
  {
    var v := (SignedToByte(c) as bv8) & (f as bv8);
    BitsRoundTrip(v);
    ByteToSigned(v as int)
  }

  /** 'b' packs and unpacks a signed byte without loss, in both directions. */
  lemma SignedByteRoundTrip(x: Int8, b: Byte)
    ensures ByteToSigned(SignedToByte(x)) == x
    ensures SignedToByte(ByteToSigned(b)) == b
  {
  }

  // ---------------------------------------------------------------------
  // Unsigned big-endian fields ('H' and 'L')

  function Be16(x: nat): (r: Bytes)
    requires x < TWO_16
    ensures |r| == 2
  {
    [x / 256, x % 256]
  }

  function FromBe16(b: Bytes): (x: nat)
    requires |b| == 2
    ensures x < TWO_16
  {
    b[0] as int * 256 + b[1] as int
  }

  function Be32(x: nat): (r: Bytes)
    requires x < TWO_32
    ensures |r| == 4
  {
    Be16(x / TWO_16) + Be16(x % TWO_16)
  }

  function FromBe32(b: Bytes): (x: nat)
    requires |b| == 4
    ensures x < TWO_32
  {
    FromBe16(b[..2]) * TWO_16 + FromBe16(b[2..])
  }

  lemma Be16RoundTrip(x: nat)
    requires x < TWO_16
    ensures FromBe16(Be16(x)) == x
  {
  }

  lemma FromBe16RoundTrip(b: Bytes)
    requires |b| == 2
    ensures Be16(FromBe16(b)) == b
  {
  }

  lemma Be32RoundTrip(x: nat)
    requires x < TWO_32
    ensures FromBe32(Be32(x)) == x
  {
    var b := Be32(x);
    assert b[..2] == Be16(x / TWO_16);
    assert b[2..] == Be16(x % TWO_16);
    Be16RoundTrip(x / TWO_16);
    Be16RoundTrip(x % TWO_16);
  }

  lemma FromBe32RoundTrip(b: Bytes)
    requires |b| == 4
    ensures Be32(FromBe32(b)) == b
  {
    var hi, lo := FromBe16(b[..2]), FromBe16(b[2..]);
    assert FromBe32(b) / TWO_16 == hi && FromBe32(b) % TWO_16 == lo;
    FromBe16RoundTrip(b[..2]);
    FromBe16RoundTrip(b[2..]);
    assert b == b[..2] + b[2..];
  }
}
