/**
 * Byte-level encodings shared by the host and the receiver: the 32-bit
 * big-endian length prefix written by the host (`boost::endian::native_to_big`
 * on a `uint32_t`), the signed big-endian `int` that Java's
 * `DataInputStream.readInt` reads back, and the 16-bit signed protocol version
 * that the host reads in its own (little-endian) byte order.
 */
module Wire {

  type Byte = x: int | 0 <= x < 256

  const UINT32_LIMIT: int := 0x1_0000_0000
  const INT32_LIMIT: int := 0x8000_0000

  /** The four bytes of `n`, most significant first. */
  function BigEndian32(n: nat): (r: seq<Byte>)
    requires n < UINT32_LIMIT
    ensures |r| == 4
  {
    [n / 0x100_0000, (n / 0x1_0000) % 0x100, (n / 0x100) % 0x100, n % 0x100]
  }

  /** The unsigned value of four bytes read most significant first. */
  function Unsigned32(b: seq<Byte>): (r: nat)
    requires |b| == 4
    ensures r < UINT32_LIMIT
  {
    (b[0] as int) * 0x100_0000 + (b[1] as int) * 0x1_0000 + (b[2] as int) * 0x100 + b[3]
  }

  /** Java's `readInt`: the same four bytes as a two's-complement 32-bit value. */
  function SignedInt32(b: seq<Byte>): (r: int)
    requires |b| == 4
    ensures -INT32_LIMIT <= r < INT32_LIMIT
    ensures r >= 0 <==> b[0] < 0x80
    ensures r % UINT32_LIMIT == Unsigned32(b)
  {
    var u := Unsigned32(b);
    if u >= INT32_LIMIT then u - UINT32_LIMIT else u
  }

  /** Reading back what `BigEndian32` wrote gives the original value. */
  lemma BigEndian32RoundTrip(n: nat)
    requires n < UINT32_LIMIT
    ensures Unsigned32(BigEndian32(n)) == n
  {
    var b := BigEndian32(n);
    var q := n / 0x100;
    var qq := q / 0x100;
    assert n == q * 0x100 + n % 0x100;
    assert q == qq * 0x100 + q % 0x100;
    assert qq == (qq / 0x100) * 0x100 + qq % 0x100;
    assert n / 0x1_0000 == qq;
    assert n / 0x100_0000 == qq / 0x100;
  }

  /** Four bytes are fixed by their unsigned value: the encoding is injective. */
  lemma Unsigned32Determines(b: seq<Byte>)
    requires |b| == 4
    ensures BigEndian32(Unsigned32(b)) == b
  {
    var u := Unsigned32(b);
    assert u % 0x100 == b[3];
    assert u / 0x100 == (b[0] as int) * 0x1_0000 + (b[1] as int) * 0x100 + b[2];
    assert u / 0x1_0000 == (b[0] as int) * 0x100 + b[1];
    assert u / 0x100_0000 == b[0];
  }

  /** A length below 2^31 is read back by `readInt` unchanged. */
  lemma SignedReadOfSmallValue(n: nat)
    requires n < INT32_LIMIT
    ensures SignedInt32(BigEndian32(n)) == n
  {
    BigEndian32RoundTrip(n);
  }

  /** The `int16_t` the host reads from two bytes in its own, little-endian, order. */
  function Int16LittleEndian(lo: Byte, hi: Byte): (r: int)
    ensures -0x8000 <= r < 0x8000
    ensures r < 0 <==> hi >= 0x80
    ensures r % 0x1_0000 == lo + (hi as int) * 0x100
  {
    var u := lo + (hi as int) * 0x100;
    if u >= 0x8000 then u - 0x1_0000 else u
  }
}
