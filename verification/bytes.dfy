/**
 * Octets, unsigned 16-bit integers and their big-endian (network order)
 * two-byte representation, as Rust's `u16::to_be_bytes` and
 * `u16::from_be_bytes` produce and consume them.
 */
module BigEndian {

  /** A Rust `u8`. */
  type uint8 = x: int | 0 <= x < 0x100

  /** A Rust `u16`. */
  type uint16 = x: int | 0 <= x < 0x1_0000

  /** `u16::from_be_bytes([hi, lo])`. */
  function FromBe16(hi: uint8, lo: uint8): (v: uint16)
    ensures v / 0x100 == hi && v % 0x100 == lo
  {
    hi * 0x100 + lo
  }

  /** `v.to_be_bytes()`: the high byte first, then the low byte. */
  function ToBe16(v: uint16): (r: seq<uint8>)
    ensures |r| == 2
    ensures FromBe16(r[0], r[1]) == v
  {
    [v / 0x100, v % 0x100]
  }

  /** Splitting a value into its byte pair and reading it back is the identity, both ways. */
  lemma FromToBe16(hi: uint8, lo: uint8)
    ensures ToBe16(FromBe16(hi, lo)) == [hi, lo]
  {
  }

  /** Distinct values have distinct big-endian byte pairs. */
  lemma ToBe16Injective(v: uint16, w: uint16)
    ensures ToBe16(v) == ToBe16(w) <==> v == w
  {
  }
}
