/**
 * The fixed 12-byte message header of section 4.1.1 of RFC 1035, as the
 * `DNSHeader` struct of src/lib.rs: six 16-bit fields written big-endian
 * in a fixed order.
 */
module Header {
  import opened Wrappers
  import opened BigEndian

  datatype DnsHeader = DnsHeader(
    id: uint16,
    flags: uint16,
    numQuestions: uint16,
    numAnswers: uint16,
    numAuthorities: uint16,
    numAdditionals: uint16)

  /** The header's fields in wire order. */
  function WireFields(h: DnsHeader): (f: seq<uint16>)
    ensures |f| == 6
  {
    [h.id, h.flags, h.numQuestions, h.numAnswers, h.numAuthorities, h.numAdditionals]
  }

  /** `DNSHeader::to_bytes`: field i occupies bytes 2i (high) and 2i+1 (low). */
  function ToBytes(h: DnsHeader): (r: seq<uint8>)
    ensures |r| == 12
    ensures forall i :: 0 <= i < 6 ==> FromBe16(r[2 * i], r[2 * i + 1]) == WireFields(h)[i]
  {
    ToBe16(h.id) + ToBe16(h.flags) + ToBe16(h.numQuestions)
      + ToBe16(h.numAnswers) + ToBe16(h.numAuthorities) + ToBe16(h.numAdditionals)
  }

  /**
   * Reference decoder: read six big-endian 16-bit fields from the first
   * twelve bytes; fewer than twelve bytes is a truncated header.
   */
  function FromBytes(b: seq<uint8>): Option<DnsHeader>
  {
    if |b| < 12 then None
    else Some(DnsHeader(
      FromBe16(b[0], b[1]), FromBe16(b[2], b[3]), FromBe16(b[4], b[5]),
      FromBe16(b[6], b[7]), FromBe16(b[8], b[9]), FromBe16(b[10], b[11])))
  }

  /** Reading the header back recovers it exactly, whatever follows it. */
  lemma FromToBytes(h: DnsHeader, rest: seq<uint8>)
    ensures FromBytes(ToBytes(h) + rest) == Some(h)
  {
  }

  /** Encoding is the inverse of decoding on every twelve-byte header. */
  lemma ToFromBytes(b: seq<uint8>)
    requires |b| == 12
    ensures FromBytes(b).Some? && ToBytes(FromBytes(b).value) == b
  {
  }

  /** Two headers with the same bytes are the same header. */
  lemma ToBytesInjective(h: DnsHeader, g: DnsHeader)
    ensures ToBytes(h) == ToBytes(g) <==> h == g
  {
    if ToBytes(h) == ToBytes(g) {
      FromToBytes(h, []);
      FromToBytes(g, []);
      assert ToBytes(h) + [] == ToBytes(h);
      assert ToBytes(g) + [] == ToBytes(g);
    }
  }
}
