/**
 * `ipv6_addr_from_bytes` of src/ipv6.rs: the RDATA of an AAAA record
 * (section 2.2 of RFC 3596) read as an IPv6 address, the eight big-endian
 * 16-bit segments `std::net::Ipv6Addr::new` takes, in order.
 */
module Ipv6 {
  import opened BigEndian

  datatype Ipv6Addr = Ipv6Addr(segments: seq<uint16>)

  /** The address has exactly eight segments. */
  predicate Valid(addr: Ipv6Addr)
  {
    |addr.segments| == 8
  }

  /** The big-endian byte pairs of the segments, in order. */
  function SegmentsToBytes(segments: seq<uint16>): (r: seq<uint8>)
    ensures |r| == 2 * |segments|
    ensures forall i :: 0 <= i < |segments| ==> FromBe16(r[2 * i], r[2 * i + 1]) == segments[i]
  {
    if |segments| == 0 then []
    else
      var rest := SegmentsToBytes(segments[1..]);
      var r := ToBe16(segments[0]) + rest;
      assert forall i :: 1 <= i < |segments| ==> r[2 * i] == rest[2 * (i - 1)] && r[2 * i + 1] == rest[2 * (i - 1) + 1];
      r
  }

  /** `Ipv6Addr::octets`: the address as its sixteen bytes. */
  function Octets(addr: Ipv6Addr): (r: seq<uint8>)
    requires Valid(addr)
    ensures |r| == 16
  {
    SegmentsToBytes(addr.segments)
  }

  /**
   * `ipv6_addr_from_bytes`. Indexing up to `chunk[15]` panics on a shorter
   * slice, so the chunk must hold at least sixteen bytes; segment i of the
   * result is the big-endian value of bytes 2i and 2i+1.
   */
  function Ipv6AddrFromBytes(chunk: seq<uint8>): (addr: Ipv6Addr)
    requires |chunk| >= 16
    ensures Valid(addr)
    ensures forall i :: 0 <= i < 8 ==> addr.segments[i] == chunk[2 * i] as int * 0x100 + chunk[2 * i + 1] as int
  {
    Ipv6Addr([
      FromBe16(chunk[0], chunk[1]),
      FromBe16(chunk[2], chunk[3]),
      FromBe16(chunk[4], chunk[5]),
      FromBe16(chunk[6], chunk[7]),
      FromBe16(chunk[8], chunk[9]),
      FromBe16(chunk[10], chunk[11]),
      FromBe16(chunk[12], chunk[13]),
      FromBe16(chunk[14], chunk[15])])
  }

  /** Splitting the segments back into byte pairs reproduces the first sixteen bytes. */
  lemma OctetsFromBytes(chunk: seq<uint8>)
    requires |chunk| >= 16
    ensures Octets(Ipv6AddrFromBytes(chunk)) == chunk[..16]
  {
    var addr := Ipv6AddrFromBytes(chunk);
    var r := Octets(addr);
    forall k | 0 <= k < 16 ensures r[k] == chunk[k] {
      var i := k / 2;
      assert FromBe16(r[2 * i], r[2 * i + 1]) == addr.segments[i];
      FromToBe16(r[2 * i], r[2 * i + 1]);
      FromToBe16(chunk[2 * i], chunk[2 * i + 1]);
    }
  }

  /** Every address is read back from its own octets. */
  lemma FromOctets(addr: Ipv6Addr)
    requires Valid(addr)
    ensures Ipv6AddrFromBytes(Octets(addr)) == addr
  {
  }

  /** Bytes after the sixteenth do not affect the address. */
  lemma IgnoresTrailingBytes(chunk: seq<uint8>, other: seq<uint8>)
    requires |chunk| >= 16 && |other| >= 16
    ensures Ipv6AddrFromBytes(chunk) == Ipv6AddrFromBytes(other) <==> chunk[..16] == other[..16]
  {
  }

  /** Injective on sixteen-byte inputs. */
  lemma Ipv6AddrFromBytesInjective(chunk: seq<uint8>, other: seq<uint8>)
    requires |chunk| == 16 && |other| == 16
    ensures Ipv6AddrFromBytes(chunk) == Ipv6AddrFromBytes(other) ==> chunk == other
  {
  }
}
