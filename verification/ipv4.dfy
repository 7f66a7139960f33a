/**
 * `ipv4_addr_from_bytes` of src/ipv4.rs: the RDATA of an A record
 * (section 3.4.1 of RFC 1035) read as an IPv4 address. The address is the
 * four octets `std::net::Ipv4Addr::new` takes, in order.
 */
module Ipv4 {
  import opened BigEndian

  datatype Ipv4Addr = Ipv4Addr(a: uint8, b: uint8, c: uint8, d: uint8)

  /** `Ipv4Addr::octets`: the address as its four bytes in order. */
  function Octets(addr: Ipv4Addr): (r: seq<uint8>)
    ensures |r| == 4
  {
    [addr.a, addr.b, addr.c, addr.d]
  }

  /**
   * `ipv4_addr_from_bytes`. Indexing `chunk[3]` panics on a shorter slice,
   * so the chunk must hold at least four bytes; octet i of the result is
   * `chunk[i]`.
   */
  function Ipv4AddrFromBytes(chunk: seq<uint8>): (addr: Ipv4Addr)
    requires |chunk| >= 4
    ensures Octets(addr) == chunk[..4]
  {
    Ipv4Addr(chunk[0], chunk[1], chunk[2], chunk[3])
  }

  /** Bytes after the fourth do not affect the address. */
  lemma IgnoresTrailingBytes(chunk: seq<uint8>, other: seq<uint8>)
    requires |chunk| >= 4 && |other| >= 4
    ensures Ipv4AddrFromBytes(chunk) == Ipv4AddrFromBytes(other) <==> chunk[..4] == other[..4]
  {
  }

  /** Every address is read back from its own octets. */
  lemma FromOctets(addr: Ipv4Addr)
    ensures Ipv4AddrFromBytes(Octets(addr)) == addr
  {
  }

  /** Injective on four-byte inputs. */
  lemma Ipv4AddrFromBytesInjective(chunk: seq<uint8>, other: seq<uint8>)
    requires |chunk| == 4 && |other| == 4
    ensures Ipv4AddrFromBytes(chunk) == Ipv4AddrFromBytes(other) ==> chunk == other
  {
  }

  /** The A record data `5d b8 d8 22` reads as 93.184.216.34. */
  lemma SampleAddress()
    ensures Ipv4AddrFromBytes([0x5d, 0xb8, 0xd8, 0x22]) == Ipv4Addr(93, 184, 216, 34)
  {
  }
}
