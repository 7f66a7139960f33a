# DNS query encoder and address decoders, in Dafny

This project models the byte-level core of a small Rust DNS client:

- the query encoder in `src/lib.rs`: the TYPE and CLASS codes of RFC 1035
  (sections 3.2.2 and 3.2.4) as closed enumerations with their big-endian
  two-byte form, the fixed 12-byte message header (section 4.1.1), the
  question entry (section 4.1.2), domain-name label encoding (section 3.1)
  and `build_query`, which assembles one complete query message;
- the address RDATA decoders `ipv4_addr_from_bytes` (`src/ipv4.rs`, A
  records, section 3.4.1 of RFC 1035) and `ipv6_addr_from_bytes`
  (`src/ipv6.rs`, AAAA records, section 2.2 of RFC 3596).

Everything is a pure function on byte sequences. Bytes are the subset type
`uint8` (0..255) and Rust's `u16` is `uint16` (0..65535); a domain name is
the sequence of its UTF-8 bytes, split on the byte 0x2E (no multi-byte UTF-8
sequence contains that byte, so this is the same split as `str::split(".")`).
Each encoder has a partner: a reference decoder written only to state
round trips (`Header.FromBytes`, `Question.FromBytes`, `DomainName.DecodeName`,
`Query.ParseQuery`, `Fields.TypeFromCode`, `Fields.ClassFromCode`), or the
inverse `octets` view of an address.

Modules, one per concept: `Wrappers` (Option), `BigEndian` (bytes and
`to_be_bytes`/`from_be_bytes`), `Fields`, `Header`, `Question`,
`DomainName`, `Query`, `Ipv4`, `Ipv6`.

The encoder does not validate names, and the model follows the code rather
than the RFC here. The length byte is `part.len() as u8`, modelled as the
part length modulo 256, so a part of 64 bytes or more is written with a
wrong or reserved length byte. An empty part (the empty name, a leading,
trailing or doubled dot) is written as a zero byte in the middle of the
stream. Section 3.1 of RFC 1035 allows only labels of 1 to 63 octets, but
the code has no error path, so the model has none either. The round-trip lemmas instead carry the precondition that every part
is a non-empty label shorter than 64 bytes. `DomainName.EmptyPartStopsDecoding`
shows what happens to empty parts without that precondition.

## Model

| member | source | states |
|---|---|---|
| `BigEndian.ToBe16` | src/lib.rs:44 | `to_be_bytes` gives exactly two bytes, high byte first, that read back as the value |
| `BigEndian.FromBe16` | src/ipv6.rs:5-12 | `u16::from_be_bytes([hi, lo])`: the value's high byte is `hi` and its low byte is `lo` |
| `BigEndian.FromToBe16` | src/ipv6.rs:5-12 | reading a byte pair and writing it back reproduces the pair |
| `BigEndian.ToBe16Injective` | src/lib.rs:80-85 | two 16-bit values have the same big-endian bytes exactly when they are equal |
| `Fields.TypeToBeBytes` | src/lib.rs:43-45 | two bytes: high byte 0, then a low byte in 1..16 that the code table maps back to the same variant |
| `Fields.ClassToBeBytes` | src/lib.rs:64-66 | two bytes: high byte 0, then a low byte in 1..4 that the code table maps back to the same variant |
| `Fields.TypeCodeTable` | src/lib.rs:6-39 | every type code is in 1..16; a code has a variant exactly when it is in 1..16; the lookup and the discriminant are inverse |
| `Fields.ClassCodeTable` | src/lib.rs:51-60 | every class code is in 1..4; a code has a variant exactly when it is in 1..4; the lookup and the discriminant are inverse |
| `Fields.TypeToBeBytesInjective` | src/lib.rs:6-45 | distinct type variants encode to distinct byte pairs, and equal ones to equal pairs |
| `Fields.ClassToBeBytesInjective` | src/lib.rs:51-66 | distinct class variants encode to distinct byte pairs, and equal ones to equal pairs |
| `Fields.ToBeBytesExamples` | src/lib.rs:43-66 | `A` gives `00 01`, `TXT` gives `00 10`, `IN` gives `00 01`, `HS` gives `00 04` |
| `Header.ToBytes` | src/lib.rs:78-87 | exactly 12 bytes; bytes 2i and 2i+1 are the big-endian i-th field in the order id, flags, questions, answers, authorities, additionals |
| `Header.FromToBytes` | src/lib.rs:80-85 | reading six big-endian fields back from the header bytes, whatever follows them, recovers the header exactly |
| `Header.ToFromBytes` | src/lib.rs:78-87 | every 12-byte sequence is the encoding of the header read from it, so the encoding is onto |
| `Header.ToBytesInjective` | src/lib.rs:78-87 | two headers have the same bytes exactly when they are equal |
| `Question.ToBytes` | src/lib.rs:98-104 | length is the name length plus 4; the name bytes are copied unchanged, then the type bytes, then the class bytes |
| `Question.FromToBytes` | src/lib.rs:98-104 | splitting off the last four bytes as type and class recovers the question |
| `Question.ToBytesInjective` | src/lib.rs:98-104 | two questions have the same bytes exactly when they are equal |
| `DomainName.Split` | src/lib.rs:117 | at least one part, and joining the parts with dots gives back the name |
| `DomainName.SplitDotFree` | src/lib.rs:117 | no part of the split contains a dot |
| `DomainName.SplitJoin` | src/lib.rs:117 | splitting the dot-join of a non-empty list of dot-free parts gives back that list, so the split is unique |
| `DomainName.ToBytes` | src/lib.rs:115-123 | the encoding is non-empty and its last byte is the terminating 0 |
| `DomainName.ToBytesLength` | src/lib.rs:115-123 | the encoding is always two bytes longer than the name: each dot becomes a length byte, plus one more length byte and the terminator |
| `DomainName.DecodeToBytes` | src/lib.rs:117-121 | when every part is non-empty and under 64 bytes, reading labels until a zero length and joining them with dots returns the name and consumes exactly the encoding, whatever follows |
| `DomainName.EmptyPartStopsDecoding` | src/lib.rs:117-121 | an empty part after legal labels writes a 0 byte mid-stream: decoding stops there, returns only the labels before the empty part, and consumes less than the whole encoding |
| `DomainName.WwwExampleComBytes` | src/lib.rs:115-123 | `www.example.com` encodes as `03 77 77 77 07 65 78 61 6d 70 6c 65 03 63 6f 6d 00` and decodes back to itself |
| `DomainName.DoubledDotExample` | src/lib.rs:117-121 | `a..b` encodes as `01 61 00 01 62 00`, which decodes to just `a` after 3 bytes |
| `Query.BuildQuery` | src/lib.rs:126-146 | length is the name length plus 18; header bytes `82 98 01 00 00 01 00 00 00 00 00 00`; then the encoded name, the type bytes, and class IN `00 01` |
| `Query.QueryHeaderFields` | src/lib.rs:128-137 | for every name and type the header reads back as id 0x8298, flags 0x0100 (only RD), one question and zero other counts |
| `Query.ParseBuildQuery` | src/lib.rs:126-146 | for a name of non-empty labels under 64 bytes, reading the query back gives the fixed header, the name, the requested type and class IN |
| `Ipv4.Octets` | src/ipv4.rs:4 | the address as its four octets in order |
| `Ipv4.Ipv4AddrFromBytes` | src/ipv4.rs:3-5 | needs at least 4 bytes (shorter input panics); octet i of the address is `chunk[i]` for i in 0..4 |
| `Ipv4.IgnoresTrailingBytes` | src/ipv4.rs:4 | two chunks give the same address exactly when their first four bytes agree |
| `Ipv4.FromOctets` | src/ipv4.rs:3-5 | every address is read back from its own octets |
| `Ipv4.Ipv4AddrFromBytesInjective` | src/ipv4.rs:3-5 | on 4-byte inputs, equal addresses come from equal chunks |
| `Ipv4.SampleAddress` | src/ipv4.rs:4 | `5d b8 d8 22` is 93.184.216.34 |
| `Ipv6.SegmentsToBytes` | src/ipv6.rs:5-12 | the inverse direction: two bytes per segment, and each byte pair reads back as its segment |
| `Ipv6.Octets` | src/ipv6.rs:4-13 | an address of eight segments has sixteen octets |
| `Ipv6.Ipv6AddrFromBytes` | src/ipv6.rs:3-14 | needs at least 16 bytes (shorter input panics); eight segments, segment i is `chunk[2i]*256 + chunk[2i+1]` |
| `Ipv6.OctetsFromBytes` | src/ipv6.rs:4-13 | splitting each segment back into its big-endian pair reproduces the first 16 bytes |
| `Ipv6.FromOctets` | src/ipv6.rs:4-13 | every eight-segment address is read back from its own octets |
| `Ipv6.IgnoresTrailingBytes` | src/ipv6.rs:4-13 | two chunks give the same address exactly when their first sixteen bytes agree |
| `Ipv6.Ipv6AddrFromBytesInjective` | src/ipv6.rs:3-14 | on 16-byte inputs, equal addresses come from equal chunks |

## Left out

- `src/main.rs`: the process entry point does network lookups and prints the results. The `domain_lookup` it calls is not part of this model.
- Response decoding, compression pointers, resource-record parsing and iterative resolution: the modelled source has none of them. The decoders here exist only to state round trips. They reject a length byte of 64 or more instead of following it as a pointer.
- `DomainName::from` only wraps the string, so a name is modelled directly as its byte sequence. Rust `String`/UTF-8 validity is not modelled.
- `std::net::Ipv4Addr` and `Ipv6Addr` are modelled as a tuple of four octets and a sequence of eight segments. `Octets` stands in for their `octets()` accessors.
- The commented-out random transaction id: the code uses the fixed id 0x8298, and so does the model.
- Rust panics are not modelled as outcomes. Indexing a too-short chunk panics in both address decoders, so `Ipv4.Ipv4AddrFromBytes` and `Ipv6.Ipv6AddrFromBytes` require the length the indexing needs.
- DomainName.DecodeToBytes: the round trip is stated only for names whose parts are all non-empty and under 64 bytes. The encoder accepts every name, and names outside that set do not round-trip (see `DomainName.EmptyPartStopsDecoding`).
- `#[derive(Debug, Clone, Copy)]` formatting and copying behaviour is not modelled.
