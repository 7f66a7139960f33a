/**
 * The TYPE codes of section 3.2.2 of RFC 1035 and the CLASS codes of
 * section 3.2.4, as the closed enumerations `TypeField` and `ClassField`
 * of src/lib.rs, with their big-endian two-byte wire form.
 */
module Fields {
  import opened Wrappers
  import opened BigEndian

  datatype TypeField =
    | A      // a host address
    | NS     // an authoritative name server
    | MD     // a mail destination (obsolete)
    | MF     // a mail forwarder (obsolete)
    | CNAME  // the canonical name for an alias
    | SOA    // marks the start of a zone of authority
    | MB     // a mailbox domain name (experimental)
    | MG     // a mail group member (experimental)
    | MR     // a mail rename domain name (experimental)
    | NULL   // a null RR (experimental)
    | WKS    // a well known service description
    | PTR    // a domain name pointer
    | HINFO  // host information
    | MINFO  // mailbox or mail list information
    | MX     // mail exchange
    | TXT    // text strings

  datatype ClassField =
    | IN  // the Internet
    | CS  // the CSNET class (obsolete)
    | CH  // the CHAOS class
    | HS  // Hesiod

  /** The `#[repr(u16)]` discriminant of a type, `self as u16`. */
  function TypeCode(t: TypeField): uint16
  {
    match t
    case A => 1
    case NS => 2
    case MD => 3
    case MF => 4
    case CNAME => 5
    case SOA => 6
    case MB => 7
    case MG => 8
    case MR => 9
    case NULL => 10
    case WKS => 11
    case PTR => 12
    case HINFO => 13
    case MINFO => 14
    case MX => 15
    case TXT => 16
  }

  /** The `#[repr(u16)]` discriminant of a class, `self as u16`. */
  function ClassCode(c: ClassField): uint16
  {
    match c
    case IN => 1
    case CS => 2
    case CH => 3
    case HS => 4
  }

  /**
   * Reference decoder: the closed lookup from a numeric TYPE code back to
   * its variant; any code outside the table has no variant.
   */
  function TypeFromCode(code: uint16): Option<TypeField>
  {
    if code == 1 then Some(A)
    else if code == 2 then Some(NS)
    else if code == 3 then Some(MD)
    else if code == 4 then Some(MF)
    else if code == 5 then Some(CNAME)
    else if code == 6 then Some(SOA)
    else if code == 7 then Some(MB)
    else if code == 8 then Some(MG)
    else if code == 9 then Some(MR)
    else if code == 10 then Some(NULL)
    else if code == 11 then Some(WKS)
    else if code == 12 then Some(PTR)
    else if code == 13 then Some(HINFO)
    else if code == 14 then Some(MINFO)
    else if code == 15 then Some(MX)
    else if code == 16 then Some(TXT)
    else None
  }

  /** Reference decoder: the closed lookup from a numeric CLASS code back to its variant. */
  function ClassFromCode(code: uint16): Option<ClassField>
  {
    if code == 1 then Some(IN)
    else if code == 2 then Some(CS)
    else if code == 3 then Some(CH)
    else if code == 4 then Some(HS)
    else None
  }

  /** `TypeField::to_be_bytes`: the discriminant in network byte order. */
  function TypeToBeBytes(t: TypeField): (r: seq<uint8>)
    ensures |r| == 2
    ensures r[0] == 0 && 1 <= r[1] <= 16
    ensures TypeFromCode(FromBe16(r[0], r[1])) == Some(t)
  {
    ToBe16(TypeCode(t))
  }

  /** `ClassField::to_be_bytes`: the discriminant in network byte order. */
  function ClassToBeBytes(c: ClassField): (r: seq<uint8>)
    ensures |r| == 2
    ensures r[0] == 0 && 1 <= r[1] <= 4
    ensures ClassFromCode(FromBe16(r[0], r[1])) == Some(c)
  {
    ToBe16(ClassCode(c))
  }

  /**
   * The type codes are exactly 1 through 16: every code in that range names
   * one variant and every variant's code lies in it, and the lookup inverts
   * the discriminant.
   */
  lemma TypeCodeTable(t: TypeField, code: uint16)
    ensures 1 <= TypeCode(t) <= 16
    ensures TypeFromCode(code).Some? <==> 1 <= code <= 16
    ensures TypeFromCode(code) == Some(t) <==> TypeCode(t) == code
  {
  }

  /** The class codes are exactly 1 through 4, and the lookup inverts the discriminant. */
  lemma ClassCodeTable(c: ClassField, code: uint16)
    ensures 1 <= ClassCode(c) <= 4
    ensures ClassFromCode(code).Some? <==> 1 <= code <= 4
    ensures ClassFromCode(code) == Some(c) <==> ClassCode(c) == code
  {
  }

  /** Distinct type variants encode to distinct byte pairs. */
  lemma TypeToBeBytesInjective(t: TypeField, u: TypeField)
    ensures TypeToBeBytes(t) == TypeToBeBytes(u) <==> t == u
  {
  }

  /** Distinct class variants encode to distinct byte pairs. */
  lemma ClassToBeBytesInjective(c: ClassField, d: ClassField)
    ensures ClassToBeBytes(c) == ClassToBeBytes(d) <==> c == d
  {
  }

  /** Sample encodings: `A` and `IN` both encode as `00 01`, `TXT` as `00 10` and `HS` as `00 04`. */
  lemma ToBeBytesExamples()
    ensures TypeToBeBytes(A) == [0x00, 0x01]
    ensures TypeToBeBytes(TXT) == [0x00, 0x10]
    ensures ClassToBeBytes(IN) == [0x00, 0x01]
    ensures ClassToBeBytes(HS) == [0x00, 0x04]
  {
  }
}
