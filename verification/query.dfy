/**
 * `build_query` of src/lib.rs: one complete query message, a fixed header
 * followed by a single question for the encoded name, the requested type and
 * class IN.
 */
module Query {
  import opened Wrappers
  import opened BigEndian
  import opened Fields
  import Header
  import Question
  import DomainName

  /** The transaction id every query carries. */
  const QueryId: uint16 := 0x8298

  /** The RD (recursion desired) flag, `1 << 8`. */
  const RecursionDesired: uint16 := 0x100

  /** The header of every query: the fixed id, only RD set, one question, no records. */
  const QueryHeader: Header.DnsHeader :=
    Header.DnsHeader(QueryId, RecursionDesired, 1, 0, 0, 0)

  /** `build_query`. */
  function BuildQuery(name: seq<uint8>, typeField: TypeField): (r: seq<uint8>)
    ensures |r| == |name| + 18
    ensures r[..12] == [0x82, 0x98, 0x01, 0x00, 0x00, 0x01, 0x00, 0x00, 0x00, 0x00, 0x00, 0x00]
    ensures r[12..|r| - 4] == DomainName.ToBytes(name)
    ensures r[|r| - 4..|r| - 2] == TypeToBeBytes(typeField)
    ensures r[|r| - 2..] == [0x00, 0x01]
  {
    var encoded := DomainName.ToBytes(name);
    DomainName.ToBytesLength(name);
    var question := Question.ToBytes(Question.DnsQuestion(encoded, typeField, IN));
    var header := Header.ToBytes(QueryHeader);
    assert header == [0x82, 0x98, 0x01, 0x00, 0x00, 0x01, 0x00, 0x00, 0x00, 0x00, 0x00, 0x00];
    AppendSlices(header, question, |encoded|);
    header + question
  }

  /** Where the parts of a question land once it follows a twelve-byte header. */
  lemma AppendSlices(header: seq<uint8>, question: seq<uint8>, n: nat)
    requires |header| == 12 && |question| == n + 4
    ensures (header + question)[..12] == header
    ensures (header + question)[12..12 + n] == question[..n]
    ensures (header + question)[12 + n..12 + n + 2] == question[n..n + 2]
    ensures (header + question)[12 + n + 2..] == question[n + 2..]
  {
  }

  /** What a reference reader recovers from a query message. */
  datatype ParsedQuery = ParsedQuery(
    header: Header.DnsHeader,
    name: seq<uint8>,
    typeField: TypeField,
    classField: ClassField)

  /**
   * Reference reader: a twelve-byte header, then a question whose name bytes
   * decode as exactly one encoded name, followed by known type and class
   * codes. Anything else has no reading.
   */
  function ParseQuery(b: seq<uint8>): Option<ParsedQuery>
  {
    match Header.FromBytes(b)
    case None => None
    case Some(header) =>
      match Question.FromBytes(b[12..])
      case None => None
      case Some(q) =>
        match DomainName.DecodeName(q.name)
        case None => None
        case Some((name, n)) =>
          if n != |q.name| then None
          else Some(ParsedQuery(header, name, q.typeField, q.classField))
  }

  /**
   * A query for a name whose parts are legal non-empty labels reads back as
   * the fixed header, the name, the requested type and class IN.
   */
  lemma ParseBuildQuery(name: seq<uint8>, typeField: TypeField)
    requires DomainName.LabelsWellFormed(name)
    ensures ParseQuery(BuildQuery(name, typeField)) == Some(ParsedQuery(QueryHeader, name, typeField, IN))
  {
    var encoded := DomainName.ToBytes(name);
    var question := Question.DnsQuestion(encoded, typeField, IN);
    var b := BuildQuery(name, typeField);
    Header.FromToBytes(QueryHeader, Question.ToBytes(question));
    assert b[12..] == Question.ToBytes(question);
    Question.FromToBytes(question);
    DomainName.DecodeToBytes(name, []);
    assert encoded + [] == encoded;
    DomainName.ToBytesLength(name);
  }

  /**
   * Whatever the name and type, the header of the query reads back as id
   * 0x8298, flags with only the RD bit (the low bit of the first flags byte)
   * set, one question and no records.
   */
  lemma QueryHeaderFields(name: seq<uint8>, typeField: TypeField)
    ensures Header.FromBytes(BuildQuery(name, typeField)) == Some(Header.DnsHeader(0x8298, 0x0100, 1, 0, 0, 0))
  {
  }
}
