/**
 * The question section entry of section 4.1.2 of RFC 1035, as the
 * `DNSQuestion` struct of src/lib.rs. The name field already holds the
 * encoded name bytes; they are copied verbatim, followed by the type and
 * the class in network byte order.
 */
module Question {
  import opened Wrappers
  import opened BigEndian
  import opened Fields

  datatype DnsQuestion = DnsQuestion(name: seq<uint8>, typeField: TypeField, classField: ClassField)

  /** `DNSQuestion::to_bytes`. */
  function ToBytes(q: DnsQuestion): (r: seq<uint8>)
    ensures |r| == |q.name| + 4
    ensures r[..|q.name|] == q.name
    ensures r[|q.name|..|q.name| + 2] == TypeToBeBytes(q.typeField)
    ensures r[|q.name| + 2..] == ClassToBeBytes(q.classField)
  {
    q.name + TypeToBeBytes(q.typeField) + ClassToBeBytes(q.classField)
  }

  /**
   * Reference decoder: the last four bytes are the type and the class,
   * everything before them is the name. Fewer than four bytes, or an
   * unknown type or class code, has no question.
   */
  function FromBytes(b: seq<uint8>): Option<DnsQuestion>
  {
    if |b| < 4 then None
    else
      var n := |b| - 4;
      match (TypeFromCode(FromBe16(b[n], b[n + 1])), ClassFromCode(FromBe16(b[n + 2], b[n + 3])))
      case (Some(t), Some(c)) => Some(DnsQuestion(b[..n], t, c))
      case _ => None
  }

  /** Every question reads back from its bytes. */
  lemma FromToBytes(q: DnsQuestion)
    ensures FromBytes(ToBytes(q)) == Some(q)
  {
  }

  /** Distinct questions have distinct bytes. */
  lemma ToBytesInjective(q: DnsQuestion, p: DnsQuestion)
    ensures ToBytes(q) == ToBytes(p) <==> q == p
  {
  }
}
