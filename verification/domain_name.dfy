/**
 * Domain-name label encoding (section 3.1 of RFC 1035) as `DomainName::to_bytes`
 * in src/lib.rs performs it: the name's bytes are split on every `.` (0x2E),
 * and each part is written as a one-byte length followed by the part's bytes,
 * then a final zero byte ends the name.
 *
 * The encoder does no validation: the length byte is `part.len() as u8`, the
 * part's length modulo 256, so the 63-octet label limit is not enforced, and
 * empty parts (a leading, trailing or doubled dot, or the empty name) are
 * written as a zero length byte in the middle of the stream.
 */
module DomainName {
  import opened Wrappers
  import opened BigEndian

  /** The separator `.`. */
  const Dot: uint8 := 0x2E

  /** The parts of a name joined back together with a `.` between neighbours. */
  function Join(parts: seq<seq<uint8>>): seq<uint8>
  {
    if |parts| == 0 then []
    else if |parts| == 1 then parts[0]
    else parts[0] + [Dot] + Join(parts[1..])
  }

  /** No part contains the separator. */
  predicate DotFree(parts: seq<seq<uint8>>)
  {
    forall i :: 0 <= i < |parts| ==> Dot !in parts[i]
  }

  /**
   * `str::split(".")`: the maximal dot-free runs of the name, in order,
   * including the empty ones; a name with k dots has k + 1 parts.
   */
  function Split(name: seq<uint8>): (parts: seq<seq<uint8>>)
    ensures |parts| >= 1
    ensures Join(parts) == name
    decreases |name|
  {
    if |name| == 0 then [[]]
    else
      var rest := Split(name[1..]);
      if name[0] == Dot then [[]] + rest
      else [[name[0]] + rest[0]] + rest[1..]
  }

  /** The length-prefixed blocks of the parts, without the terminating zero. */
  function EncodeParts(parts: seq<seq<uint8>>): seq<uint8>
  {
    if |parts| == 0 then []
    else [|parts[0]| % 0x100] + parts[0] + EncodeParts(parts[1..])
  }

  /** `DomainName::to_bytes`. */
  function ToBytes(name: seq<uint8>): (r: seq<uint8>)
    ensures |r| > 0 && r[|r| - 1] == 0
  {
    EncodeParts(Split(name)) + [0]
  }

  /** The parts round-trip when every one of them is a legal, non-empty label. */
  predicate LabelsWellFormed(name: seq<uint8>)
  {
    var parts := Split(name);
    forall i :: 0 <= i < |parts| ==> 0 < |parts[i]| < 64
  }

  /**
   * Reference decoder: read length-prefixed labels until a zero length byte,
   * returning the labels and the number of bytes consumed. A length byte of
   * 64 or more (a compression pointer or a reserved pattern) or a label that
   * runs past the end of the input has no decoding.
   */
  function DecodeLabels(b: seq<uint8>): Option<(seq<seq<uint8>>, nat)>
    decreases |b|
  {
    if |b| == 0 then None
    else if b[0] == 0 then Some(([], 1))
    else if b[0] >= 64 || |b| < 1 + b[0] then None
    else
      match DecodeLabels(b[1 + b[0]..])
      case None => None
      case Some((labels, n)) => Some(([b[1..1 + b[0]]] + labels, 1 + b[0] + n))
  }

  /** Reference decoder: the labels read from `b`, joined with `.`, and the bytes consumed. */
  function DecodeName(b: seq<uint8>): Option<(seq<uint8>, nat)>
  {
    match DecodeLabels(b)
    case None => None
    case Some((labels, n)) => Some((Join(labels), n))
  }

  // ---- Split and Join are inverse on dot-free part lists ----

  /** No part of a split contains the separator. */
  lemma {:induction false} SplitDotFree(name: seq<uint8>)
    ensures DotFree(Split(name))
    decreases |name|
  {
    if |name| > 0 {
      SplitDotFree(name[1..]);
      var rest := Split(name[1..]);
      if name[0] != Dot {
        assert Dot !in [name[0]] + rest[0];
      }
    }
  }

  lemma {:induction false} JoinCons(p: seq<uint8>, parts: seq<seq<uint8>>)
    requires |parts| >= 1
    ensures Join([p] + parts) == p + [Dot] + Join(parts)
  {
  }

  /** Splitting the join of dot-free parts gives the parts back. */
  lemma {:induction false} SplitJoin(parts: seq<seq<uint8>>)
    requires |parts| >= 1 && DotFree(parts)
    ensures Split(Join(parts)) == parts
    decreases |Join(parts)|, |parts|
  {
    var p := parts[0];
    if |parts| == 1 {
      SplitSingle(p);
    } else {
      var tail := parts[1..];
      assert DotFree(tail) by {
        forall i | 0 <= i < |tail| ensures Dot !in tail[i] {
          assert tail[i] == parts[i + 1];
        }
      }
      SplitJoin(tail);
      SplitPrefix(p, Join(tail));
      assert Join(parts) == p + [Dot] + Join(tail);
      assert [p] + tail == parts;
    }
  }

  /** A dot-free name is its own single part. */
  lemma {:induction false} SplitSingle(s: seq<uint8>)
    requires Dot !in s
    ensures Split(s) == [s]
    decreases |s|
  {
    if |s| > 0 {
      SplitSingle(s[1..]);
      assert [s[0]] + s[1..] == s;
    }
  }

  /** A dot-free prefix followed by a dot becomes the first part of the split. */
  lemma {:induction false} SplitPrefix(p: seq<uint8>, rest: seq<uint8>)
    requires Dot !in p
    ensures Split(p + [Dot] + rest) == [p] + Split(rest)
    decreases |p|
  {
    if |p| == 0 {
      assert p + [Dot] + rest == [Dot] + rest;
      assert ([Dot] + rest)[1..] == rest;
    } else {
      SplitPrefix(p[1..], rest);
      assert (p + [Dot] + rest)[1..] == p[1..] + [Dot] + rest;
      assert [p[0]] + p[1..] == p;
    }
  }

  // ---- lengths ----

  /** The sum of the part lengths. */
  function TotalLength(parts: seq<seq<uint8>>): nat
  {
    if |parts| == 0 then 0 else |parts[0]| + TotalLength(parts[1..])
  }

  lemma {:induction false} JoinLength(parts: seq<seq<uint8>>)
    requires |parts| >= 1
    ensures |Join(parts)| == TotalLength(parts) + |parts| - 1
  {
    if |parts| > 1 {
      JoinLength(parts[1..]);
    }
  }

  lemma {:induction false} EncodePartsLength(parts: seq<seq<uint8>>)
    ensures |EncodeParts(parts)| == TotalLength(parts) + |parts|
  {
    if |parts| > 0 {
      EncodePartsLength(parts[1..]);
    }
  }

  /** Every dot becomes a length byte and one more length byte plus the terminator are added. */
  lemma ToBytesLength(name: seq<uint8>)
    ensures |ToBytes(name)| == |name| + 2
  {
    var parts := Split(name);
    JoinLength(parts);
    EncodePartsLength(parts);
  }

  // ---- decoding the encoder's output ----

  /** Decoding the blocks of legal non-empty labels and a zero byte recovers the labels. */
  lemma {:induction false} DecodeEncodeParts(parts: seq<seq<uint8>>, tail: seq<uint8>)
    requires forall i :: 0 <= i < |parts| ==> 0 < |parts[i]| < 64
    ensures DecodeLabels(EncodeParts(parts) + [0] + tail) == Some((parts, |EncodeParts(parts)| + 1))
  {
    var b := EncodeParts(parts) + [0] + tail;
    if |parts| == 0 {
      assert b[0] == 0;
    } else {
      var p := parts[0];
      var rest := parts[1..];
      assert |p| % 0x100 == |p|;
      assert b == [|p|] + p + (EncodeParts(rest) + [0] + tail);
      assert b[0] == |p|;
      assert b[1..1 + |p|] == p;
      assert b[1 + |p|..] == EncodeParts(rest) + [0] + tail;
      DecodeEncodeParts(rest, tail);
      assert [p] + rest == parts;
    }
  }

  /**
   * When every part is a non-empty label shorter than 64 bytes, decoding the
   * encoded name recovers the name and consumes exactly the encoded bytes,
   * whatever follows them.
   */
  lemma DecodeToBytes(name: seq<uint8>, tail: seq<uint8>)
    requires LabelsWellFormed(name)
    ensures DecodeName(ToBytes(name) + tail) == Some((name, |name| + 2))
  {
    var parts := Split(name);
    DecodeEncodeParts(parts, tail);
    assert ToBytes(name) + tail == EncodeParts(parts) + [0] + tail;
    ToBytesLength(name);
  }

  lemma {:induction false} EncodePartsAppend(pre: seq<seq<uint8>>, post: seq<seq<uint8>>)
    ensures EncodeParts(pre + post) == EncodeParts(pre) + EncodeParts(post)
  {
    if |pre| > 0 {
      EncodePartsAppend(pre[1..], post);
      assert (pre + post)[1..] == pre[1..] + post;
    } else {
      assert pre + post == post;
    }
  }

  /** Decoding the blocks of legal labels, an empty part and anything after stops at the empty part. */
  lemma {:induction false} DecodeStopsAtEmptyPart(pre: seq<seq<uint8>>, post: seq<seq<uint8>>)
    requires forall i :: 0 <= i < |pre| ==> 0 < |pre[i]| < 64
    ensures DecodeLabels(EncodeParts(pre + [[]] + post) + [0]) == Some((pre, |EncodeParts(pre)| + 1))
    ensures |EncodeParts(pre)| + 1 < |EncodeParts(pre + [[]] + post) + [0]|
  {
    EncodePartsAppend(pre, [[]] + post);
    assert pre + [[]] + post == pre + ([[]] + post);
    assert ([[]] + post)[1..] == post;
    var tail := EncodeParts(post) + [0];
    assert EncodeParts(pre + [[]] + post) + [0] == EncodeParts(pre) + [0] + tail;
    DecodeEncodeParts(pre, tail);
  }

  /**
   * An empty part after legal labels writes a zero byte in the middle of
   * the stream: decoding stops there, returns only the labels before it and
   * consumes fewer bytes than were written, so the name does not round-trip.
   */
  lemma {:induction false} EmptyPartStopsDecoding(name: seq<uint8>, k: nat)
    requires k < |Split(name)| && Split(name)[k] == []
    requires forall i :: 0 <= i < k ==> 0 < |Split(name)[i]| < 64
    ensures DecodeLabels(ToBytes(name)) == Some((Split(name)[..k], |EncodeParts(Split(name)[..k])| + 1))
    ensures |EncodeParts(Split(name)[..k])| + 1 < |ToBytes(name)|
  {
    var parts := Split(name);
    var pre := parts[..k];
    assert parts == pre + [[]] + parts[k + 1..];
    DecodeStopsAtEmptyPart(pre, parts[k + 1..]);
  }

  // ---- examples ----

  /** A name of three dot-free parts splits into those parts. */
  lemma SplitThree(x: seq<uint8>, y: seq<uint8>, z: seq<uint8>)
    requires Dot !in x && Dot !in y && Dot !in z
    ensures Split(x + [Dot] + (y + [Dot] + z)) == [x, y, z]
  {
    SplitSingle(z);
    SplitPrefix(y, z);
    SplitPrefix(x, y + [Dot] + z);
    assert [x] + ([y] + [z]) == [x, y, z];
  }

  /** Three parts encode as three length-prefixed blocks. */
  lemma EncodeThree(x: seq<uint8>, y: seq<uint8>, z: seq<uint8>)
    ensures EncodeParts([x, y, z]) == [|x| % 0x100] + x + [|y| % 0x100] + y + [|z| % 0x100] + z
  {
    EncodePartsAppend([x], [y, z]);
    EncodePartsAppend([y], [z]);
    assert [x] + [y, z] == [x, y, z];
    assert [y] + [z] == [y, z];
  }

  /**
   * `www.example.com` encodes as `03 www 07 example 03 com 00`, and those
   * bytes decode back to `www.example.com`.
   *
   * The three labels are parameters pinned by `requires` rather than one
   * literal name: the verifier unfolds `Split` and `Join` without bound on
   * literal arguments, which makes the literal form too costly to prove.
   * The name is grouped as `www . (example . com)` so that `SplitPrefix`
   * applies to it directly, without re-associating the concatenation.
   */
  lemma WwwExampleComBytes(www: seq<uint8>, example: seq<uint8>, com: seq<uint8>)
    requires www == [0x77, 0x77, 0x77]
    requires example == [0x65, 0x78, 0x61, 0x6d, 0x70, 0x6c, 0x65]
    requires com == [0x63, 0x6f, 0x6d]
    ensures ToBytes(www + [Dot] + (example + [Dot] + com))
         == [0x03, 0x77, 0x77, 0x77, 0x07, 0x65, 0x78, 0x61, 0x6d, 0x70, 0x6c, 0x65,
             0x03, 0x63, 0x6f, 0x6d, 0x00]
    ensures DecodeName(ToBytes(www + [Dot] + (example + [Dot] + com)))
         == Some((www + [Dot] + (example + [Dot] + com), 17))
  {
    var name := www + [Dot] + (example + [Dot] + com);
    SplitThree(www, example, com);
    EncodeThree(www, example, com);
    DecodeToBytes(name, []);
    assert ToBytes(name) + [] == ToBytes(name);
  }

  /** `a..b` has an empty middle part, so decoding its encoding yields only `a`. */
  lemma DoubledDotExample()
    ensures ToBytes([0x61, Dot, Dot, 0x62]) == [1, 0x61, 0, 1, 0x62, 0]
    ensures DecodeName(ToBytes([0x61, Dot, Dot, 0x62])) == Some(([0x61], 3))
  {
    var parts: seq<seq<uint8>> := [[0x61], [], [0x62]];
    JoinCons([], [[0x62]]);
    JoinCons([0x61], [[], [0x62]]);
    assert [[0x61]] + [[], [0x62]] == parts;
    assert [0x61, Dot, Dot, 0x62] == Join(parts);
    assert parts[1..] == [[], [0x62]];
    assert parts[1..][1..] == [[0x62]];
    SplitJoin(parts);
    EmptyPartStopsDecoding([0x61, Dot, Dot, 0x62], 1);
    assert parts[..1] == [[0x61]];
  }
}
