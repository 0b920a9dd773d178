/** The image digest that the content of an Authenticode blob claims (extract_spc_pe_hash of
    src/security/authenticode.cpp). */
module SpcContent {
  import opened Common
  import opened Asn1
  import opened DerWriter
  import opened ObjectIdentifiers
  import opened DigestInfo

  const SHA256_LENGTH: nat := 32

  lemma {:induction false} ChildrenInData(data: seq<byte>, pos: nat, end: nat)
    requires end <= |data|
    ensures forall i :: 0 <= i < |Children(data, pos, end)| ==> InData(data, Children(data, pos, end)[i])
    decreases end - pos
  {
    hide Parse;
    if pos < end && Parse(data, end, pos).Some? {
      ChildrenInData(data, pos + Parse(data, end, pos).value.totalLength, end);
    }
  }

  /** The elements inside one that lies within the data do so, too. */
  lemma InsideInData(data: seq<byte>, el: Element)
    requires InData(data, el)
    ensures forall i :: 0 <= i < |Inside(data, el)| ==> InData(data, Inside(data, el)[i])
  {
    hide Children;
    ChildrenInData(data, el.contentOffset, el.contentOffset + el.contentLength);
  }

  /** An algorithm identifier that names SHA-256 first. */
  ghost predicate NamesSha256(data: seq<byte>, alg: Element)
    requires InData(data, alg)
  {
    InsideInData(data, alg);
    var inner := Inside(data, alg);
    |inner| > 0 && inner[0].IsUniversal(TAG_OID) && OidText(data, inner[0]) == SHA256_DIGEST_OID
  }

  /** The digest in a DigestInfo, if it is one of SHA-256. */
  ghost function DigestIn(data: seq<byte>, info: Element): Option<seq<byte>>
    requires InData(data, info)
  {
    InsideInData(data, info);
    var inner := Inside(data, info);
    if |inner| != 2 || !inner[0].IsUniversal(TAG_SEQUENCE) || !inner[1].IsUniversal(TAG_OCTET_STRING) then None
    else if !NamesSha256(data, inner[0]) || inner[1].contentLength != SHA256_LENGTH then None
    else Some(Content(data, inner[1]))
  }

  /** The content holds two elements, and the second is the DigestInfo. */
  ghost function ClaimedPeHash(content: seq<byte>): Option<seq<byte>> {
    ChildrenInData(content, 0, |content|);
    var children := Children(content, 0, |content|);
    if |children| != 2 || !children[1].IsUniversal(TAG_SEQUENCE) then None else DigestIn(content, children[1])
  }

  method ExtractSpcPeHash(content: seq<byte>) returns (r: Option<seq<byte>>)
    ensures r == ClaimedPeHash(content)
  {
    hide Children, OidText;
    ChildrenInData(content, 0, |content|);
    var children := ParseSequenceChildren(content, 0, |content|);
    if |children| != 2 || !children[1].IsUniversal(TAG_SEQUENCE) { return None; }
    ChildrenInData(content, children[1].contentOffset, children[1].contentOffset + children[1].contentLength);
    var info := ParseSequenceChildren(content, children[1].contentOffset, children[1].contentLength);
    if |info| != 2 || !info[0].IsUniversal(TAG_SEQUENCE) || !info[1].IsUniversal(TAG_OCTET_STRING) { return None; }
    ChildrenInData(content, info[0].contentOffset, info[0].contentOffset + info[0].contentLength);
    var alg := ParseSequenceChildren(content, info[0].contentOffset, info[0].contentLength);
    if |alg| == 0 || !alg[0].IsUniversal(TAG_OID) { return None; }
    var name := OidToString(content, alg[0]);
    if name != SHA256_DIGEST_OID { return None; }
    if info[1].contentLength != SHA256_LENGTH { return None; }
    return Some(Content(content, info[1]));
  }

  // ---- What was written is read back ----

  lemma ReadName(data: seq<byte>, alg: Element, oid: seq<byte>)
    requires ReadsAsAlgorithm(data, alg, oid)
    ensures NamesSha256(data, alg) <==> Arcs(oid).Some? && Dotted(Arcs(oid).value) == SHA256_DIGEST_OID
  {
    InsideInData(data, alg);
    var name := Inside(data, alg)[0];
    hide Children, Arcs, Dotted, Inside, OidText;
    TextOfArcs(data, name, oid);
  }

  lemma ReadDigest(data: seq<byte>, el: Element, oid: seq<byte>, digest: seq<byte>)
    requires ReadsAs(data, el, oid, digest)
    ensures DigestIn(data, el) ==
            if Arcs(oid).Some? && Dotted(Arcs(oid).value) == SHA256_DIGEST_OID && |digest| == SHA256_LENGTH
            then Some(digest) else None
  {
    hide Children, Arcs, Dotted, Inside, NamesSha256, OidText;
    InsideInData(data, el);
    ReadName(data, Inside(data, el)[0], oid);
  }

  lemma SecondPart(a: seq<byte>, b: seq<byte>)
    ensures var data := a + b; data[|a|..|a| + |b|] == b && data[0..0 + |data|] == data && |data| == |a| + |b|
  {}

  lemma ClaimedIs(content: seq<byte>, first: Element, second: Element)
    requires Children(content, 0, |content|) == [first, second] && second.IsUniversal(TAG_SEQUENCE)
    ensures InData(content, second) && ClaimedPeHash(content) == DigestIn(content, second)
  {
    ChildrenInData(content, 0, |content|);
    hide Children, DigestIn;
    assert Children(content, 0, |content|)[1] == second;
  }

  /** Whatever the first element is, and whatever algorithm the DigestInfo names: the digest comes back exactly when
      the algorithm is SHA-256 and the digest has 32 octets. */
  lemma SpcReadsBack(attribute: seq<byte>, oid: seq<byte>, digest: seq<byte>)
    requires IsElement(attribute) && |oid| < 0x1_0000 && |digest| < 0x1_0000
    ensures ClaimedPeHash(attribute + Write(oid, digest)) ==
            if Arcs(oid) == Some([2, 16, 840, 1, 101, 3, 4, 2, 1]) && |digest| == 32 then Some(digest) else None
  {
    hide *;
    var info := Write(oid, digest);
    var data := attribute + info;
    SecondPart(attribute, info);
    DigestInfoReads(data, |attribute|, oid, digest);
    ChildrenTwo(data, 0, attribute, info);
    var el := ElementAt(info, |attribute|);
    IsSequence(data, el, oid, digest);
    ClaimedIs(data, ElementAt(attribute, 0), el);
    ReadDigest(data, el, oid, digest);
    NameIsArcs(oid);
    assert SHA256_LENGTH == 32 by { LengthIs(); }
  }

  lemma LengthIs()
    ensures SHA256_LENGTH == 32
  {}

  lemma IsSequence(data: seq<byte>, el: Element, oid: seq<byte>, digest: seq<byte>)
    requires ReadsAs(data, el, oid, digest)
    ensures el.IsUniversal(TAG_SEQUENCE)
  {}

  lemma NameIsArcs(oid: seq<byte>)
    ensures Arcs(oid).Some? && Dotted(Arcs(oid).value) == SHA256_DIGEST_OID
            <==> Arcs(oid) == Some([2, 16, 840, 1, 101, 3, 4, 2, 1])
  {
    NamesAreStandard();
    ArcsAreTwo(oid);
    hide Arcs, Dotted;
    if Arcs(oid).Some? && Dotted(Arcs(oid).value) == SHA256_DIGEST_OID {
      DottedIsInjective(Arcs(oid).value, [2, 16, 840, 1, 101, 3, 4, 2, 1]);
    }
  }
}
