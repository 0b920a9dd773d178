/** DigestInfo, the DER text that a signature or an Authenticode blob wraps a digest in: the fixed prefixes of
    src/security/rsa_pkcs1.cpp, and the reading in src/security/authenticode.cpp. */
module DigestInfo {
  import opened Common
  import opened Decimal
  import opened Asn1
  import opened DerWriter
  import opened ObjectIdentifiers
  import RsaPkcs1

  const TAG_OCTET_STRING: u32 := 4
  const TAG_NULL: u32 := 5
  const TAG_SEQUENCE: u32 := 16

  // ---- The writer ----

  /** AlgorithmIdentifier with NULL parameters. */
  function Algorithm(oid: seq<byte>): seq<byte>
    requires |oid| < 0x1_0000
  {
    Der(Universal, true, TAG_SEQUENCE, Der(Universal, false, TAG_OID, oid) + Der(Universal, false, TAG_NULL, []))
  }

  function Write(oid: seq<byte>, digest: seq<byte>): seq<byte>
    requires |oid| < 0x1_0000 && |digest| < 0x1_0000
  {
    Der(Universal, true, TAG_SEQUENCE, Algorithm(oid) + Der(Universal, false, TAG_OCTET_STRING, digest))
  }

  /** The object identifiers of section 2 of RFC 5754. */
  function Sha256Oid(): seq<byte> {
    OidContent(2, 16, [840, 1, 101, 3, 4, 2, 1])
  }

  function Sha384Oid(): seq<byte> {
    OidContent(2, 16, [840, 1, 101, 3, 4, 2, 2])
  }

  lemma ShortDer(c: TagClass, constructed: bool, tag: u32, content: seq<byte>)
    requires tag < 0x1F && |content| < 0x80
    ensures Der(c, constructed, tag, content)
            == [(ClassBits(c) + (if constructed then 0x20 else 0) + tag) as byte, |content| as byte] + content
  {}

  lemma Septets()
    ensures Base128(1) == [1] && Base128(2) == [2] && Base128(3) == [3] && Base128(4) == [4] && Base128(101) == [101]
    ensures Base128(96) == [0x60] && Base128(840) == [0x86, 0x48]
  {
    assert Leading(0) == [] && Leading(6) == [0x86];
  }

  lemma OneMoreArc(arc: nat, arcs: seq<nat>)
    ensures SubIds([arc] + arcs) == Base128(arc) + SubIds(arcs)
  {
    assert ([arc] + arcs)[1..] == arcs;
    hide Base128;
  }

  lemma FourInTurn<T>(a: T, b: T, c: T, d: T)
    ensures [a] + ([b] + ([c] + ([d] + []))) == [a, b, c, d]
  {}

  lemma ThreeBefore<T>(a: seq<T>, b: T, c: T, rest: seq<T>)
    ensures a + ([b] + ([c] + rest)) == a + [b, c] + rest
  {}

  lemma LastOctet(last: nat)
    requires last < 0x80
    ensures Base128(last) == [last] && SubIds([]) == []
  {
    assert Leading(0) == [];
  }

  lemma HashTail(last: nat)
    requires last < 0x80
    ensures SubIds([3, 4, 2, last]) == [0x03, 0x04, 0x02, last]
  {
    Septets();
    LastOctet(last);
    hide Base128, SubIds;
    OneMoreArc(last, []);
    OneMoreArc(2, [last] + []);
    OneMoreArc(4, [2] + ([last] + []));
    OneMoreArc(3, [4] + ([2] + ([last] + [])));
    FourInTurn(3 as nat, 4, 2, last);
    FourInTurn(3 as byte, 4, 2, last);
  }

  /** The octets of 2.16.840.1.101.3.4.2.last behind the first one. */
  lemma HashOctets(last: nat)
    requires last < 0x80
    ensures SubIds([840, 1, 101] + [3, 4, 2, last]) == [0x86, 0x48, 0x01, 0x65] + [0x03, 0x04, 0x02, last]
  {
    Septets();
    HashTail(last);
    hide Base128, SubIds;
    var arcs: seq<nat> := [3, 4, 2, last];
    OneMoreArc(101, arcs);
    OneMoreArc(1, [101] + arcs);
    OneMoreArc(840, [1] + ([101] + arcs));
    ThreeBefore([840 as nat], 1, 101, arcs);
    ThreeBefore([0x86 as byte, 0x48], 0x01, 0x65, SubIds(arcs));
    assert [840 as nat] + [1, 101] == [840, 1, 101] && [0x86 as byte, 0x48] + [0x01, 0x65] == [0x86, 0x48, 0x01, 0x65];
  }

  lemma HashOids()
    ensures Sha256Oid() == [0x60, 0x86, 0x48, 0x01, 0x65, 0x03, 0x04, 0x02, 0x01]
    ensures Sha384Oid() == [0x60, 0x86, 0x48, 0x01, 0x65, 0x03, 0x04, 0x02, 0x02]
  {
    Septets();
    HashOctets(1);
    HashOctets(2);
    hide Base128, SubIds;
    assert [840 as nat, 1, 101] + [3, 4, 2, 1] == [840, 1, 101, 3, 4, 2, 1];
    assert [840 as nat, 1, 101] + [3, 4, 2, 2] == [840, 1, 101, 3, 4, 2, 2];
  }

  lemma WriteIs(oid: seq<byte>, digest: seq<byte>)
    requires |oid| == 9 && |digest| < 0x40
    ensures Write(oid, digest) ==
            [0x30, 17 + |digest|, 0x30, 0x0D, 0x06, 0x09] + oid + [0x05, 0x00, 0x04, |digest|] + digest
  {
    hide Der;
    ShortDer(Universal, false, TAG_OID, oid);
    ShortDer(Universal, false, TAG_NULL, []);
    ShortDer(Universal, false, TAG_OCTET_STRING, digest);
    var algorithm := Der(Universal, false, TAG_OID, oid) + Der(Universal, false, TAG_NULL, []);
    assert algorithm == [0x06, 0x09] + oid + [0x05, 0x00];
    ShortDer(Universal, true, TAG_SEQUENCE, algorithm);
    ShortDer(Universal, true, TAG_SEQUENCE, Algorithm(oid) + Der(Universal, false, TAG_OCTET_STRING, digest));
  }

  /** The fixed prefixes and a digest of the right length are exactly the DigestInfo of that digest. */
  lemma PrefixesAreDigestInfo(digest: seq<byte>)
    ensures |digest| == 32 ==> RsaPkcs1.SHA256_DIGEST_INFO_PREFIX + digest == Write(Sha256Oid(), digest)
    ensures |digest| == 48 ==> RsaPkcs1.SHA384_DIGEST_INFO_PREFIX + digest == Write(Sha384Oid(), digest)
  {
    HashOids();
    hide Write, Sha256Oid, Sha384Oid;
    if |digest| == 32 { WriteIs(Sha256Oid(), digest); }
    if |digest| == 48 { WriteIs(Sha384Oid(), digest); }
  }

  // ---- The reader on it ----

  lemma AroundSlice(data: seq<byte>, start: nat, content: seq<byte>)
    requires start + |content| <= |data| && data[start..start + |content|] == content
    ensures data == data[..start] + content + data[start + |content|..]
  {}

  /** Concatenated elements, wherever they lie, are the children of that range. */
  lemma ChildrenAt(data: seq<byte>, start: nat, es: seq<seq<byte>>)
    requires start + |Concat(es)| <= |data| && data[start..start + |Concat(es)|] == Concat(es)
    requires forall i :: 0 <= i < |es| ==> IsElement(es[i])
    ensures RawChildren(data, Children(data, start, start + |Concat(es)|)) == es
    ensures Children(data, start, start + |Concat(es)|) == Layout(es, start)
  {
    hide *;
    AroundSlice(data, start, Concat(es));
    ChildrenOfConcat(data[..start], es, data[start + |Concat(es)|..]);
  }

  /** A primitive or constructed element, when it is written from `at` on. */
  function Placed(c: TagClass, constructed: bool, tag: u32, content: seq<byte>, at: nat): Element
    requires |content| < TWO_64
  {
    var size := |Der(c, constructed, tag, content)|;
    DerEnds(c, constructed, tag, content);
    Element(c, constructed, tag, at + size - |content|, |content|, size)
  }

  lemma DerEnds(c: TagClass, constructed: bool, tag: u32, content: seq<byte>)
    requires |content| < TWO_64
    ensures var el := Der(c, constructed, tag, content);
            |el| >= |content| && el[|el| - |content|..] == content
  {}

  lemma PlacedIs(c: TagClass, constructed: bool, tag: u32, content: seq<byte>, at: nat)
    requires |content| < TWO_64
    ensures var el := Der(c, constructed, tag, content);
            && |el| >= |content| && el[|el| - |content|..] == content
            && Placed(c, constructed, tag, content, at)
               == Element(c, constructed, tag, at + |el| - |content|, |content|, |el|)
  {
    DerEnds(c, constructed, tag, content);
    hide Der;
  }

  lemma NothingAround(el: seq<byte>)
    ensures [] + el + [] == el
  {}

  lemma WholeIsElement(el: seq<byte>, r: Element)
    requires Parse(el, |el|, 0) == Some(r) && r.totalLength == |el|
    ensures IsElement(el)
  {
    hide Parse;
  }

  lemma DerParses(c: TagClass, constructed: bool, tag: u32, content: seq<byte>)
    requires |content| < TWO_64
    ensures var el := Der(c, constructed, tag, content);
            IsElement(el) && Parse(el, |el|, 0) == Some(Placed(c, constructed, tag, content, 0))
  {
    hide Der, Parse, IsElement, Placed;
    var el := Der(c, constructed, tag, content);
    ElementReads([], c, constructed, tag, content, []);
    NothingAround(el);
    PlacedIs(c, constructed, tag, content, 0);
    WholeIsElement(el, Placed(c, constructed, tag, content, 0));
  }

  lemma LayoutCons(e: seq<byte>, rest: seq<seq<byte>>, at: nat)
    requires IsElement(e) && forall i :: 0 <= i < |rest| ==> IsElement(rest[i])
    ensures Concat([e] + rest) == e + Concat(rest)
    ensures Layout([e] + rest, at) == [Moved(Parse(e, |e|, 0).value, 0, at)] + Layout(rest, at + |e|)
  {
    hide IsElement, Parse;
    var es := [e] + rest;
    assert es[0] == e && es[1..] == rest;
  }

  /** An element that is written from `at` on. */
  ghost function ElementAt(e: seq<byte>, at: nat): Element
    requires IsElement(e)
  {
    Moved(Parse(e, |e|, 0).value, 0, at)
  }

  lemma LayoutTwo(a: seq<byte>, b: seq<byte>, at: nat)
    requires IsElement(a) && IsElement(b)
    ensures Concat([a, b]) == a + b
    ensures Layout([a, b], at) == [ElementAt(a, at), ElementAt(b, at + |a|)]
  {
    var none: seq<seq<byte>> := [];
    assert Concat(none) == [] && Layout(none, at + |a| + |b|) == [];
    hide IsElement, Parse, Concat, Layout, Moved;
    LayoutCons(b, none, at + |a|);
    LayoutCons(a, [b], at);
    assert [b] + none == [b] && [a] + [b] == [a, b];
    assert b + [] == b;
  }

  lemma ChildrenTwo(data: seq<byte>, start: nat, a: seq<byte>, b: seq<byte>)
    requires IsElement(a) && IsElement(b) && start + |a + b| <= |data| && data[start..start + |a + b|] == a + b
    ensures Children(data, start, start + |a + b|) == [ElementAt(a, start), ElementAt(b, start + |a|)]
  {
    hide *;
    LayoutTwo(a, b, start);
    ChildrenAt(data, start, [a, b]);
  }

  /** Two elements inside a third, which lies at `at`. */
  lemma TwoInside(data: seq<byte>, at: nat, c: TagClass, constructed: bool, tag: u32, a: seq<byte>, b: seq<byte>)
    returns (start: nat)
    requires IsElement(a) && IsElement(b) && |a + b| < TWO_64
    requires var el := Der(c, constructed, tag, a + b); at + |el| <= |data| && data[at..at + |el|] == el
    ensures start == Placed(c, constructed, tag, a + b, at).contentOffset
    ensures start + |a + b| <= |data| && data[start..start + |a + b|] == a + b
    ensures Children(data, start, start + |a + b|) == [ElementAt(a, start), ElementAt(b, start + |a|)]
  {
    hide *;
    var el, r := Der(c, constructed, tag, a + b), Placed(c, constructed, tag, a + b, at);
    PlacedIs(c, constructed, tag, a + b, at);
    SliceEnd(data, at, el, a + b);
    start := r.contentOffset;
    ChildrenTwo(data, start, a, b);
  }

  lemma SliceEnd(data: seq<byte>, at: nat, el: seq<byte>, content: seq<byte>)
    requires at + |el| <= |data| && data[at..at + |el|] == el && |el| >= |content| && el[|el| - |content|..] == content
    ensures var start := at + |el| - |content|; data[start..start + |content|] == content
  {
    var skip, n := |el| - |content|, |content|;
    SubSlice(data, at, |el|, skip, n);
    assert el[skip..skip + n] == el[skip..];
  }

  lemma TwoSlices(data: seq<byte>, start: nat, a: seq<byte>, b: seq<byte>)
    requires start + |a + b| <= |data| && data[start..start + |a + b|] == a + b
    ensures data[start..start + |a|] == a && data[start + |a|..start + |a| + |b|] == b
  {
    SubSlice(data, start, |a + b|, 0, |a|);
    SubSlice(data, start, |a + b|, |a|, |b|);
    assert (a + b)[0..|a|] == a && (a + b)[|a|..|a| + |b|] == b;
  }

  lemma PlacedAt(c: TagClass, constructed: bool, tag: u32, content: seq<byte>, at: nat)
    requires |content| < TWO_64
    ensures var el := Der(c, constructed, tag, content);
            IsElement(el) && ElementAt(el, at) == Placed(c, constructed, tag, content, at)
  {
    DerParses(c, constructed, tag, content);
    PlacedIs(c, constructed, tag, content, 0);
    PlacedIs(c, constructed, tag, content, at);
    hide Der, Parse;
  }

  ghost predicate InData(data: seq<byte>, el: Element) {
    el.contentOffset + el.contentLength <= |data|
  }

  ghost function Inside(data: seq<byte>, el: Element): seq<Element>
    requires InData(data, el)
  {
    Children(data, el.contentOffset, el.contentOffset + el.contentLength)
  }

  function Content(data: seq<byte>, el: Element): seq<byte>
    requires el.contentOffset + el.contentLength <= |data|
  {
    data[el.contentOffset..el.contentOffset + el.contentLength]
  }

  /** A SEQUENCE of an OBJECT IDENTIFIER with this content and NULL. */
  ghost predicate ReadsAsAlgorithm(data: seq<byte>, el: Element, oid: seq<byte>) {
    && InData(data, el) && el.IsUniversal(TAG_SEQUENCE) && el.constructed
    && var inner := Inside(data, el);
    && |inner| == 2 && inner[0].IsUniversal(TAG_OID) && InData(data, inner[0]) && Content(data, inner[0]) == oid
    && inner[1].IsUniversal(TAG_NULL) && inner[1].contentLength == 0
  }

  /** A SEQUENCE of such an algorithm identifier and an OCTET STRING with the digest. */
  ghost predicate ReadsAs(data: seq<byte>, el: Element, oid: seq<byte>, digest: seq<byte>) {
    && InData(data, el) && el.IsUniversal(TAG_SEQUENCE) && el.constructed
    && var inner := Inside(data, el);
    && |inner| == 2 && ReadsAsAlgorithm(data, inner[0], oid)
    && inner[1].IsUniversal(TAG_OCTET_STRING) && InData(data, inner[1]) && Content(data, inner[1]) == digest
  }

  lemma ContentAt(data: seq<byte>, at: nat, c: TagClass, constructed: bool, tag: u32, content: seq<byte>)
    requires |content| < TWO_64
    requires var el := Der(c, constructed, tag, content); at + |el| <= |data| && data[at..at + |el|] == el
    ensures var r := Placed(c, constructed, tag, content, at);
            && InData(data, r) && Content(data, r) == content && r.contentLength == |content|
            && r.tagClass == c && r.constructed == constructed && r.tagNumber == tag
  {
    hide Der, Placed;
    PlacedIs(c, constructed, tag, content, at);
    SliceEnd(data, at, Der(c, constructed, tag, content), content);
  }

  lemma AlgorithmParts(oid: seq<byte>)
    requires |oid| < 0x1_0000
    ensures var a, b := Der(Universal, false, TAG_OID, oid), Der(Universal, false, TAG_NULL, []);
            && |a + b| < TWO_64 && IsElement(a) && IsElement(b)
            && Algorithm(oid) == Der(Universal, true, TAG_SEQUENCE, a + b)
  {
    hide Der, IsElement, Parse;
    DerParses(Universal, false, TAG_OID, oid);
    DerParses(Universal, false, TAG_NULL, []);
  }

  lemma ReadsAsAlgorithmOf(data: seq<byte>, el: Element, x: Element, y: Element, oid: seq<byte>)
    requires InData(data, el) && el.IsUniversal(TAG_SEQUENCE) && el.constructed && Inside(data, el) == [x, y]
    requires x.IsUniversal(TAG_OID) && InData(data, x) && Content(data, x) == oid
    requires y.IsUniversal(TAG_NULL) && y.contentLength == 0
    ensures ReadsAsAlgorithm(data, el, oid)
  {
    hide Inside, Content;
  }

  lemma AlgorithmReads(data: seq<byte>, at: nat, oid: seq<byte>)
    requires |oid| < 0x1_0000
    requires at + |Algorithm(oid)| <= |data| && data[at..at + |Algorithm(oid)|] == Algorithm(oid)
    ensures IsElement(Algorithm(oid)) && ReadsAsAlgorithm(data, ElementAt(Algorithm(oid), at), oid)
  {
    hide Der, Children, Placed, ElementAt, IsElement, Content, Algorithm, ReadsAsAlgorithm, InData, Inside;
    var a, b := Der(Universal, false, TAG_OID, oid), Der(Universal, false, TAG_NULL, []);
    AlgorithmParts(oid);
    PlacedAt(Universal, true, TAG_SEQUENCE, a + b, at);
    ContentAt(data, at, Universal, true, TAG_SEQUENCE, a + b);
    var el := Placed(Universal, true, TAG_SEQUENCE, a + b, at);
    var start := TwoInside(data, at, Universal, true, TAG_SEQUENCE, a, b);
    TwoSlices(data, start, a, b);
    PlacedAt(Universal, false, TAG_OID, oid, start);
    PlacedAt(Universal, false, TAG_NULL, [], start + |a|);
    ContentAt(data, start, Universal, false, TAG_OID, oid);
    ContentAt(data, start + |a|, Universal, false, TAG_NULL, []);
    InsideIs(data, el, start, |a + b|);
    ReadsAsAlgorithmOf(data, el, ElementAt(a, start), ElementAt(b, start + |a|), oid);
  }

  lemma ReadsAsOf(data: seq<byte>, el: Element, x: Element, y: Element, oid: seq<byte>, digest: seq<byte>)
    requires InData(data, el) && el.IsUniversal(TAG_SEQUENCE) && el.constructed && Inside(data, el) == [x, y]
    requires ReadsAsAlgorithm(data, x, oid)
    requires y.IsUniversal(TAG_OCTET_STRING) && InData(data, y) && Content(data, y) == digest
    ensures ReadsAs(data, el, oid, digest)
  {
    hide ReadsAsAlgorithm, Inside;
  }

  lemma HalvesAreElements(oid: seq<byte>, digest: seq<byte>)
    requires |oid| < 0x1_0000 && |digest| < 0x1_0000
    ensures var a, b := Algorithm(oid), Der(Universal, false, TAG_OCTET_STRING, digest);
            && |a + b| < TWO_64 && IsElement(a) && IsElement(b)
            && Write(oid, digest) == Der(Universal, true, TAG_SEQUENCE, a + b)
  {
    var a := Algorithm(oid);
    PlacedAt(Universal, false, TAG_OCTET_STRING, digest, 0);
    assert a[0..|a|] == a;
    hide Der, IsElement, ElementAt, Placed;
    AlgorithmReads(a, 0, oid);
  }

  /** A DigestInfo that lies anywhere is read back, field by field. */
  lemma DigestInfoReads(data: seq<byte>, at: nat, oid: seq<byte>, digest: seq<byte>)
    requires |oid| < 0x1_0000 && |digest| < 0x1_0000
    requires at + |Write(oid, digest)| <= |data| && data[at..at + |Write(oid, digest)|] == Write(oid, digest)
    ensures IsElement(Write(oid, digest)) && ReadsAs(data, ElementAt(Write(oid, digest), at), oid, digest)
  {
    hide Der, Children, Placed, ElementAt, IsElement, Content, Algorithm, Write, ReadsAsAlgorithm, ReadsAs, InData,
         Inside;
    var a, b := Algorithm(oid), Der(Universal, false, TAG_OCTET_STRING, digest);
    HalvesAreElements(oid, digest);
    PlacedAt(Universal, true, TAG_SEQUENCE, a + b, at);
    ContentAt(data, at, Universal, true, TAG_SEQUENCE, a + b);
    var el := Placed(Universal, true, TAG_SEQUENCE, a + b, at);
    var start := TwoInside(data, at, Universal, true, TAG_SEQUENCE, a, b);
    TwoSlices(data, start, a, b);
    AlgorithmReads(data, start, oid);
    PlacedAt(Universal, false, TAG_OCTET_STRING, digest, start + |a|);
    ContentAt(data, start + |a|, Universal, false, TAG_OCTET_STRING, digest);
    InsideIs(data, el, start, |a + b|);
    ReadsAsOf(data, el, ElementAt(a, start), ElementAt(b, start + |a|), oid, digest);
  }

  lemma InsideIs(data: seq<byte>, el: Element, start: nat, n: nat)
    requires InData(data, el) && el.contentOffset == start && el.contentLength == n
    ensures start + n <= |data| && Inside(data, el) == Children(data, start, start + n)
  {}

  lemma WholeReads(oid: seq<byte>, digest: seq<byte>)
    requires |oid| < 0x1_0000 && |digest| < 0x1_0000
    ensures var data := Write(oid, digest); var r := Parse(data, |data|, 0);
            r.Some? && r.value.totalLength == |data| && ReadsAs(data, r.value, oid, digest)
  {
    var data := Write(oid, digest);
    assert data[0..|data|] == data;
    hide Write, Parse, ReadsAs;
    DigestInfoReads(data, 0, oid, digest);
    assert ElementAt(data, 0) == Parse(data, |data|, 0).value;
  }

  /** So the reader takes each fixed prefix, with a digest of the right length behind it, for a DigestInfo of that
      digest under the right algorithm, and for nothing more. */
  lemma PrefixesRead(digest: seq<byte>)
    requires |digest| == 32 || |digest| == 48
    ensures var sha256 := |digest| == 32;
            var prefix := if sha256 then RsaPkcs1.SHA256_DIGEST_INFO_PREFIX else RsaPkcs1.SHA384_DIGEST_INFO_PREFIX;
            var oid := if sha256 then Sha256Oid() else Sha384Oid();
            var data := prefix + digest; var r := Parse(data, |data|, 0);
            r.Some? && r.value.totalLength == |data| && ReadsAs(data, r.value, oid, digest)
  {
    PrefixesAreDigestInfo(digest);
    HashOids();
    hide Write, Parse, ReadsAs, Sha256Oid, Sha384Oid;
    WholeReads(if |digest| == 32 then Sha256Oid() else Sha384Oid(), digest);
  }

  // ---- Names of algorithms ----

  const SHA256_DIGEST_OID := "2.16.840.1.101.3.4.2.1"
  const SHA256_WITH_RSA_OID := "1.2.840.113549.1.1.11"
  const SHA384_WITH_RSA_OID := "1.2.840.113549.1.1.12"

  lemma SmallNumbers()
    ensures ToString(1) == "1" && ToString(2) == "2" && ToString(3) == "3" && ToString(4) == "4"
    ensures ToString(11) == "11" && ToString(12) == "12" && ToString(16) == "16" && ToString(101) == "101"
    ensures ToString(840) == "840" && ToString(113549) == "113549"
  {
    assert ToString(10) == "10" && ToString(84) == "84";
    assert ToString(113) == "113" && ToString(1135) == "1135" && ToString(11354) == "11354";
  }

  lemma DottedMore(arcs: seq<nat>, text: string, arc: nat, last: string, more: seq<nat>, longer: string)
    requires |arcs| >= 1 && Dotted(arcs) == text && ToString(arc) == last
    requires more == arcs + [arc] && longer == text + "." + last
    ensures Dotted(more) == longer
  {
    DottedSnoc(arcs, arc);
  }

  lemma NistAlgorithms()
    ensures Dotted([2, 16, 840, 1, 101, 3, 4, 2]) == "2.16.840.1.101.3.4.2"
  {
    SmallNumbers();
    TwoDotted(2, 16);
    hide ToString, Dotted;
    DottedMore([2, 16], "2.16", 840, "840", [2, 16, 840], "2.16.840");
    DottedMore([2, 16, 840], "2.16.840", 1, "1", [2, 16, 840, 1], "2.16.840.1");
    DottedMore([2, 16, 840, 1], "2.16.840.1", 101, "101", [2, 16, 840, 1, 101], "2.16.840.1.101");
    DottedMore([2, 16, 840, 1, 101], "2.16.840.1.101", 3, "3", [2, 16, 840, 1, 101, 3], "2.16.840.1.101.3");
    DottedMore([2, 16, 840, 1, 101, 3], "2.16.840.1.101.3", 4, "4",
               [2, 16, 840, 1, 101, 3, 4], "2.16.840.1.101.3.4");
    DottedMore([2, 16, 840, 1, 101, 3, 4], "2.16.840.1.101.3.4", 2, "2",
               [2, 16, 840, 1, 101, 3, 4, 2], "2.16.840.1.101.3.4.2");
  }

  lemma Pkcs1Algorithms()
    ensures Dotted([1, 2, 840, 113549, 1, 1]) == "1.2.840.113549.1.1"
  {
    SmallNumbers();
    TwoDotted(1, 2);
    hide ToString, Dotted;
    DottedMore([1, 2], "1.2", 840, "840", [1, 2, 840], "1.2.840");
    DottedMore([1, 2, 840], "1.2.840", 113549, "113549", [1, 2, 840, 113549], "1.2.840.113549");
    DottedMore([1, 2, 840, 113549], "1.2.840.113549", 1, "1", [1, 2, 840, 113549, 1], "1.2.840.113549.1");
    DottedMore([1, 2, 840, 113549, 1], "1.2.840.113549.1", 1, "1", [1, 2, 840, 113549, 1, 1], "1.2.840.113549.1.1");
  }

  lemma ArcsOfHash(last: nat)
    requires last < 0x80
    ensures Arcs(OidContent(2, 16, [840, 1, 101, 3, 4, 2, last])) == Some([2, 16, 840, 1, 101, 3, 4, 2, last])
  {
    var arcs := [840, 1, 101, 3, 4, 2, last];
    assert AllFit(arcs);
    hide Arcs, OidContent, AllFit;
    ArcsReadBack(2, 16, arcs);
    assert [2, 16] + arcs == [2, 16, 840, 1, 101, 3, 4, 2, last];
  }

  lemma HashArcs()
    ensures Arcs(Sha256Oid()) == Some([2, 16, 840, 1, 101, 3, 4, 2, 1])
    ensures Arcs(Sha384Oid()) == Some([2, 16, 840, 1, 101, 3, 4, 2, 2])
  {
    hide Arcs, OidContent;
    ArcsOfHash(1);
    ArcsOfHash(2);
  }

  /** The names are those of id-sha256 (section 2 of RFC 5754) and of the two RSA signature algorithms (appendix A.2.4
      of RFC 8017), and the octets that stand for the hash algorithms in a DigestInfo read as their arcs. */
  lemma NamesAreStandard()
    ensures Dotted([2, 16, 840, 1, 101, 3, 4, 2, 1]) == SHA256_DIGEST_OID
    ensures Arcs(Sha256Oid()) == Some([2, 16, 840, 1, 101, 3, 4, 2, 1])
    ensures Arcs(Sha384Oid()) == Some([2, 16, 840, 1, 101, 3, 4, 2, 2])
    ensures Dotted([1, 2, 840, 113549, 1, 1, 11]) == SHA256_WITH_RSA_OID
    ensures Dotted([1, 2, 840, 113549, 1, 1, 12]) == SHA384_WITH_RSA_OID
  {
    HashArcs();
    SmallNumbers();
    NistAlgorithms();
    Pkcs1Algorithms();
    hide Dotted, ToString, Arcs, Sha256Oid, Sha384Oid;
    DottedMore([2, 16, 840, 1, 101, 3, 4, 2], "2.16.840.1.101.3.4.2", 1, "1",
               [2, 16, 840, 1, 101, 3, 4, 2, 1], SHA256_DIGEST_OID);
    DottedMore([1, 2, 840, 113549, 1, 1], "1.2.840.113549.1.1", 11, "11",
               [1, 2, 840, 113549, 1, 1, 11], SHA256_WITH_RSA_OID);
    DottedMore([1, 2, 840, 113549, 1, 1], "1.2.840.113549.1.1", 12, "12",
               [1, 2, 840, 113549, 1, 1, 12], SHA384_WITH_RSA_OID);
  }
}
