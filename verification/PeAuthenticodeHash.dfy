/** The Authenticode hash of a PE image and the extraction of its signature
    (src/security/pe_authenticode_hash.cpp). */
module PeAuthenticodeHash {
  import opened Common
  import opened MerkleDamgard
  import opened ShaDigest

  predicate Fits(size: nat, offset: nat, length: nat) {
    offset <= size && length <= size - offset
  }

  /** What both entry points read first: where the Optional Header lies, its size, and where its data
      directories start. */
  datatype OptionalHeader = OptionalHeader(peOffset: nat, offset: nat, size: nat, dataDirBase: nat)

  function FindOptionalHeader(data: seq<byte>): (r: Option<OptionalHeader>)
    ensures r.Some? ==> r.value.offset == r.value.peOffset + 24 && r.value.offset + r.value.size <= |data|
    ensures r.Some? ==> r.value.peOffset > 0 && r.value.dataDirBase in {96, 112}
  {
    var size := |data|;
    if size < 64 then None
    else if data[0] != 0x4D || data[1] != 0x5A then None                            // 'M' 'Z'
    else
      var pe := ReadU32(data, 0x3C);
      if !Fits(size, pe, 4) then None
      else if data[pe] != 0x50 || data[pe + 1] != 0x45 || data[pe + 2] != 0 || data[pe + 3] != 0 then None
      else if !Fits(size, pe + 4, 20) then None
      else
        var optSize := ReadU16(data, pe + 4 + 16);
        if !Fits(size, pe + 24, optSize) then None
        else if optSize < 2 then None
        else
          var magic := ReadU16(data, pe + 24);
          if magic == 0x10b then Some(OptionalHeader(pe, pe + 24, optSize, 96))        // PE32
          else if magic == 0x20b then Some(OptionalHeader(pe, pe + 24, optSize, 112))  // PE32+
          else None
  }

  datatype Layout = Layout(
    checksum: nat,       // offset of the CheckSum field
    securityDir: nat,    // offset of the security directory entry
    headers: nat,        // SizeOfHeaders
    certOffset: nat,
    certSize: nat,
    sectionTable: nat,
    sectionCount: nat)

  const SECTION_HEADER: nat := 40

  function FindLayout(data: seq<byte>): (r: Option<Layout>)
    ensures r.Some? ==> var l := r.value;
      && 88 < l.checksum && l.checksum + 4 <= l.securityDir && l.securityDir + 8 <= l.headers <= |data|
      && l.sectionTable + l.sectionCount * SECTION_HEADER <= l.headers
      && (l.certSize > 0 ==> l.certOffset + l.certSize <= |data|)
  {
    var h := FindOptionalHeader(data);
    if h.None? then None else
    var size, opt := |data|, h.value.offset;
    var count := ReadU16(data, h.value.peOffset + 4 + 2);
    var checksum := opt + 64;
    if !Fits(size, checksum, 4) then None
    else if !Fits(size, opt + 60, 4) then None
    else
      var headers := ReadU32(data, opt + 60);
      if !Fits(size, 0, headers) then None
      else if headers < checksum + 4 then None
      else
        var securityDir := opt + h.value.dataDirBase + 4 * 8;
        if !Fits(size, securityDir, 8) then None
        else if securityDir + 8 > headers then None
        else
          var certOffset, certSize := ReadU32(data, securityDir), ReadU32(data, securityDir + 4);
          if certSize > 0 && !Fits(size, certOffset, certSize) then None
          else
            var table := opt + h.value.size;
            if !Fits(size, table, count * SECTION_HEADER) then None
            else if table + count * SECTION_HEADER > headers then None
            else Some(Layout(checksum, securityDir, headers, certOffset, certSize, table, count))
  }

  // ---- Sections ----

  datatype Range = Range(offset: nat, length: nat) {
    function End(): nat { offset + length }
  }

  ghost predicate InFile(s: seq<Range>, size: nat) {
    forall r :: r in s ==> r.length > 0 && r.End() <= size
  }

  /** The raw ranges of section headers i..n; a range outside the file spoils the whole image. */
  function Sections(data: seq<byte>, table: nat, i: nat, n: nat): (r: Option<seq<Range>>)
    requires i <= n && table + n * SECTION_HEADER <= |data|
    ensures r.Some? ==> InFile(r.value, |data|)
    decreases n - i
  {
    if i == n then Some([]) else
    var hdr := table + i * SECTION_HEADER;
    var rawSize, rawPtr := ReadU32(data, hdr + 16), ReadU32(data, hdr + 20);
    if rawSize == 0 then Sections(data, table, i + 1, n)
    else if !Fits(|data|, rawPtr, rawSize) then None
    else
      var rest := Sections(data, table, i + 1, n);
      if rest.None? then None else Some([Range(rawPtr, rawSize)] + rest.value)
  }

  function Prefixed(front: seq<Range>, rest: Option<seq<Range>>): Option<seq<Range>> {
    if rest.None? then None else Some(front + rest.value)
  }

  lemma NextSection(front: seq<Range>, data: seq<byte>, table: nat, i: nat, n: nat)
    requires i < n && table + n * SECTION_HEADER <= |data|
    ensures var hdr := table + i * SECTION_HEADER;
            var rawSize, rawPtr := ReadU32(data, hdr + 16), ReadU32(data, hdr + 20);
            Prefixed(front, Sections(data, table, i, n)) ==
              if rawSize == 0 then Prefixed(front, Sections(data, table, i + 1, n))
              else if !Fits(|data|, rawPtr, rawSize) then None
              else Prefixed(front + [Range(rawPtr, rawSize)], Sections(data, table, i + 1, n))
  {
    var hdr := table + i * SECTION_HEADER;
    var rawSize, rawPtr := ReadU32(data, hdr + 16), ReadU32(data, hdr + 20);
    var rest := Sections(data, table, i + 1, n);
    if rest.Some? { Regroup(front, [Range(rawPtr, rawSize)], rest.value); }
    hide ReadU32;
  }

  method CollectSections(data: seq<byte>, table: nat, n: nat) returns (r: Option<seq<Range>>)
    requires table + n * SECTION_HEADER <= |data|
    ensures r == Sections(data, table, 0, n)
  {
    var sections: seq<Range> := [];
    ghost var all := Sections(data, table, 0, n);
    assert all.Some? ==> sections + all.value == all.value;
    assert all == Prefixed(sections, all);
    assert Sections(data, table, n, n) == Some([]);
    hide Sections, ReadU32, Fits;
    for i := 0 to n
      invariant all == Prefixed(sections, Sections(data, table, i, n))
    {
      NextSection(sections, data, table, i, n);
      hide Prefixed;
      var hdr := table + i * SECTION_HEADER;
      var rawSize, rawPtr := ReadU32(data, hdr + 16), ReadU32(data, hdr + 20);
      if rawSize != 0 {
        if !Fits(|data|, rawPtr, rawSize) { return None; }
        sections := sections + [Range(rawPtr, rawSize)];
      }
    }
    assert sections + [] == sections;
    return Some(sections);
  }

  ghost predicate SortedByOffset(s: seq<Range>) {
    forall i, j :: 0 <= i < j < |s| ==> s[i].offset <= s[j].offset
  }

  function Insert(x: Range, s: seq<Range>): (r: seq<Range>)
    ensures multiset(r) == multiset{x} + multiset(s)
  {
    if |s| == 0 || x.offset <= s[0].offset then [x] + s
    else
      assert s == [s[0]] + s[1..];
      [s[0]] + Insert(x, s[1..])
  }

  lemma {:induction false} InsertSorted(x: Range, s: seq<Range>)
    requires SortedByOffset(s)
    ensures SortedByOffset(Insert(x, s))
  {
    if |s| > 0 && x.offset > s[0].offset {
      InsertSorted(x, s[1..]);
      var rest := Insert(x, s[1..]);
      forall j | 0 <= j < |rest| ensures s[0].offset <= rest[j].offset {
        assert rest[j] in multiset(rest);
        assert rest[j] == x || rest[j] in s[1..];
      }
    }
  }

  /** std::sort by offset. It leaves the order of equal offsets open; here they keep file order. */
  function Sorted(s: seq<Range>): (r: seq<Range>)
    ensures multiset(r) == multiset(s)
  {
    if |s| == 0 then []
    else
      assert s == [s[0]] + s[1..];
      Insert(s[0], Sorted(s[1..]))
  }

  lemma {:induction false} SortedIsSorted(s: seq<Range>)
    ensures SortedByOffset(Sorted(s))
  {
    if |s| > 0 {
      SortedIsSorted(s[1..]);
      InsertSorted(s[0], Sorted(s[1..]));
    }
  }

  /** With distinct offsets, as disjoint ranges have, that freedom does not exist: there is only one
      sorted order. */
  lemma {:induction false} SortIsUnique(s: seq<Range>, t: seq<Range>)
    requires multiset(s) == multiset(t) && SortedByOffset(s) && SortedByOffset(t)
    requires forall i, j :: 0 <= i < j < |s| ==> s[i].offset != s[j].offset
    ensures s == t
  {
    assert |multiset(t)| == |multiset(s)|;
    if |s| > 0 {
      var i, j := IndexIn(s[0], t, s), IndexIn(t[0], s, t);
      assert t[0].offset <= t[i].offset && s[0].offset <= s[j].offset;
      assert j == 0;
      SameTail(s, t);
      SortIsUnique(s[1..], t[1..]);
    }
  }

  ghost function IndexIn(x: Range, s: seq<Range>, t: seq<Range>): (i: nat)
    requires multiset(s) == multiset(t) && x in t
    ensures i < |s| && s[i] == x
  {
    assert x in multiset(s);
    var i: nat :| i < |s| && s[i] == x;
    i
  }

  lemma SameTail(s: seq<Range>, t: seq<Range>)
    requires |s| > 0 && |t| > 0 && s[0] == t[0] && multiset(s) == multiset(t)
    ensures multiset(s[1..]) == multiset(t[1..])
  {
    assert s == [s[0]] + s[1..] && t == [t[0]] + t[1..];
    assert multiset(s[1..]) == multiset(s) - multiset{s[0]};
    assert multiset(t[1..]) == multiset(t) - multiset{t[0]};
  }

  function SectionBytes(data: seq<byte>, s: seq<Range>): seq<byte>
    requires InFile(s, |data|)
  {
    if |s| == 0 then []
    else
      assert s[|s| - 1] in s;
      SectionBytes(data, s[..|s| - 1]) + data[s[|s| - 1].offset..s[|s| - 1].End()]
  }

  function ExtraStart(headers: nat, s: seq<Range>): nat {
    if |s| == 0 then headers else Max(ExtraStart(headers, s[..|s| - 1]), s[|s| - 1].End())
  }

  // ---- The hashed bytes ----

  function ExtraEnd(data: seq<byte>, l: Layout): nat {
    if l.certSize > 0 then l.certOffset else |data|
  }

  /** The headers without the two excluded fields. */
  function HeaderBytes(data: seq<byte>, l: Layout): (bs: seq<byte>)
    requires l.checksum + 4 <= l.securityDir && l.securityDir + 8 <= l.headers <= |data|
    ensures |bs| == l.headers - 12
  {
    data[..l.checksum] + data[l.checksum + 4..l.securityDir] + data[l.securityDir + 8..l.headers]
  }

  /** What lies between the last section and the certificate table, or the end of the file. */
  function ExtraBytes(data: seq<byte>, l: Layout, sections: seq<Range>): seq<byte> {
    var start, end := ExtraStart(l.headers, sections), ExtraEnd(data, l);
    if start < end <= |data| then data[start..end] else []
  }

  function Stream(data: seq<byte>, l: Layout, sections: seq<Range>): seq<byte>
    requires l.checksum + 4 <= l.securityDir && l.securityDir + 8 <= l.headers <= |data|
    requires InFile(sections, |data|)
  {
    HeaderBytes(data, l) + SectionBytes(data, sections) + ExtraBytes(data, l, sections)
  }

  /** The bytes the digest covers, in order; None for anything that is not a well-formed PE. */
  function HashedBytes(data: seq<byte>): Option<seq<byte>> {
    var layout := FindLayout(data);
    if layout.None? then None else
    var l := layout.value;
    var sections := Sections(data, l.sectionTable, 0, l.sectionCount);
    if sections.None? then None else
    SameRanges(Sorted(sections.value), sections.value, |data|);
    Some(Stream(data, l, Sorted(sections.value)))
  }

  lemma SameRanges(s: seq<Range>, t: seq<Range>, size: nat)
    requires multiset(s) == multiset(t) && InFile(t, size)
    ensures InFile(s, size) && forall r :: r in s ==> r in t
  {
    forall r | r in s ensures r in t { assert r in multiset(s); }
  }

  /** The loop over the sorted sections: feeds each one, and finds where the last of them ends. */
  method FeedSections(ctx: ShaContext, data: seq<byte>, sections: seq<Range>, headers: nat) returns (start: nat)
    requires ctx.Valid() && InFile(sections, |data|)
    modifies ctx, ctx.buffer
    ensures ctx.Valid() && ctx.Fed() == old(ctx.Fed()) + SectionBytes(data, sections)
    ensures start == ExtraStart(headers, sections)
  {
    start := headers;
    for i := 0 to |sections|
      invariant ctx.Valid() && InFile(sections[..i], |data|)
      invariant ctx.Fed() == old(ctx.Fed()) + SectionBytes(data, sections[..i])
      invariant start == ExtraStart(headers, sections[..i])
    {
      assert sections[i] in sections && sections[..i + 1][..i] == sections[..i];
      ctx.Update(data[sections[i].offset..sections[i].End()]);
      if sections[i].End() > start { start := sections[i].End(); }
    }
    assert sections[..|sections|] == sections;
  }

  /** Feeds the headers, the two excluded fields left out. */
  method FeedHeaders(ctx: ShaContext, data: seq<byte>, l: Layout)
    requires ctx.Valid() && ctx.Fed() == []
    requires l.checksum + 4 <= l.securityDir && l.securityDir + 8 <= l.headers <= |data|
    modifies ctx, ctx.buffer
    ensures ctx.Valid()
    ensures ctx.Fed() == HeaderBytes(data, l)
  {
    ctx.Update(data[..l.checksum]);
    assert ctx.Fed() == data[..l.checksum];
    ctx.Update(data[l.checksum + 4..l.securityDir]);
    ctx.Update(data[l.securityDir + 8..l.headers]);
  }

  /** Feeds the stream piece by piece into one SHA-256 context. */
  method HashStream(data: seq<byte>, l: Layout, sections: seq<Range>, compress: Compression)
    returns (r: Option<seq<byte>>)
    requires l.checksum + 4 <= l.securityDir && l.securityDir + 8 <= l.headers <= |data|
    requires l.certSize > 0 ==> l.certOffset + l.certSize <= |data|
    requires InFile(sections, |data|)
    ensures r == Some(DigestOf(Sha256(compress), Stream(data, l, sections)))
  {
    hide DigestOf, Flatten, Sha256, SectionBytes, ExtraStart, Fold;
    var ctx := new ShaContext(Sha256(compress));
    FeedHeaders(ctx, data, l);
    var start := FeedSections(ctx, data, sections, l.headers);
    var end := ExtraEnd(data, l);
    ghost var all := ctx.Fed() + ExtraBytes(data, l, sections);
    assert all == Stream(data, l, sections);
    if end > start {
      if end > |data| { return None; }
      ctx.Update(data[start..end]);
    }
    assert ctx.Fed() == all;
    var digest := ctx.Finalize();
    return Some(digest);
  }

  method ComputeAuthenticodePeHashSha256(data: seq<byte>, compress: Compression) returns (r: Option<seq<byte>>)
    ensures r == match HashedBytes(data)
                 case None => None
                 case Some(bytes) => Some(DigestOf(Sha256(compress), bytes))
  {
    hide DigestOf, Sha256, Sections, Sorted, Stream;
    var layout := FindLayout(data);
    if layout.None? { return None; }
    var l := layout.value;
    var collected := CollectSections(data, l.sectionTable, l.sectionCount);
    if collected.None? { return None; }
    var sections := Sorted(collected.value);
    SameRanges(sections, collected.value, |data|);
    r := HashStream(data, l, sections, compress);
  }

  // ---- What the hash covers ----

  /** Sections from `start` on in the order given, none overlapping what comes before it. */
  ghost predicate Apart(s: seq<Range>, start: nat) {
    |s| > 0 ==> Apart(s[..|s| - 1], start) && ExtraStart(start, s[..|s| - 1]) <= s[|s| - 1].offset
  }

  /** And without a gap. */
  ghost predicate Tiles(s: seq<Range>, start: nat) {
    |s| > 0 ==> Tiles(s[..|s| - 1], start) && ExtraStart(start, s[..|s| - 1]) == s[|s| - 1].offset
  }

  /** Sections that are apart have as many bytes as they span exactly when there is no gap. */
  lemma {:induction false} SectionLengths(data: seq<byte>, s: seq<Range>, start: nat)
    requires start <= |data| && InFile(s, |data|) && Apart(s, start)
    ensures start <= ExtraStart(start, s) <= |data|
    ensures |SectionBytes(data, s)| <= ExtraStart(start, s) - start
    ensures |SectionBytes(data, s)| == ExtraStart(start, s) - start <==> Tiles(s, start)
  {
    if |s| > 0 {
      assert s[|s| - 1] in s;
      SectionLengths(data, s[..|s| - 1], start);
    }
  }

  lemma {:induction false} TiledSections(data: seq<byte>, s: seq<Range>, start: nat)
    requires start <= |data| && InFile(s, |data|) && Tiles(s, start)
    ensures start <= ExtraStart(start, s) <= |data|
    ensures SectionBytes(data, s) == data[start..ExtraStart(start, s)]
  {
    if |s| > 0 {
      var front, last := s[..|s| - 1], s[|s| - 1];
      assert last in s;
      TiledSections(data, front, start);
      assert data[start..last.End()] == data[start..last.offset] + data[last.offset..last.End()];
    }
  }

  /** The three regions that a signature must not cover, taken out of the file. */
  ghost function WithoutExcluded(data: seq<byte>, l: Layout): seq<byte>
    requires l.checksum + 4 <= l.securityDir && l.securityDir + 8 <= |data|
    requires l.certSize > 0 ==> l.securityDir + 8 <= l.certOffset && l.certOffset + l.certSize <= |data|
  {
    data[..l.checksum] + data[l.checksum + 4..l.securityDir] + data[l.securityDir + 8..ExtraEnd(data, l)]
      + (if l.certSize > 0 then data[l.certOffset + l.certSize..] else [])
  }

  /** The same bytes, cut where the headers end. */
  lemma WithoutExcludedParts(data: seq<byte>, l: Layout)
    requires l.checksum + 4 <= l.securityDir && l.securityDir + 8 <= l.headers <= |data|
    requires l.certSize > 0 ==> l.headers <= l.certOffset && l.certOffset + l.certSize <= |data|
    ensures WithoutExcluded(data, l) == HeaderBytes(data, l) + data[l.headers..ExtraEnd(data, l)]
              + if l.certSize > 0 then data[l.certOffset + l.certSize..] else []
  {
    var end := ExtraEnd(data, l);
    assert data[l.securityDir + 8..end] == data[l.securityDir + 8..l.headers] + data[l.headers..end];
    hide ExtraEnd;
    Regroup(data[..l.checksum] + data[l.checksum + 4..l.securityDir], data[l.securityDir + 8..l.headers],
            data[l.headers..end]);
  }

  /** The certificate table, if any, lies behind the sections. */
  ghost predicate TableBehind(l: Layout, s: seq<Range>, size: nat) {
    && Apart(s, l.headers)
    && (l.certSize > 0 ==> ExtraStart(l.headers, s) <= l.certOffset && l.certOffset + l.certSize <= size)
  }

  /** Sections and what lies behind them are fewer bytes than reach to the table, unless there is no gap. */
  lemma SectionsSpan(data: seq<byte>, l: Layout, s: seq<Range>)
    requires l.headers <= |data| && InFile(s, |data|) && TableBehind(l, s, |data|)
    ensures l.headers <= ExtraEnd(data, l) <= |data|
    ensures var a, b, whole := SectionBytes(data, s), ExtraBytes(data, l, s), data[l.headers..ExtraEnd(data, l)];
            && (!Tiles(s, l.headers) ==> |a| + |b| < |whole|)
            && (Tiles(s, l.headers) ==> a + b == whole)
  {
    var start, end := ExtraStart(l.headers, s), ExtraEnd(data, l);
    SectionLengths(data, s, l.headers);
    assert ExtraBytes(data, l, s) == data[start..end];
    if Tiles(s, l.headers) {
      TiledSections(data, s, l.headers);
      hide SectionBytes, ExtraStart, Tiles, Apart;
      assert data[l.headers..start] + data[start..end] == data[l.headers..end];
    }
    hide SectionBytes, ExtraStart, Tiles, Apart;
  }

  lemma StreamCovers(data: seq<byte>, l: Layout, s: seq<Range>)
    requires l.checksum + 4 <= l.securityDir && l.securityDir + 8 <= l.headers <= |data|
    requires InFile(s, |data|) && TableBehind(l, s, |data|)
    ensures l.certSize > 0 ==> l.headers <= l.certOffset
    ensures Stream(data, l, s) == WithoutExcluded(data, l)
            <==> Tiles(s, l.headers) && (l.certSize == 0 || l.certOffset + l.certSize == |data|)
  {
    SectionsSpan(data, l, s);
    assert l.certSize > 0 ==> l.headers <= l.certOffset && l.certOffset + l.certSize <= |data|;
    WithoutExcludedParts(data, l);
    var tail := if l.certSize > 0 then data[l.certOffset + l.certSize..] else [];
    assert l.certSize > 0 ==> |tail| == |data| - (l.certOffset + l.certSize);
    var head, middle, extra := HeaderBytes(data, l), SectionBytes(data, s), ExtraBytes(data, l, s);
    var whole := data[l.headers..ExtraEnd(data, l)];
    assert Stream(data, l, s) == head + middle + extra;
    hide *;
    Regroup(head, middle, extra);
    SameLengthOnly(head, middle, extra, whole, tail);
  }

  /** With equal bytes in the middle two strings are equal exactly when nothing follows; with fewer bytes
      they are not. */
  lemma SameLengthOnly(head: seq<byte>, middle: seq<byte>, extra: seq<byte>, whole: seq<byte>, tail: seq<byte>)
    ensures |middle| + |extra| < |whole| ==> head + middle + extra != head + whole + tail
    ensures head + middle + extra == head + whole ==> (head + middle + extra == head + whole + tail <==> tail == [])
  {
    assert |head + middle + extra| == |head| + |middle| + |extra|;
    assert |head + whole + tail| == |head| + |whole| + |tail|;
    if tail == [] { assert head + whole + tail == head + whole; }
  }

  lemma {:induction false} SectionBytesSplit(data: seq<byte>, s: seq<Range>, k: nat)
    requires InFile(s, |data|) && k <= |s|
    ensures InFile(s[..k], |data|) && InFile(s[k..], |data|)
    ensures SectionBytes(data, s) == SectionBytes(data, s[..k]) + SectionBytes(data, s[k..])
    decreases |s|
  {
    assert forall r :: r in s[..k] || r in s[k..] ==> r in s;
    if k < |s| {
      var front := s[..|s| - 1];
      assert forall r :: r in front ==> r in s;
      SectionBytesSplit(data, front, k);
      assert front[..k] == s[..k] && front[k..] == s[k..][..|s[k..]| - 1];
      assert s[k..][|s[k..]| - 1] == s[|s| - 1];
    } else {
      assert s[..k] == s && s[k..] == [];
    }
  }

  lemma ExtraStartReaches(start: nat, s: seq<Range>, k: nat)
    requires k < |s|
    ensures ExtraStart(start, s) >= s[k].End()
    decreases |s|
  {
    if k < |s| - 1 { ExtraStartReaches(start, s[..|s| - 1], k); }
  }

  /** The table lies between sections k - 1 and k, or before the first. */
  ghost predicate TableBefore(l: Layout, s: seq<Range>, k: nat) {
    && l.certSize > 0 && k < |s|
    && Apart(s[..k], l.headers) && ExtraStart(l.headers, s[..k]) <= l.certOffset
    && Apart(s[k..], l.certOffset + l.certSize)
  }

  /** The sections reach from the headers to the table, and from the table to the end of the file. */
  ghost predicate ReachesAround(l: Layout, s: seq<Range>, k: nat, size: nat)
    requires k <= |s|
  {
    && Tiles(s[..k], l.headers) && ExtraStart(l.headers, s[..k]) == l.certOffset
    && Tiles(s[k..], l.certOffset + l.certSize) && ExtraStart(l.certOffset + l.certSize, s[k..]) == size
  }

  lemma NothingExtra(data: seq<byte>, l: Layout, s: seq<Range>, k: nat)
    requires TableBefore(l, s, k)
    ensures ExtraBytes(data, l, s) == []
  {
    BackStartsAfter(s[k..], l.certOffset + l.certSize);
    assert s[k..][0] == s[k];
    ExtraStartReaches(l.headers, s, k);
    hide ExtraStart, Apart;
  }

  /** The sections before the table span no more than reaches up to it, those behind it no more than is
      left of the file, and both bounds are met exactly when there is no gap. */
  lemma HalvesSpan(data: seq<byte>, l: Layout, s: seq<Range>, k: nat)
    requires l.headers <= |data| && l.certOffset + l.certSize <= |data| && InFile(s, |data|) && TableBefore(l, s, k)
    ensures l.headers <= l.certOffset
    ensures InFile(s[..k], |data|) && InFile(s[k..], |data|)
    ensures SectionBytes(data, s) == SectionBytes(data, s[..k]) + SectionBytes(data, s[k..])
    ensures var a, b := SectionBytes(data, s[..k]), SectionBytes(data, s[k..]);
            && |a| <= l.certOffset - l.headers && |b| <= |data| - (l.certOffset + l.certSize)
            && (ReachesAround(l, s, k, |data|) <==>
                  |a| == l.certOffset - l.headers && |b| == |data| - (l.certOffset + l.certSize))
            && (ReachesAround(l, s, k, |data|) ==>
                  a == data[l.headers..l.certOffset] && b == data[l.certOffset + l.certSize..])
  {
    var after := l.certOffset + l.certSize;
    SectionBytesSplit(data, s, k);
    SectionLengths(data, s[..k], l.headers);
    SectionLengths(data, s[k..], after);
    if ReachesAround(l, s, k, |data|) {
      TiledSections(data, s[..k], l.headers);
      TiledSections(data, s[k..], after);
      assert data[after..|data|] == data[after..];
    }
    hide SectionBytes, ExtraStart, Tiles, Apart;
  }

  /** What comes after the table is hashed only as far as sections reach. */
  lemma StreamCoversAroundTable(data: seq<byte>, l: Layout, s: seq<Range>, k: nat)
    requires l.checksum + 4 <= l.securityDir && l.securityDir + 8 <= l.headers <= |data|
    requires l.certOffset + l.certSize <= |data| && InFile(s, |data|) && TableBefore(l, s, k)
    ensures l.headers <= l.certOffset
    ensures Stream(data, l, s) == WithoutExcluded(data, l) <==> ReachesAround(l, s, k, |data|)
  {
    assert l.certSize > 0 && ExtraEnd(data, l) == l.certOffset;
    NothingExtra(data, l, s, k);
    HalvesSpan(data, l, s, k);
    WithoutExcludedParts(data, l);
    var head, a, b := HeaderBytes(data, l), SectionBytes(data, s[..k]), SectionBytes(data, s[k..]);
    assert Stream(data, l, s) == head + (a + b) + [];
    hide *;
    SameHalves(head, a, b, data[l.headers..l.certOffset], data[l.certOffset + l.certSize..]);
  }

  lemma SameHalves(head: seq<byte>, a: seq<byte>, b: seq<byte>, c: seq<byte>, d: seq<byte>)
    requires |a| <= |c| && |b| <= |d|
    ensures head + (a + b) + [] == head + c + d ==> |a| == |c| && |b| == |d|
    ensures a == c && b == d ==> head + (a + b) + [] == head + c + d
  {
    assert |head + (a + b) + []| == |head| + |a| + |b| && |head + c + d| == |head| + |c| + |d|;
    Regroup(head, a, b);
    assert head + (a + b) + [] == head + (a + b);
  }

  lemma BackStartsAfter(s: seq<Range>, start: nat)
    requires |s| > 0 && Apart(s, start)
    ensures s[0].offset >= start
    decreases |s|
  {
    if |s| > 1 { BackStartsAfter(s[..|s| - 1], start); }
  }

  ghost function SortedSections(data: seq<byte>): seq<Range>
    requires HashedBytes(data).Some?
  {
    var l := FindLayout(data).value;
    Sorted(Sections(data, l.sectionTable, 0, l.sectionCount).value)
  }

  lemma HashedIsStream(data: seq<byte>)
    requires HashedBytes(data).Some?
    ensures InFile(SortedSections(data), |data|)
    ensures HashedBytes(data) == Some(Stream(data, FindLayout(data).value, SortedSections(data)))
  {
    hide FindLayout, Sections, Sorted, Stream;
    var l := FindLayout(data).value;
    var sections := Sections(data, l.sectionTable, 0, l.sectionCount).value;
    SameRanges(Sorted(sections), sections, |data|);
  }

  /** For sections that overlap neither the headers nor one another, with the certificate table, if any,
      behind them: the digest covers every byte outside the three excluded regions exactly when the
      sections leave no gap and nothing follows the table. */
  lemma HashCoversAllButExcluded(data: seq<byte>)
    requires HashedBytes(data).Some?
    requires TableBehind(FindLayout(data).value, SortedSections(data), |data|)
    ensures var l, s := FindLayout(data).value, SortedSections(data);
            && (l.certSize > 0 ==> l.headers <= l.certOffset)
            && (HashedBytes(data) == Some(WithoutExcluded(data, l))
                <==> Tiles(s, l.headers) && (l.certSize == 0 || l.certOffset + l.certSize == |data|))
  {
    HashedIsStream(data);
    hide SortedSections, HashedBytes, Stream, WithoutExcluded, TableBehind, Tiles;
    StreamCovers(data, FindLayout(data).value, SortedSections(data));
  }

  /** With the table between two sections instead, exactly when the sections reach from the headers to the
      table and from the table to the end of the file. */
  lemma HashCoversAroundTable(data: seq<byte>, k: nat)
    requires HashedBytes(data).Some?
    requires TableBefore(FindLayout(data).value, SortedSections(data), k)
    ensures var l, s := FindLayout(data).value, SortedSections(data);
            && k <= |s| && l.headers <= l.certOffset
            && (HashedBytes(data) == Some(WithoutExcluded(data, l)) <==> ReachesAround(l, s, k, |data|))
  {
    HashedIsStream(data);
    assert k <= |SortedSections(data)|;
    hide SortedSections, HashedBytes, Stream, WithoutExcluded, TableBefore, ReachesAround;
    StreamCoversAroundTable(data, FindLayout(data).value, SortedSections(data), k);
  }

  // ---- Signing leaves the hash alone ----

  predicate Kept(l: Layout, i: nat) {
    (i < l.checksum || l.checksum + 4 <= i) && (i < l.securityDir || l.securityDir + 8 <= i)
  }

  /** g agrees with f on f's length, the CheckSum field and the security directory entry apart. */
  ghost predicate SameOutside(f: seq<byte>, g: seq<byte>, l: Layout) {
    && |f| <= |g|
    && forall i | 0 <= i < |f| && Kept(l, i) :: g[i] == f[i]
  }

  /** g is f with a certificate table appended: only CheckSum and the security directory entry differ,
      and the entry points at the table. */
  ghost predicate SignedFrom(f: seq<byte>, g: seq<byte>, l: Layout, table: seq<byte>)
    requires l.checksum + 4 <= l.securityDir && l.securityDir + 8 <= |f|
  {
    && |g| == |f| + |table| && g[|f|..] == table
    && SameOutside(f, g, l)
    && ReadU32(g, l.securityDir) == |f| && ReadU32(g, l.securityDir + 4) == |table| > 0
  }

  ghost predicate Clear(r: Range, at: nat, n: nat) {
    r.End() <= at || at + n <= r.offset
  }

  /** The directory entry lies in the Optional Header, and no section's raw data reaches into either
      rewritten field. */
  ghost predicate FieldsClear(f: seq<byte>, l: Layout)
    requires l.sectionTable + l.sectionCount * SECTION_HEADER <= |f|
  {
    var sections := Sections(f, l.sectionTable, 0, l.sectionCount);
    && l.securityDir + 8 <= l.sectionTable
    && sections.Some?
    && forall r :: r in sections.value ==> Clear(r, l.checksum, 4) && Clear(r, l.securityDir, 8)
  }

  /** The header walk reads the same fields from the signed image. */
  lemma SignedHeader(f: seq<byte>, g: seq<byte>, table: seq<byte>)
    requires FindLayout(f).Some? && SignedFrom(f, g, FindLayout(f).value, table)
    ensures FindOptionalHeader(g) == FindOptionalHeader(f)
  {
    var l := FindLayout(f).value;
    forall i | 0 <= i < l.checksum ensures g[i] == f[i] {}
    assert ReadU32(g, 0x3C) == ReadU32(f, 0x3C);
    var pe := ReadU32(f, 0x3C);
    assert g[pe] == f[pe] && g[pe + 1] == f[pe + 1] && g[pe + 2] == f[pe + 2] && g[pe + 3] == f[pe + 3];
    assert ReadU16(g, pe + 20) == ReadU16(f, pe + 20);
    assert ReadU16(g, pe + 24) == ReadU16(f, pe + 24);
  }

  lemma SignedLayout(f: seq<byte>, g: seq<byte>, table: seq<byte>)
    requires FindLayout(f).Some? && SignedFrom(f, g, FindLayout(f).value, table)
    ensures FindLayout(g) == Some(FindLayout(f).value.(certOffset := |f|, certSize := |table|))
  {
    SignedHeader(f, g, table);
    hide FindOptionalHeader;
    var l := FindLayout(f).value;
    var h := FindOptionalHeader(f).value;
    assert ReadU16(g, h.peOffset + 6) == ReadU16(f, h.peOffset + 6);
    assert ReadU32(g, h.offset + 60) == ReadU32(f, h.offset + 60);
  }

  lemma SameField(f: seq<byte>, g: seq<byte>, l: Layout, at: nat)
    requires SameOutside(f, g, l) && l.checksum + 4 <= l.securityDir && l.securityDir + 8 <= at && at + 4 <= |f|
    ensures ReadU32(g, at) == ReadU32(f, at)
  {}

  lemma {:induction false} SignedSections(f: seq<byte>, g: seq<byte>, table: seq<byte>, i: nat)
    requires FindLayout(f).Some? && SignedFrom(f, g, FindLayout(f).value, table)
    requires i <= FindLayout(f).value.sectionCount
    requires var l := FindLayout(f).value;
             l.securityDir + 8 <= l.sectionTable && Sections(f, l.sectionTable, i, l.sectionCount).Some?
    ensures var l := FindLayout(f).value;
            Sections(g, l.sectionTable, i, l.sectionCount) == Sections(f, l.sectionTable, i, l.sectionCount)
    decreases FindLayout(f).value.sectionCount - i
  {
    hide FindLayout, ReadU32;
    var l := FindLayout(f).value;
    if i < l.sectionCount {
      var hdr := l.sectionTable + i * SECTION_HEADER;
      SameField(f, g, l, hdr + 16);
      SameField(f, g, l, hdr + 20);
      hide SameOutside;
      SignedSections(f, g, table, i + 1);
    }
  }

  lemma {:induction false} SignedSectionBytes(f: seq<byte>, g: seq<byte>, s: seq<Range>, l: Layout)
    requires SameOutside(f, g, l) && InFile(s, |f|)
    requires forall r :: r in s ==> Clear(r, l.checksum, 4) && Clear(r, l.securityDir, 8)
    ensures InFile(s, |g|) && SectionBytes(g, s) == SectionBytes(f, s)
  {
    if |s| > 0 {
      var last := s[|s| - 1];
      assert last in s;
      SignedSectionBytes(f, g, s[..|s| - 1], l);
      assert g[last.offset..last.End()] == f[last.offset..last.End()];
    }
  }

  /** Signing an unsigned image does not change what its digest covers. */
  lemma SigningKeepsHash(f: seq<byte>, g: seq<byte>, table: seq<byte>)
    requires HashedBytes(f).Some? && FindLayout(f).value.certSize == 0
    requires FieldsClear(f, FindLayout(f).value)
    requires SignedFrom(f, g, FindLayout(f).value, table)
    ensures HashedBytes(g) == HashedBytes(f)
  {
    SignedLayout(f, g, table);
    SignedSections(f, g, table, 0);
    hide FindLayout, Sections, Sorted, Stream;
    var l := FindLayout(f).value;
    var sections := Sections(f, l.sectionTable, 0, l.sectionCount).value;
    SameRanges(Sorted(sections), sections, |f|);
    SignedStream(f, g, l, l.(certOffset := |f|, certSize := |table|), Sorted(sections));
  }

  lemma SignedStream(f: seq<byte>, g: seq<byte>, l: Layout, l': Layout, s: seq<Range>)
    requires l.checksum + 4 <= l.securityDir && l.securityDir + 8 <= l.headers <= |f| && InFile(s, |f|)
    requires forall r :: r in s ==> Clear(r, l.checksum, 4) && Clear(r, l.securityDir, 8)
    requires l.certSize == 0 && l'.certSize > 0 && l' == l.(certOffset := |f|, certSize := l'.certSize)
    requires SameOutside(f, g, l)
    ensures InFile(s, |g|) && Stream(g, l', s) == Stream(f, l, s)
  {
    SignedSectionBytes(f, g, s, l);
    ExtraInFile(l.headers, s, |f|);
    SignedHeaderBytes(f, g, l, l');
    hide SectionBytes, ExtraStart, HeaderBytes;
    var start := ExtraStart(l.headers, s);
    assert g[start..|f|] == f[start..];
    assert ExtraBytes(g, l', s) == ExtraBytes(f, l, s);
  }

  lemma SignedHeaderBytes(f: seq<byte>, g: seq<byte>, l: Layout, l': Layout)
    requires l.checksum + 4 <= l.securityDir && l.securityDir + 8 <= l.headers <= |f| && SameOutside(f, g, l)
    requires l'.checksum == l.checksum && l'.securityDir == l.securityDir && l'.headers == l.headers
    ensures HeaderBytes(g, l') == HeaderBytes(f, l)
  {
    assert g[..l.checksum] == f[..l.checksum];
    assert g[l.checksum + 4..l.securityDir] == f[l.checksum + 4..l.securityDir];
    assert g[l.securityDir + 8..l.headers] == f[l.securityDir + 8..l.headers];
  }

  lemma {:induction false} ExtraInFile(headers: nat, s: seq<Range>, size: nat)
    requires headers <= size && InFile(s, size)
    ensures headers <= ExtraStart(headers, s) <= size
  {
    if |s| > 0 {
      assert s[|s| - 1] in s;
      ExtraInFile(headers, s[..|s| - 1], size);
    }
  }

  // ---- Extracting the signature ----

  function ExtractAuthenticodeSignature(data: seq<byte>): Option<seq<byte>> {
    var h := FindOptionalHeader(data);
    if h.None? then None else BlobAt(data, h.value.offset + h.value.dataDirBase + 4 * 8)
  }

  /** The blob in the table that the security directory entry names. */
  function BlobAt(data: seq<byte>, entry: nat): Option<seq<byte>> {
    var size := |data|;
    if !Fits(size, entry, 8) then None else
    var certOffset, certSize := ReadU32(data, entry), ReadU32(data, entry + 4);
    if certSize == 0 then None                                   // unsigned
    else if certSize < 8 then None                               // smaller than a WIN_CERTIFICATE header
    else if !Fits(size, certOffset, certSize) then None
    else
      var wcLength, wcType := ReadU32(data, certOffset), ReadU16(data, certOffset + 6);
      if wcType != 0x0002 then None                              // not PKCS SignedData
      else if wcLength < 8 || wcLength > certSize then None
      else if !Fits(size, certOffset + 8, wcLength - 8) then None
      else Some(data[certOffset + 8..certOffset + wcLength])
  }

  /** A WIN_CERTIFICATE holding a PKCS#7 blob, followed by any padding. */
  ghost predicate IsWinCertificate(table: seq<byte>, pkcs7: seq<byte>) {
    && 8 + |pkcs7| <= |table|
    && ReadU32(table, 0) == 8 + |pkcs7| && ReadU16(table, 6) == 0x0002
    && table[8..8 + |pkcs7|] == pkcs7
  }

  lemma TableFields(g: seq<byte>, start: nat, table: seq<byte>, n: nat)
    requires start <= |g| && g[start..] == table && 8 + n <= |table|
    ensures ReadU32(g, start) == ReadU32(table, 0) && ReadU16(g, start + 6) == ReadU16(table, 6)
    ensures g[start + 8..start + 8 + n] == table[8..8 + n]
  {
    assert forall i :: 0 <= i < |table| ==> g[start + i] == g[start..][i];
  }

  /** From a signed image, exactly the appended blob comes back; from the unsigned one, nothing. */
  lemma SignatureRoundTrip(f: seq<byte>, g: seq<byte>, table: seq<byte>, pkcs7: seq<byte>)
    requires FindLayout(f).Some? && FindLayout(f).value.certSize == 0
    requires SignedFrom(f, g, FindLayout(f).value, table) && IsWinCertificate(table, pkcs7)
    ensures ExtractAuthenticodeSignature(f) == None
    ensures ExtractAuthenticodeSignature(g) == Some(pkcs7)
  {
    SignedHeader(f, g, table);
    hide FindOptionalHeader, SameOutside, ReadU32, ReadU16;
    TableFields(g, |f|, table, |pkcs7|);
  }
}
