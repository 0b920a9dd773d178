/** Small accepted images: two with bytes that no digest covers, and a PE32+ one that is covered
    (src/security/pe_authenticode_hash.cpp). */
module PeImages {
  import opened Common
  import opened PeAuthenticodeHash

  /** The fields of a PE32 image with its headers at 64, and with room for `count` section headers at 312. */
  function HeaderByte(i: nat, count: byte, headers: u16): byte {
    match i
    case 0 => 0x4D
    case 1 => 0x5A
    case 60 => 64
    case 64 => 0x50
    case 65 => 0x45
    case 70 => count
    case 84 => 224
    case 88 => 0x0b
    case 89 => 0x01
    case 148 => headers % 0x100
    case 149 => headers / 0x100
    case _ => 0
  }

  /** What such an image says of itself. */
  predicate HasFields(data: seq<byte>, count: nat, headers: nat, certOffset: nat, certSize: nat)
    requires |data| >= 392
  {
    && data[0] == 0x4D && data[1] == 0x5A && ReadU32(data, 0x3C) == 64
    && data[64] == 0x50 && data[65] == 0x45 && data[66] == 0 && data[67] == 0
    && ReadU16(data, 70) == count && ReadU16(data, 84) == 224 && ReadU16(data, 88) == 0x10b
    && ReadU32(data, 148) == headers && ReadU32(data, 216) == certOffset && ReadU32(data, 220) == certSize
  }

  lemma LayoutOf(data: seq<byte>, count: nat, headers: nat, certOffset: nat, certSize: nat)
    requires |data| >= 392 && HasFields(data, count, headers, certOffset, certSize)
    requires 312 + count * 40 <= headers <= |data| && certOffset + certSize <= |data|
    ensures FindLayout(data) == Some(Layout(152, 216, headers, certOffset, certSize, 312, count))
  {
    hide ReadU16, ReadU32;
    assert FindOptionalHeader(data) == Some(OptionalHeader(64, 88, 224, 96));
    hide FindOptionalHeader;
  }

  /** The hashed bytes of an image whose sections are known. */
  lemma SectionsOf(data: seq<byte>, l: Layout, s: seq<Range>)
    requires FindLayout(data) == Some(l) && Sections(data, l.sectionTable, 0, l.sectionCount) == Some(s)
    requires Sorted(s) == s
    ensures HashedBytes(data).Some? && SortedSections(data) == s
  {
    hide FindLayout, Sections, Sorted, Stream;
  }

  /** One section of ten bytes at 400, while the headers end at 352. */
  function GapImage(): (data: seq<byte>)
    ensures |data| == 410
  {
    seq(410, i requires i >= 0 =>
      match i
      case 328 => 10
      case 332 => 0x90
      case 333 => 0x01
      case _ => HeaderByte(i, 1, 352))
  }

  lemma GapLayout()
    ensures FindLayout(GapImage()) == Some(Layout(152, 216, 352, 0, 0, 312, 1))
  {
    var data := GapImage();
    assert HasFields(data, 1, 352, 0, 0);
    hide HasFields, GapImage, FindLayout;
    LayoutOf(data, 1, 352, 0, 0);
  }

  lemma GapSections()
    ensures Sections(GapImage(), 312, 0, 1) == Some([Range(400, 10)])
  {
    var data := GapImage();
    assert ReadU32(data, 328) == 10 && ReadU32(data, 332) == 400;
    assert Sections(data, 312, 1, 1) == Some([]);
    hide ReadU32;
    assert [Range(400, 10)] + [] == [Range(400, 10)];
  }

  lemma OneSection(r: Range)
    ensures Sorted([r]) == [r]
  {
    assert [r][1..] == [];
  }

  lemma GapBefore(l: Layout, r: Range, size: nat)
    requires l.headers < r.offset && l.certSize == 0
    ensures TableBehind(l, [r], size) && !Tiles([r], l.headers)
  {
    assert [r][..0] == [];
  }

  /** An accepted, unsigned image whose digest leaves out the bytes between its headers and its section. */
  lemma GapIsNotHashed()
    ensures var data, l := GapImage(), Layout(152, 216, 352, 0, 0, 312, 1);
            && HashedBytes(data).Some? && FindLayout(data) == Some(l)
            && TableBehind(l, SortedSections(data), |data|)
            && HashedBytes(data) != Some(WithoutExcluded(data, l))
  {
    var data, l, s := GapImage(), Layout(152, 216, 352, 0, 0, 312, 1), [Range(400, 10)];
    GapLayout();
    GapSections();
    OneSection(s[0]);
    SectionsOf(data, l, s);
    GapBefore(l, s[0], 410);
    assert |data| == 410;
    hide *;
    HashCoversAllButExcluded(data);
  }

  // ---- A table between two sections ----

  /** Sections at 392 and 416, the certificate table between them, and four bytes behind the last section. */
  function TailImage(): (data: seq<byte>)
    ensures |data| == 430
  {
    seq(430, i requires i >= 0 =>
      match i
      case 216 => 0x90
      case 217 => 0x01
      case 220 => 16
      case 328 => 8
      case 332 => 0x88
      case 333 => 0x01
      case 368 => 10
      case 372 => 0xA0
      case 373 => 0x01
      case _ => HeaderByte(i, 2, 392))
  }

  lemma TailLayout()
    ensures FindLayout(TailImage()) == Some(Layout(152, 216, 392, 400, 16, 312, 2))
  {
    var data := TailImage();
    assert HasFields(data, 2, 392, 400, 16);
    hide HasFields, TailImage, FindLayout;
    LayoutOf(data, 2, 392, 400, 16);
  }

  lemma TailSections()
    ensures Sections(TailImage(), 312, 0, 2) == Some([Range(392, 8), Range(416, 10)])
  {
    var data := TailImage();
    assert ReadU32(data, 328) == 8 && ReadU32(data, 332) == 392;
    assert ReadU32(data, 368) == 10 && ReadU32(data, 372) == 416;
    assert Sections(data, 312, 2, 2) == Some([]);
    hide ReadU32;
    assert Sections(data, 312, 1, 2) == Some([Range(416, 10)]) by { assert [Range(416, 10)] + [] == [Range(416, 10)]; }
    assert [Range(392, 8)] + [Range(416, 10)] == [Range(392, 8), Range(416, 10)];
  }

  lemma TwoSections(a: Range, b: Range)
    requires a.offset <= b.offset
    ensures Sorted([a, b]) == [a, b]
  {
    OneSection(b);
    assert [a, b][1..] == [b] && [a] + [b] == [a, b];
  }

  /** An accepted image whose digest leaves out what follows its last section, with the table before that one. */
  lemma TailIsNotHashed()
    ensures var data, l := TailImage(), Layout(152, 216, 392, 400, 16, 312, 2);
            && HashedBytes(data).Some? && FindLayout(data) == Some(l)
            && TableBefore(l, SortedSections(data), 1)
            && HashedBytes(data) != Some(WithoutExcluded(data, l))
  {
    var data, l := TailImage(), Layout(152, 216, 392, 400, 16, 312, 2);
    var s := [Range(392, 8), Range(416, 10)];
    TailLayout();
    TailSections();
    TwoSections(s[0], s[1]);
    SectionsOf(data, l, s);
    hide FindLayout, Sections, Sorted, TailImage, HashedBytes, WithoutExcluded, SortedSections;
    assert s[..1] == [s[0]] && s[1..] == [s[1]] && [s[0]][..0] == [] && [s[1]][..0] == [];
    assert TableBefore(l, s, 1) && !ReachesAround(l, s, 1, 430);
    hide TableBefore, ReachesAround;
    HashCoversAroundTable(data, 1);
  }

  // ---- A PE32+ image ----

  /** One section of ten bytes right behind the headers. */
  function PlusImage(): (data: seq<byte>)
    ensures |data| == 378
  {
    seq(378, i requires i >= 0 =>
      match i
      case 84 => 240
      case 89 => 0x02
      case 344 => 10
      case 348 => 0x70
      case 349 => 0x01
      case _ => HeaderByte(i, 1, 368))
  }

  lemma PlusSignature()
    ensures var data := PlusImage();
            && data[0] == 0x4D && data[1] == 0x5A && ReadU32(data, 0x3C) == 64
            && data[64] == 0x50 && data[65] == 0x45 && data[66] == 0 && data[67] == 0
            && ReadU16(data, 70) == 1 && ReadU16(data, 84) == 240 && ReadU16(data, 88) == 0x20b
  {}

  lemma PlusFields()
    ensures var data := PlusImage();
            && ReadU32(data, 148) == 368 && ReadU32(data, 232) == 0 && ReadU32(data, 236) == 0
            && ReadU32(data, 344) == 10 && ReadU32(data, 348) == 368
  {}

  lemma PlusLayout()
    ensures FindLayout(PlusImage()) == Some(Layout(152, 232, 368, 0, 0, 328, 1))
    ensures Sections(PlusImage(), 328, 0, 1) == Some([Range(368, 10)])
  {
    var data := PlusImage();
    PlusSignature();
    PlusFields();
    hide ReadU16, ReadU32, PlusImage;
    assert FindOptionalHeader(data) == Some(OptionalHeader(64, 88, 240, 112));
    hide FindOptionalHeader;
    assert Sections(data, 328, 1, 1) == Some([]);
    assert [Range(368, 10)] + [] == [Range(368, 10)];
  }

  lemma NothingBetween(l: Layout, r: Range, size: nat)
    requires l.headers == r.offset && l.certSize == 0
    ensures TableBehind(l, [r], size) && Tiles([r], l.headers)
  {
    assert [r][..0] == [];
  }

  /** The digest of a 64-bit image leaves out the four bytes of CheckSum and the eight of the certificate entry at the
      places PE32+ has them, and nothing else. */
  lemma PlusIsCovered()
    ensures var data, l := PlusImage(), Layout(152, 232, 368, 0, 0, 328, 1);
            && HashedBytes(data).Some? && FindLayout(data) == Some(l)
            && HashedBytes(data) == Some(data[..152] + data[156..232] + data[240..])
  {
    var data, l, s := PlusImage(), Layout(152, 232, 368, 0, 0, 328, 1), [Range(368, 10)];
    PlusLayout();
    OneSection(s[0]);
    SectionsOf(data, l, s);
    NothingBetween(l, s[0], 378);
    assert |data| == 378;
    assert WithoutExcluded(data, l) == data[..152] + data[156..232] + data[240..];
    hide *;
    HashCoversAllButExcluded(data);
  }
}
