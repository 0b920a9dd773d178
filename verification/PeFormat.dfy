/** The headers of a PE image as lists of fields, from the PE format, and the offsets that
    src/security/pe_authenticode_hash.cpp uses. */
module PeFormat {
  import opened Common
  import opened PeAuthenticodeHash

  datatype Name =
    // MS-DOS header
    | DosMagic | DosFields | NewHeaderOffset
    // COFF file header
    | Machine | NumberOfSections | TimeDateStamp | PointerToSymbolTable | NumberOfSymbols | SizeOfOptionalHeader
    | Characteristics
    // optional header
    | Magic | LinkerVersion | SizeOfCode | SizeOfInitializedData | SizeOfUninitializedData | AddressOfEntryPoint
    | BaseOfCode | BaseOfData | ImageBase | SectionAlignment | FileAlignment | OperatingSystemVersion | ImageVersion
    | SubsystemVersion | Win32VersionValue | SizeOfImage | SizeOfHeaders | CheckSum | Subsystem | DllCharacteristics
    | SizeOfStackReserve | SizeOfStackCommit | SizeOfHeapReserve | SizeOfHeapCommit | LoaderFlags
    | NumberOfRvaAndSizes
    // data directories
    | ExportTable | ImportTable | ResourceTable | ExceptionTable | CertificateTable | OtherDirectories
    // section header
    | SectionName | VirtualSize | VirtualAddress | SizeOfRawData | PointerToRawData | RelocationsAndLineNumbers
    // WIN_CERTIFICATE
    | CertificateLength | CertificateRevision | CertificateType

  /** A field, where it starts and how long it is. */
  datatype Field = Field(name: Name, offset: nat, size: nat) {
    function End(): nat { offset + size }
  }

  /** Each field starts where the one before it ends. */
  ghost predicate Spans(fields: seq<Field>, start: nat, end: nat) {
    && |fields| > 0 && fields[0].offset == start && fields[|fields| - 1].End() == end
    && forall i :: 0 < i < |fields| ==> fields[i].offset == fields[i - 1].End()
  }

  lemma SpansJoin(a: seq<Field>, b: seq<Field>, start: nat, middle: nat, end: nat)
    requires Spans(a, start, middle) && Spans(b, middle, end)
    ensures Spans(a + b, start, end)
  {
    var all := a + b;
    forall i | 0 < i < |all| ensures all[i].offset == all[i - 1].End() {
      if i > |a| { assert all[i] == b[i - |a|] && all[i - 1] == b[i - |a| - 1]; }
    }
  }

  const DOS: seq<Field> := [Field(DosMagic, 0, 2), Field(DosFields, 2, 58), Field(NewHeaderOffset, 60, 4)]

  const COFF: seq<Field> := [
    Field(Machine, 0, 2), Field(NumberOfSections, 2, 2), Field(TimeDateStamp, 4, 4), Field(PointerToSymbolTable, 8, 4),
    Field(NumberOfSymbols, 12, 4), Field(SizeOfOptionalHeader, 16, 2), Field(Characteristics, 18, 2)]

  const STANDARD: seq<Field> := [
    Field(Magic, 0, 2), Field(LinkerVersion, 2, 2), Field(SizeOfCode, 4, 4), Field(SizeOfInitializedData, 8, 4),
    Field(SizeOfUninitializedData, 12, 4), Field(AddressOfEntryPoint, 16, 4), Field(BaseOfCode, 20, 4)]

  const WINDOWS: seq<Field> := [
    Field(SectionAlignment, 32, 4), Field(FileAlignment, 36, 4), Field(OperatingSystemVersion, 40, 4),
    Field(ImageVersion, 44, 4), Field(SubsystemVersion, 48, 4), Field(Win32VersionValue, 52, 4),
    Field(SizeOfImage, 56, 4), Field(SizeOfHeaders, 60, 4), Field(CheckSum, 64, 4), Field(Subsystem, 68, 2),
    Field(DllCharacteristics, 70, 2)]

  function Directories(at: nat): seq<Field> {
    [Field(ExportTable, at, 8), Field(ImportTable, at + 8, 8), Field(ResourceTable, at + 16, 8),
     Field(ExceptionTable, at + 24, 8), Field(CertificateTable, at + 32, 8), Field(OtherDirectories, at + 40, 11 * 8)]
  }

  function Addresses(plus: bool): seq<Field> {
    if plus then [Field(ImageBase, 24, 8)] else [Field(BaseOfData, 24, 4), Field(ImageBase, 28, 4)]
  }

  function Memory(plus: bool): seq<Field> {
    if plus then
      [Field(SizeOfStackReserve, 72, 8), Field(SizeOfStackCommit, 80, 8), Field(SizeOfHeapReserve, 88, 8),
       Field(SizeOfHeapCommit, 96, 8), Field(LoaderFlags, 104, 4), Field(NumberOfRvaAndSizes, 108, 4)]
    else
      [Field(SizeOfStackReserve, 72, 4), Field(SizeOfStackCommit, 76, 4), Field(SizeOfHeapReserve, 80, 4),
       Field(SizeOfHeapCommit, 84, 4), Field(LoaderFlags, 88, 4), Field(NumberOfRvaAndSizes, 92, 4)]
  }

  /** The optional header of a PE32 image; in a PE32+ image BaseOfData is missing and five fields are eight bytes
      wide. */
  function OptionalFields(plus: bool): seq<Field> {
    STANDARD + Addresses(plus) + WINDOWS + Memory(plus) + Directories(if plus then 112 else 96)
  }

  const SECTION: seq<Field> := [
    Field(SectionName, 0, 8), Field(VirtualSize, 8, 4), Field(VirtualAddress, 12, 4), Field(SizeOfRawData, 16, 4),
    Field(PointerToRawData, 20, 4), Field(RelocationsAndLineNumbers, 24, 12), Field(Characteristics, 36, 4)]

  const WIN_CERTIFICATE: seq<Field> := [
    Field(CertificateLength, 0, 4), Field(CertificateRevision, 4, 2), Field(CertificateType, 6, 2)]

  lemma SmallTables()
    ensures Spans(DOS, 0, 64) && Spans(COFF, 0, 20) && Spans(SECTION, 0, 40) && Spans(WIN_CERTIFICATE, 0, 8)
  {}

  lemma FixedParts()
    ensures Spans(STANDARD, 0, 24) && Spans(WINDOWS, 32, 72)
  {}

  lemma WideParts(plus: bool)
    ensures Spans(Addresses(plus), 24, 32) && Spans(Memory(plus), 72, if plus then 112 else 96)
  {}

  lemma DirectoryPart(base: nat)
    ensures Spans(Directories(base), base, base + 128)
  {}

  lemma FiveSpans(a: seq<Field>, b: seq<Field>, c: seq<Field>, d: seq<Field>, e: seq<Field>, base: nat)
    requires Spans(a, 0, 24) && Spans(b, 24, 32) && Spans(c, 32, 72) && Spans(d, 72, base) && Spans(e, base, base + 128)
    ensures Spans(a + b + c + d + e, 0, base + 128)
  {
    hide Spans;
    SpansJoin(a, b, 0, 24, 32);
    SpansJoin(a + b, c, 0, 32, 72);
    SpansJoin(a + b + c, d, 0, 72, base);
    SpansJoin(a + b + c + d, e, 0, base, base + 128);
  }

  /** The tables have no gaps, and a full optional header has 224 bytes, or 240. */
  lemma TablesAreContiguous(plus: bool)
    ensures Spans(DOS, 0, 64) && Spans(COFF, 0, 20) && Spans(SECTION, 0, 40) && Spans(WIN_CERTIFICATE, 0, 8)
    ensures Spans(OptionalFields(plus), 0, if plus then 240 else 224)
  {
    var base := if plus then 112 else 96;
    hide Spans, Addresses, Memory, Directories;
    SmallTables();
    FixedParts();
    WideParts(plus);
    DirectoryPart(base);
    FiveSpans(STANDARD, Addresses(plus), WINDOWS, Memory(plus), Directories(base), base);
  }

  // ---- What the reader uses ----

  /** name is a field of `size` bytes at `at`, in a table that starts at `base`. */
  predicate Is(fields: seq<Field>, name: Name, base: nat, at: nat, size: nat) {
    base <= at && Field(name, at - base, size) in fields
  }

  /** Where the headers of an image lie, by the format. */
  datatype Place = Place(coff: nat, optional: nat, plus: bool)

  /** The NT headers are where the MS-DOS header says, behind a signature of four bytes. */
  ghost predicate IsPlace(data: seq<byte>, p: Place) {
    && |data| >= 64 && Is(DOS, NewHeaderOffset, 0, 60, 4)
    && p.coff == ReadU32(data, 60) + 4 && p.optional == p.coff + 20 && p.optional + 2 <= |data|
    && ReadU16(data, p.optional) == if p.plus then 0x20b else 0x10b
  }

  /** Every field that the layout of an accepted image comes from is the one the format has there, in PE32 and PE32+
      images. */
  lemma LayoutFollowsFormat(data: seq<byte>)
    requires FindLayout(data).Some?
    ensures var l, p := FindLayout(data).value, PlaceOf(data);
            var fields := OptionalFields(p.plus);
            && IsPlace(data, p)
            && Is(fields, CheckSum, p.optional, l.checksum, 4)
            && Is(fields, CertificateTable, p.optional, l.securityDir, 8)
            && l.certOffset == ReadU32(data, l.securityDir) && l.certSize == ReadU32(data, l.securityDir + 4)
            && Is(fields, SizeOfHeaders, p.optional, p.optional + 60, 4)
            && l.headers == ReadU32(data, p.optional + 60)
            && Is(COFF, NumberOfSections, p.coff, p.coff + 2, 2) && l.sectionCount == ReadU16(data, p.coff + 2)
            && Is(COFF, SizeOfOptionalHeader, p.coff, p.coff + 16, 2)
            && l.sectionTable == p.optional + ReadU16(data, p.coff + 16)
  {
    hide ReadU16, ReadU32;
  }

  function PlaceOf(data: seq<byte>): Place
    requires FindOptionalHeader(data).Some?
  {
    var h := FindOptionalHeader(data).value;
    Place(h.peOffset + 4, h.offset, ReadU16(data, h.offset) == 0x20b)
  }

  /** So with sixteen directories, which makes the optional header 224 bytes long, or 240 in PE32+, the section table
      follows twelve directory entries of eight bytes after the start of the certificate entry. */
  lemma TableFollowsDirectories(data: seq<byte>)
    requires FindLayout(data).Some?
    requires var p := PlaceOf(data); ReadU16(data, p.coff + 16) == if p.plus then 240 else 224
    ensures FindLayout(data).value.securityDir + 12 * 8 == FindLayout(data).value.sectionTable
  {
    hide ReadU32;
  }

  // ---- Extraction ----

  /** entry is where the format has the certificate entry of this image. */
  ghost predicate IsCertificateEntry(data: seq<byte>, entry: nat)
    requires FindOptionalHeader(data).Some?
  {
    Is(OptionalFields(PlaceOf(data).plus), CertificateTable, PlaceOf(data).optional, entry, 8)
  }

  /** The entry names a table within the file that starts with a WIN_CERTIFICATE of PKCS#7 SignedData, and blob is what
      follows its fields. */
  ghost predicate HoldsBlob(data: seq<byte>, entry: nat, blob: seq<byte>) {
    && entry + 8 <= |data|
    && var at, size := ReadU32(data, entry), ReadU32(data, entry + 4);
    && size >= 8 && at + size <= |data|
    && Is(WIN_CERTIFICATE, CertificateLength, at, at, 4) && Is(WIN_CERTIFICATE, CertificateType, at, at + 6, 2)
    && var length := ReadU32(data, at);
    && 8 <= length <= size && ReadU16(data, at + 6) == 0x0002
    && blob == data[at + 8..at + length]
  }

  lemma EntryIs(data: seq<byte>, entry: nat)
    requires FindOptionalHeader(data).Some? && IsCertificateEntry(data, entry)
    ensures var h := FindOptionalHeader(data).value; entry == h.offset + h.dataDirBase + 4 * 8
  {
    hide ReadU32;
  }

  lemma CertificateFields(at: nat)
    ensures Is(WIN_CERTIFICATE, CertificateLength, at, at, 4) && Is(WIN_CERTIFICATE, CertificateType, at, at + 6, 2)
  {}

  lemma BlobIsHeld(data: seq<byte>, entry: nat, blob: seq<byte>)
    ensures BlobAt(data, entry) == Some(blob) <==> HoldsBlob(data, entry, blob)
  {
    if entry + 8 <= |data| { CertificateFields(ReadU32(data, entry)); }
    hide ReadU16, ReadU32, Is;
  }

  /** A blob is extracted exactly when the image holds it there. */
  lemma ExtractionFollowsFormat(data: seq<byte>, entry: nat, blob: seq<byte>)
    requires FindOptionalHeader(data).Some? && IsCertificateEntry(data, entry)
    ensures ExtractAuthenticodeSignature(data) == Some(blob) <==> HoldsBlob(data, entry, blob)
  {
    EntryIs(data, entry);
    hide FindOptionalHeader, BlobAt, HoldsBlob, IsCertificateEntry;
    BlobIsHeld(data, entry, blob);
  }

  // ---- Sections ----

  /** The raw range of section i, by the format. */
  function RawRange(data: seq<byte>, table: nat, i: nat): Range
    requires table + (i + 1) * 40 <= |data|
  {
    var header := table + i * 40;
    Range(ReadU32(data, header + 20), ReadU32(data, header + 16))
  }

  lemma RawRangeFollowsFormat(table: nat, i: nat)
    ensures var header := table + i * 40;
            Is(SECTION, PointerToRawData, header, header + 20, 4) && Is(SECTION, SizeOfRawData, header, header + 16, 4)
  {}

  /** The sections of an image are exactly the raw ranges that are not empty, and there are none to speak of exactly
      when one of them leaves the file. */
  lemma {:induction false} SectionsAreRawRanges(data: seq<byte>, table: nat, i: nat, n: nat)
    requires i <= n && table + n * 40 <= |data|
    ensures Sections(data, table, i, n).Some? <==>
              forall k :: i <= k < n ==>
                RawRange(data, table, k).length == 0 || RawRange(data, table, k).End() <= |data|
    ensures Sections(data, table, i, n).Some? ==>
              forall r :: r in Sections(data, table, i, n).value <==>
                          r.length > 0 && exists k :: i <= k < n && r == RawRange(data, table, k)
    decreases n - i
  {
    hide ReadU32;
    if i < n {
      SectionsAreRawRanges(data, table, i + 1, n);
      var first, rest := RawRange(data, table, i), Sections(data, table, i + 1, n);
      assert Sections(data, table, i, n) ==
        if first.length == 0 then rest else if first.End() > |data| || rest.None? then None
        else Some([first] + rest.value);
    }
  }
}
