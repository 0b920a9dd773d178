/** Building and parsing access control lists (src/engines/self_defense.cpp). The layouts are those of
    ACL and ACE_HEADER, sections 2.4.5 and 2.4.4.1 of MS-DTYP. */
module SelfDefenseAcl {
  import opened Common
  import opened Decimal

  const ACL_HEADER: nat := 8
  const ACE_HEADER: nat := 4
  const ACCESS_MASK: nat := 4
  const DENY_ACE: nat := 20
  const ACCESS_DENIED_ACE_TYPE: byte := 1
  const ACL_REVISION: byte := 2

  datatype AclEntry = AclEntry(aceType: byte, mask: u32)

  function Bytes16(x: u16): (bs: seq<byte>)
    ensures |bs| == 2 && ReadU16(bs, 0) == x
  {
    [x % 0x100, x / 0x100]
  }

  function Bytes32(x: u32): (bs: seq<byte>)
    ensures |bs| == 4 && ReadU32(bs, 0) == x
  {
    Bytes16(x % 0x1_0000) + Bytes16(x / 0x1_0000)
  }

  /** AceSize, AceCount and AclSize where the layouts put them. */
  function AclSize(acl: seq<byte>): u16 requires |acl| >= ACL_HEADER { ReadU16(acl, 2) }
  function AceCount(acl: seq<byte>): u16 requires |acl| >= ACL_HEADER { ReadU16(acl, 4) }

  // ---- Parsing ----

  /** The next n entries from `offset`; a truncated or undersized one ends the list. */
  function EntriesFrom(acl: seq<byte>, offset: nat, n: nat): seq<AclEntry>
    decreases n
  {
    if n == 0 || !HasEntry(acl, offset) then []
    else [EntryAt(acl, offset)] + EntriesFrom(acl, offset + ReadU16(acl, offset + 2), n - 1)
  }

  function Entries(acl: seq<byte>): seq<AclEntry> {
    if |acl| < ACL_HEADER then [] else EntriesFrom(acl, ACL_HEADER, AceCount(acl))
  }

  /** Whether a well-formed entry lies at `offset`. */
  predicate HasEntry(acl: seq<byte>, offset: nat) {
    && offset + ACE_HEADER <= |acl|
    && ReadU16(acl, offset + 2) >= ACE_HEADER + ACCESS_MASK && offset + ReadU16(acl, offset + 2) <= |acl|
  }

  function EntryAt(acl: seq<byte>, offset: nat): AclEntry
    requires HasEntry(acl, offset)
  {
    AclEntry(acl[offset], ReadU32(acl, offset + ACE_HEADER))
  }

  /** What EntriesFrom does with one more entry, on a list already begun. */
  lemma EntriesStep(acl: seq<byte>, offset: nat, n: nat, entries: seq<AclEntry>)
    ensures n == 0 || !HasEntry(acl, offset) ==> entries + EntriesFrom(acl, offset, n) == entries
    ensures n > 0 && HasEntry(acl, offset) ==>
              entries + EntriesFrom(acl, offset, n) ==
              entries + [EntryAt(acl, offset)] + EntriesFrom(acl, offset + ReadU16(acl, offset + 2), n - 1)
  {
    hide ReadU16, ReadU32, EntryAt;
  }

  method ParseAclEntries(acl: seq<byte>) returns (entries: seq<AclEntry>)
    ensures entries == Entries(acl)
  {
    entries := [];
    if |acl| < ACL_HEADER { return; }
    var offset: nat := ACL_HEADER;
    var count: nat := AceCount(acl);
    ghost var all := EntriesFrom(acl, offset, count);
    assert Entries(acl) == all;
    hide ReadU16, ReadU32, EntryAt, EntriesFrom, Entries;
    assert entries + all == all;
    for i := 0 to count
      invariant entries + EntriesFrom(acl, offset, count - i) == all
    {
      EntriesStep(acl, offset, count - i, entries);
      if !HasEntry(acl, offset) { return; }
      entries, offset := entries + [EntryAt(acl, offset)], offset + ReadU16(acl, offset + 2);
    }
    EntriesStep(acl, offset, 0, entries);
  }

  // ---- Building ----

  /** The security identifier of Everyone, S-1-1-0. */
  const EVERYONE_SID: seq<byte> := [1, 1, 0, 0, 0, 0, 0, 1, 0, 0, 0, 0]

  function DenyAce(mask: u32): (ace: seq<byte>)
    ensures |ace| == DENY_ACE
  {
    [ACCESS_DENIED_ACE_TYPE, 0] + Bytes16(DENY_ACE) + Bytes32(mask) + EVERYONE_SID
  }

  /** The lists that can be extended: a header whose size field is the real size, room for one more entry
      in the count and for its bytes in the size. */
  predicate Accepts(existing: seq<byte>) {
    && |existing| >= ACL_HEADER && AclSize(existing) == |existing|
    && AceCount(existing) != 0xFFFF && |existing| + DENY_ACE <= 0xFFFF
  }

  function Header(size: u16, count: u16): (h: seq<byte>)
    ensures |h| == ACL_HEADER
  {
    [ACL_REVISION, 0] + Bytes16(size) + Bytes16(count) + [0, 0]
  }

  function WithDeny(existing: seq<byte>, mask: u32): seq<byte>
    requires Accepts(existing)
  {
    Header(|existing| + DENY_ACE, AceCount(existing) + 1) + DenyAce(mask) + existing[ACL_HEADER..]
  }

  /** Copies bytes into the buffer; what lies before them stays. */
  method Put(buffer: array<byte>, offset: nat, bytes: seq<byte>)
    requires offset + |bytes| <= buffer.Length
    modifies buffer
    ensures buffer[..offset + |bytes|] == old(buffer[..offset]) + bytes
  {
    forall k | 0 <= k < |bytes| { buffer[offset + k] := bytes[k]; }
  }

  /** The three copies into a new buffer. */
  method Assemble(header: seq<byte>, ace: seq<byte>, rest: seq<byte>) returns (acl: seq<byte>)
    ensures acl == header + ace + rest
  {
    var buffer := new byte[|header| + |ace| + |rest|](_ => 0);
    Put(buffer, 0, header);
    assert buffer[..|header|] == header;
    var offset := |header|;
    Put(buffer, offset, ace);
    assert buffer[..offset + |ace|] == header + ace;
    offset := offset + |ace|;
    Put(buffer, offset, rest);
    assert buffer[..] == buffer[..offset + |rest|];
    acl := buffer[..];
  }

  /** An empty result refuses the list. */
  method BuildAclWithPrependedDeny(existing: seq<byte>, mask: u32) returns (acl: seq<byte>)
    ensures acl == if Accepts(existing) then WithDeny(existing, mask) else []
  {
    if |existing| < ACL_HEADER { return []; }
    if AclSize(existing) != |existing| { return []; }
    if AceCount(existing) == 0xFFFF { return []; }
    var totalSize := |existing| + DENY_ACE;
    if totalSize > 0xFFFF { return []; }
    hide ReadU16, Header, DenyAce, Bytes16, Bytes32;
    acl := Assemble(Header(totalSize, AceCount(existing) + 1), DenyAce(mask), existing[ACL_HEADER..]);
  }

  // ---- What parsing the result gives ----

  /** b holds a's bytes from `offset` on, d places later. */
  ghost predicate Moved(a: seq<byte>, b: seq<byte>, offset: nat, d: nat) {
    |b| == |a| + d && offset <= |a| && b[d + offset..] == a[offset..]
  }

  lemma MovedAt(a: seq<byte>, b: seq<byte>, offset: nat, d: nat, k: nat)
    requires Moved(a, b, offset, d) && offset + k <= |a|
    ensures Moved(a, b, offset + k, d)
    ensures offset + k < |a| ==> b[d + (offset + k)] == a[offset + k]
  {
    assert a[offset..][k..] == a[offset + k..] && b[d + offset..][k..] == b[d + offset + k..];
    if offset + k < |a| { assert a[offset..][k] == b[d + offset..][k]; }
  }

  lemma MovedFields(a: seq<byte>, b: seq<byte>, offset: nat, d: nat, k: nat)
    requires Moved(a, b, offset, d)
    ensures offset + k + 2 <= |a| ==> ReadU16(b, d + offset + k) == ReadU16(a, offset + k)
    ensures offset + k + 4 <= |a| ==> ReadU32(b, d + offset + k) == ReadU32(a, offset + k)
  {
    if offset + k + 2 <= |a| {
      MovedAt(a, b, offset, d, k);
      MovedAt(a, b, offset, d, k + 1);
    }
    if offset + k + 4 <= |a| {
      MovedAt(a, b, offset, d, k + 2);
      MovedAt(a, b, offset, d, k + 3);
    }
  }

  /** Entries are read the same wherever their bytes lie. */
  lemma {:induction false} EntriesMoved(a: seq<byte>, b: seq<byte>, offset: nat, n: nat, d: nat)
    requires Moved(a, b, offset, d)
    ensures EntriesFrom(b, offset + d, n) == EntriesFrom(a, offset, n)
    decreases n
  {
    EntryMoved(a, b, offset, d);
    hide ReadU16, ReadU32, EntryAt, HasEntry;
    if n > 0 && HasEntry(a, offset) {
      EntriesMoved(a, b, offset + ReadU16(a, offset + 2), n - 1, d);
    }
  }

  lemma EntryMoved(a: seq<byte>, b: seq<byte>, offset: nat, d: nat)
    requires Moved(a, b, offset, d)
    ensures HasEntry(b, offset + d) <==> HasEntry(a, offset)
    ensures HasEntry(a, offset) ==>
              && EntryAt(b, offset + d) == EntryAt(a, offset)
              && ReadU16(b, offset + d + 2) == ReadU16(a, offset + 2)
              && Moved(a, b, offset + ReadU16(a, offset + 2), d)
  {
    MovedFields(a, b, offset, d, 2);
    hide ReadU16, ReadU32;
    if HasEntry(a, offset) {
      MovedAt(a, b, offset, d, 0);
      MovedFields(a, b, offset, d, 4);
      MovedAt(a, b, offset, d, ReadU16(a, offset + 2));
    }
  }

  /** Parsing the built list gives the deny entry with the requested mask, then exactly what parsing the
      original gives, even where the original is cut short; and the new fields say what the list holds. */
  lemma BuiltListParses(existing: seq<byte>, mask: u32)
    requires Accepts(existing)
    ensures var acl := WithDeny(existing, mask);
            && Entries(acl) == [AclEntry(ACCESS_DENIED_ACE_TYPE, mask)] + Entries(existing)
            && AclSize(acl) == |acl| == |existing| + DENY_ACE
            && AceCount(acl) == AceCount(existing) + 1
  {
    var acl := WithDeny(existing, mask);
    var header := Header(|existing| + DENY_ACE, AceCount(existing) + 1);
    assert acl[2] == header[2] && acl[3] == header[3] && acl[4] == header[4] && acl[5] == header[5];
    assert ReadU16(acl, 2) == ReadU16(Bytes16(|existing| + DENY_ACE), 0);
    assert ReadU16(acl, 4) == ReadU16(Bytes16(AceCount(existing) + 1), 0);
    DenyAceParses(acl, mask);
    assert Moved(existing, acl, ACL_HEADER, DENY_ACE);
    EntriesMoved(existing, acl, ACL_HEADER, AceCount(existing), DENY_ACE);
  }

  lemma DenyAceParses(acl: seq<byte>, mask: u32)
    requires |acl| >= ACL_HEADER + DENY_ACE && acl[ACL_HEADER..ACL_HEADER + DENY_ACE] == DenyAce(mask)
    ensures acl[ACL_HEADER] == ACCESS_DENIED_ACE_TYPE && ReadU16(acl, ACL_HEADER + 2) == DENY_ACE
    ensures ReadU32(acl, ACL_HEADER + ACE_HEADER) == mask
  {
    var ace := acl[ACL_HEADER..ACL_HEADER + DENY_ACE];
    assert forall k :: 0 <= k < 8 ==> acl[ACL_HEADER + k] == ace[k];
    assert ace[2] == Bytes16(DENY_ACE)[0] && ace[3] == Bytes16(DENY_ACE)[1];
    var m := Bytes32(mask);
    assert ace[4] == m[0] && ace[5] == m[1] && ace[6] == m[2] && ace[7] == m[3];
    assert ReadU32(acl, 12) == ReadU32(m, 0);
  }

  /** The result can be extended again, as long as its size and count leave room. */
  lemma BuiltListIsAccepted(existing: seq<byte>, mask: u32)
    requires Accepts(existing)
    ensures Accepts(WithDeny(existing, mask)) <==> |existing| + 2 * DENY_ACE <= 0xFFFF && AceCount(existing) < 0xFFFE
  {
    BuiltListParses(existing, mask);
  }

  // ---- The deny entry, field by field ----

  /** The text of a security identifier (section 2.4.2.1 of MS-DTYP), from its packet form (section 2.4.2.2): revision,
      number of sub-authorities, an authority of six octets in big-endian order, sub-authorities of four octets in
      little-endian order. */
  function SidText(sid: seq<byte>): Option<string> {
    if |sid| < 8 || sid[0] != 1 || |sid| != 8 + 4 * sid[1] as int then None
    else
      var authority := sid[7] + 0x100 * sid[6] as int + 0x1_0000 * sid[5] as int + 0x100_0000 * sid[4] as int
                       + 0x1_0000_0000 * sid[3] as int + 0x100_0000_0000 * sid[2] as int;
      Some("S-1-" + ToString(authority) + SubAuthorities(sid[8..]))
  }

  function SubAuthorities(rest: seq<byte>): string {
    if |rest| < 4 then "" else "-" + ToString(ReadU32(rest, 0)) + SubAuthorities(rest[4..])
  }

  /** The entry denies to Everyone: type 0, the flags 0 of ACCESS_DENIED_ACE (sections 2.4.4.1 and 2.4.4.4), a size that
      is its own, the mask, and the security identifier S-1-1-0. The list's revision is 2 (section 2.4.5). */
  lemma DenyEntryIsForEveryone(mask: u32, size: u16, count: u16)
    ensures var ace := DenyAce(mask);
            && ace[0] == 0x01 && ace[1] == 0x00 && ReadU16(ace, 2) == |ace| && ReadU32(ace, 4) == mask
            && SidText(ace[8..]) == Some("S-1-1-0")
    ensures var header := Header(size, count);
            |header| == 8 && header[0] == 0x02 && ReadU16(header, 2) == size && ReadU16(header, 4) == count
  {
    var ace := DenyAce(mask);
    assert ace[8..] == EVERYONE_SID;
    assert ReadU16(ace, 2) == ReadU16(Bytes16(DENY_ACE), 0) && ReadU32(ace, 4) == ReadU32(Bytes32(mask), 0);
    EveryoneText();
    var header := Header(size, count);
    assert ReadU16(header, 2) == ReadU16(Bytes16(size), 0) && ReadU16(header, 4) == ReadU16(Bytes16(count), 0);
  }

  lemma EveryoneText()
    ensures SidText(EVERYONE_SID) == Some("S-1-1-0")
  {
    var rest := EVERYONE_SID[8..];
    assert rest == [0, 0, 0, 0] && rest[4..] == [];
    assert ToString(0) == "0" && ToString(1) == "1";
    assert SubAuthorities([]) == "";
    assert SubAuthorities(rest) == "-" + "0" + "";
    assert "S-1-" + "1" + ("-" + "0" + "") == "S-1-1-0";
  }

  // ---- Any list of entries ----

  /** An entry as it is written: type, flags, size, mask, and what follows the mask. */
  datatype Ace = Ace(aceType: byte, flags: byte, mask: u32, trustee: seq<byte>) {
    predicate Valid() { 8 + |trustee| <= 0xFFFF }
  }

  function WriteAce(a: Ace): (bs: seq<byte>)
    requires a.Valid()
    ensures |bs| == 8 + |a.trustee|
  {
    [a.aceType, a.flags] + Bytes16(8 + |a.trustee|) + Bytes32(a.mask) + a.trustee
  }

  function WriteAces(aces: seq<Ace>): seq<byte>
    requires forall i :: 0 <= i < |aces| ==> aces[i].Valid()
  {
    if |aces| == 0 then [] else WriteAce(aces[0]) + WriteAces(aces[1..])
  }

  function Seen(aces: seq<Ace>): (entries: seq<AclEntry>)
    ensures |entries| == |aces|
  {
    if |aces| == 0 then [] else [AclEntry(aces[0].aceType, aces[0].mask)] + Seen(aces[1..])
  }

  lemma AceReads(front: seq<byte>, a: Ace, rest: seq<byte>)
    requires a.Valid()
    ensures var data := front + WriteAce(a) + rest;
            && HasEntry(data, |front|) && EntryAt(data, |front|) == AclEntry(a.aceType, a.mask)
            && ReadU16(data, |front| + 2) == 8 + |a.trustee|
  {
    var ace := WriteAce(a);
    var data := front + ace + rest;
    assert ReadU16(ace, 2) == ReadU16(Bytes16(8 + |a.trustee|), 0) && ReadU32(ace, 4) == ReadU32(Bytes32(a.mask), 0);
    assert forall i :: 0 <= i < 8 ==> data[|front| + i] == ace[i];
    hide WriteAce, Bytes16, Bytes32;
    assert ReadU16(data, |front| + 2) == ReadU16(ace, 2) && ReadU32(data, |front| + 4) == ReadU32(ace, 4);
  }

  /** Entries that were written are read back, as many as the count says. */
  lemma {:induction false} WrittenEntriesParse(front: seq<byte>, aces: seq<Ace>, rest: seq<byte>)
    requires forall i :: 0 <= i < |aces| ==> aces[i].Valid()
    ensures EntriesFrom(front + WriteAces(aces) + rest, |front|, |aces|) == Seen(aces)
    decreases |aces|
  {
    hide ReadU16, ReadU32, EntryAt, HasEntry, WriteAce;
    if |aces| > 0 {
      var ace, others := WriteAce(aces[0]), WriteAces(aces[1..]);
      Regroup(front, ace, others);
      Regroup(front + ace, others, rest);
      AceReads(front, aces[0], others + rest);
      WrittenEntriesParse(front + ace, aces[1..], rest);
    }
  }

  /** An entry whose size does not cover its header and mask, or that is cut off, ends the list. */
  lemma BadEntryEnds(data: seq<byte>, offset: nat, n: nat)
    requires offset + 4 > |data| || ReadU16(data, offset + 2) < 8 || offset + ReadU16(data, offset + 2) > |data|
    ensures EntriesFrom(data, offset, n) == []
  {}

  /** The lists that are extended: eight bytes or more, as many as the size field says, with at most 65534 entries and
      room for twenty bytes more below 65536. Any other comes back empty. */
  lemma AcceptedLists(existing: seq<byte>)
    ensures Accepts(existing) <==>
              && |existing| >= 8 && ReadU16(existing, 2) == |existing|
              && ReadU16(existing, 4) <= 65534 && |existing| + 20 <= 65535
  {}
}
