/** DER as sections 8.1 and 8.19 of X.690 write it, and the reader of src/security/asn1.cpp on what was
    written. */
module DerWriter {
  import opened Common
  import opened Octets
  import opened Asn1

  // ---- Base 128 ----

  /** The leading septets of a number, each with its continuation bit; none for zero. */
  function Leading(n: nat): seq<byte> {
    if n == 0 then [] else Leading(n / 0x80) + [0x80 + n % 0x80]
  }

  /** Base 128, high septet first, in as few octets as possible. */
  function Base128(n: nat): (bs: seq<byte>)
    ensures |bs| > 0
  {
    Leading(n / 0x80) + [n % 0x80]
  }

  lemma {:induction false} LeadingContinues(n: nat)
    ensures n > 0 ==> |Leading(n)| > 0 && Leading(n)[0] > 0x80
    ensures forall i :: 0 <= i < |Leading(n)| ==> Leading(n)[i] >= 0x80
  {
    if n >= 0x80 { LeadingContinues(n / 0x80); }
  }

  function Up128(k: nat): nat {
    if k == 0 then 1 else 0x80 * Up128(k - 1)
  }

  lemma {:induction false} LeadingLength(n: nat, k: nat)
    requires n < Up128(k)
    ensures |Leading(n)| <= k
  {
    if n > 0 { LeadingLength(n / 0x80, k - 1); }
  }

  // ---- Identifier octets ----

  function ClassBits(c: TagClass): byte {
    match c
    case Universal => 0x00
    case Application => 0x40
    case ContextSpecific => 0x80
    case Private => 0xC0
  }

  /** Section 8.1.2 of X.690: class, the constructed bit and the tag number, from 31 on in further octets. */
  function Identifier(c: TagClass, constructed: bool, tag: nat): (bs: seq<byte>)
    ensures |bs| > 0
  {
    var bits: byte := ClassBits(c) + if constructed then 0x20 else 0;
    if tag < 0x1F then [bits + tag] else [bits + 0x1F] + Base128(tag)
  }

  /** Where the last octet of the middle part lies. */
  lemma LastOfMiddle(a: seq<byte>, b: seq<byte>, x: byte, c: seq<byte>)
    ensures a + (b + [x]) + c == a + b + ([x] + c)
    ensures var data := a + (b + [x]) + c; |data| == |a| + |b| + 1 + |c| && data[|a| + |b|] == x
  {}

  lemma HighTagStep(data: seq<byte>, pos: nat, count: nat, acc: u32)
    requires pos < |data| && count < 5
    ensures HighTag(data, |data|, pos, count, acc) ==
            if data[pos] < 0x80 then Some((NextTag(acc, data[pos]), pos + 1))
            else HighTag(data, |data|, pos + 1, count + 1, NextTag(acc, data[pos]))
  {
    hide NextTag;
  }

  lemma NextTagReads(q: nat, r: nat, x: byte)
    requires q < 0x200_0000 && r < 0x80 && x % 0x80 == r
    ensures NextTag(q, x) == q * 0x80 + r
  {}

  lemma LeadingIs(m: nat)
    ensures m < 0x1000_0000 ==> |Leading(m)| <= 4
    ensures Leading(m) == if m == 0 then [] else Leading(m / 0x80) + [0x80 + m % 0x80]
  {
    assert Up128(4) == 0x80 * Up128(3) == 0x4000 * Up128(2) == 0x20_0000 * Up128(1) == 0x1000_0000;
    if m < 0x1000_0000 { LeadingLength(m, 4); }
  }

  /** The continuation octets of a tag number that fits 28 bits, read one after another. */
  lemma {:induction false} ReadsLeading(front: seq<byte>, m: nat, rest: seq<byte>)
    requires m < 0x1000_0000
    ensures |Leading(m)| <= 4
    ensures var data, n := front + Leading(m) + rest, |Leading(m)|;
            HighTag(data, |data|, |front|, 0, 0) == HighTag(data, |data|, |front| + n, n, m)
  {
    LeadingIs(m);
    hide HighTag, Leading, NextTag;
    if m > 0 {
      var before, x := Leading(m / 0x80), 0x80 + m % 0x80;
      LastOfMiddle(front, before, x, rest);
      ReadsLeading(front, m / 0x80, [x] + rest);
      HighTagStep(front + Leading(m) + rest, |front| + |before|, |before|, m / 0x80);
      NextTagReads(m / 0x80, m % 0x80, x);
    } else {
      assert front + [] == front;
    }
  }

  lemma FirstOctet(c: TagClass, constructed: bool, tag: nat)
    ensures var b := Identifier(c, constructed, tag)[0];
            ClassOf(b) == c && ((b / 0x20) % 2 == 1 <==> constructed)
            && b % 0x20 == if tag < 0x1F then tag else 0x1F
  {}

  lemma Base128Is(n: nat)
    ensures Base128(n) == Leading(n / 0x80) + [n % 0x80]
  {}

  lemma HighTagEnds(front: seq<byte>, m: nat, x: byte, rest: seq<byte>)
    requires m < 0x200_0000 && x < 0x80
    ensures var data := front + (Leading(m) + [x]) + rest;
            HighTag(data, |data|, |front|, 0, 0) == Some((m * 0x80 + x, |front| + |Leading(m)| + 1))
  {
    hide *;
    var data := front + (Leading(m) + [x]) + rest;
    LastOfMiddle(front, Leading(m), x, rest);
    ReadsLeading(front, m, [x] + rest);
    HighTagStep(data, |front| + |Leading(m)|, |Leading(m)|, m);
    NextTagReads(m, x, x);
  }

  lemma HighTagReads(front: seq<byte>, tag: nat, rest: seq<byte>)
    requires tag < TWO_32
    ensures var data := front + Base128(tag) + rest;
            HighTag(data, |data|, |front|, 0, 0) == Some((tag, |front| + |Base128(tag)|))
  {
    Base128Is(tag);
    hide HighTag, Leading, Base128;
    HighTagEnds(front, tag / 0x80, tag % 0x80, rest);
  }

  /** Every tag number of 32 bits is read back, of any class, primitive or constructed. */
  lemma IdentifierReads(before: seq<byte>, c: TagClass, constructed: bool, tag: u32, rest: seq<byte>)
    ensures var data, id := before + Identifier(c, constructed, tag) + rest, Identifier(c, constructed, tag);
            && Tag(data, |data|, |before|) == Some((tag, |before| + |id|))
            && ClassOf(data[|before|]) == c && ((data[|before|] / 0x20) % 2 == 1 <==> constructed)
  {
    var id := Identifier(c, constructed, tag);
    var data := before + id + rest;
    FirstOctet(c, constructed, tag);
    assert data[|before|] == id[0];
    if tag >= 0x1F {
      assert data == before + [id[0]] + Base128(tag) + rest;
      HighTagReads(before + [id[0]], tag, rest);
    }
  }

  // ---- Elements ----

  /** Identifier, length and content octets. */
  function Der(c: TagClass, constructed: bool, tag: u32, content: seq<byte>): (el: seq<byte>)
    requires |content| < TWO_64
    ensures |el| <= |content| + 15
  {
    HeaderFits(c, constructed, tag, |content|);
    Identifier(c, constructed, tag) + DerLength(|content|) + content
  }

  lemma HeaderFits(c: TagClass, constructed: bool, tag: u32, len: u64)
    ensures |Identifier(c, constructed, tag)| <= 6 && |DerLength(len)| <= 9
  {
    LeadingIs(tag / 0x80);
    if len >= 0x80 { SizeOctets(len); }
    hide Leading, MinOctets, Up128;
  }

  lemma FourParts(before: seq<byte>, id: seq<byte>, len: seq<byte>, content: seq<byte>, rest: seq<byte>)
    ensures var data := before + (id + len + content) + rest;
            && data == before + id + (len + content + rest) && data == before + id + len + (content + rest)
            && |data| == |before| + |id| + |len| + |content| + |rest|
            && data[|before + id + len|..|before + id + len| + |content|] == content
  {}

  lemma DerIs(c: TagClass, constructed: bool, tag: u32, content: seq<byte>)
    requires |content| < TWO_64
    ensures Der(c, constructed, tag, content) == Identifier(c, constructed, tag) + DerLength(|content|) + content
  {}

  /** What the parts of an element read as. */
  ghost predicate PartsRead(data: seq<byte>, at: nat, c: TagClass, constructed: bool, tag: u32, content: seq<byte>,
                            start: nat)
    requires |content| < TWO_64
  {
    && at < |data| && ClassOf(data[at]) == c && ((data[at] / 0x20) % 2 == 1 <==> constructed)
    && exists afterTag :: Tag(data, |data|, at) == Some((tag, afterTag))
                          && Length(data, |data|, afterTag) == Some((|content|, start))
  }

  lemma HeaderReads(before: seq<byte>, c: TagClass, constructed: bool, tag: u32, content: seq<byte>, rest: seq<byte>)
    requires |content| < TWO_64
    ensures var id, len := Identifier(c, constructed, tag), DerLength(|content|);
            PartsRead(before + (id + len + content) + rest, |before|, c, constructed, tag, content,
                      |before| + |id| + |len|)
  {
    hide Identifier, DerLength, Tag, Length, ClassOf;
    var id, len := Identifier(c, constructed, tag), DerLength(|content|);
    FourParts(before, id, len, content, rest);
    IdentifierReads(before, c, constructed, tag, len + content + rest);
    LengthRoundTrip(before + id, |content|, content + rest);
  }

  lemma PartsParse(data: seq<byte>, at: nat, c: TagClass, constructed: bool, tag: u32, content: seq<byte>, start: nat)
    requires |content| < TWO_64 && PartsRead(data, at, c, constructed, tag, content, start)
    requires start + |content| <= |data|
    ensures Parse(data, |data|, at) == Some(Element(c, constructed, tag, start, |content|, start + |content| - at))
  {
    hide Tag, Length, ClassOf;
  }

  /** Every element that is written is read back, wherever it lies and whatever follows it. */
  lemma ElementReads(before: seq<byte>, c: TagClass, constructed: bool, tag: u32, content: seq<byte>, rest: seq<byte>)
    requires |content| < TWO_64
    ensures var el := Der(c, constructed, tag, content);
            var data := before + el + rest;
            var start := |before| + |el| - |content|;
            && |el| >= |content| && data[start..start + |content|] == content
            && Parse(data, |data|, |before|) == Some(Element(c, constructed, tag, start, |content|, |el|))
  {
    hide Identifier, DerLength, PartsRead, Parse;
    DerIs(c, constructed, tag, content);
    hide Der;
    var id, len := Identifier(c, constructed, tag), DerLength(|content|);
    FourParts(before, id, len, content, rest);
    HeaderReads(before, c, constructed, tag, content, rest);
    PartsParse(before + (id + len + content) + rest, |before|, c, constructed, tag, content,
               |before| + |id| + |len|);
  }

  // ---- Length octets ----

  /** Section 8.1.3 of X.690, short or long form, in at most nine octets. The indefinite form is none. */
  ghost predicate IsLength(bs: seq<byte>, len: nat) {
    || (|bs| == 1 && bs[0] < 0x80 && len == bs[0])
    || (2 <= |bs| <= 9 && bs[0] == 0x80 + |bs| - 1 && len == Os2ip(bs[1..]))
  }

  /** The reader takes exactly the definite lengths of at most nine octets, minimal or not. */
  lemma LengthIsExact(data: seq<byte>, size: nat, pos: nat, len: nat, end: nat)
    requires pos <= end <= size <= |data|
    ensures Length(data, size, pos) == Some((len, end)) <==> IsLength(data[pos..end], len)
  {
    hide Os2ip;
    var bs := data[pos..end];
    if pos < end {
      assert bs[0] == data[pos];
      assert bs[1..] == data[pos + 1..end];
    }
  }

  /** A tag number that goes on after its fifth octet, or is cut off before it ends, is refused. */
  lemma LongTagIsRefused(data: seq<byte>, size: nat, offset: nat)
    requires offset < size <= |data| && data[offset] % 0x20 == 0x1F
    requires forall p :: offset < p < size && p <= offset + 5 ==> data[p] >= 0x80
    ensures Tag(data, size, offset) == None
  {
    OctetsGoOn(data, size, offset + 1, 0, 0);
  }

  lemma {:induction false} OctetsGoOn(data: seq<byte>, size: nat, pos: nat, count: nat, acc: u32)
    requires size <= |data| && count <= 5
    requires forall p :: pos <= p < size && p < pos + 5 - count ==> data[p] >= 0x80
    ensures HighTag(data, size, pos, count, acc) == None
    decreases 5 - count
  {
    hide NextTag;
    if count < 5 && pos < size {
      OctetsGoOn(data, size, pos + 1, count + 1, NextTag(acc, data[pos]));
    }
  }
}
