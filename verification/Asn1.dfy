/** The DER reader of src/security/asn1.cpp and the SET writer of src/security/pkcs7.cpp. */
module Asn1 {
  import opened Common
  import opened Octets

  datatype TagClass = Universal | Application | ContextSpecific | Private

  const TAG_INTEGER: u32 := 2
  const TAG_SET: u32 := 17

  datatype Element = Element(
    tagClass: TagClass,
    constructed: bool,
    tagNumber: u32,
    contentOffset: nat,
    contentLength: nat,
    totalLength: nat)
  {
    predicate IsUniversal(tag: u32) {
      tagClass == Universal && tagNumber == tag
    }
  }

  // ---- What one element is ----

  function ClassOf(tagByte: byte): TagClass {
    if tagByte < 0x40 then Universal
    else if tagByte < 0x80 then Application
    else if tagByte < 0xC0 then ContextSpecific
    else Private
  }

  /** Seven more bits of a tag number, in 32 bits: the upper seven bits of the old tag fall out. */
  function NextTag(tag: u32, b: byte): u32 {
    (tag % 0x200_0000) * 0x80 + b % 0x80
  }

  /** High-tag-number form: base 128, at most five octets, kept in 32 bits. */
  function HighTag(data: seq<byte>, size: nat, pos: nat, count: nat, acc: u32): (r: Option<(u32, nat)>)
    requires size <= |data| && count <= 5
    ensures r.Some? ==> pos < r.value.1 <= size
    decreases 5 - count
  {
    if count == 5 || pos >= size then None
    else
      var tag := NextTag(acc, data[pos]);
      if data[pos] < 0x80 then Some((tag, pos + 1)) else HighTag(data, size, pos + 1, count + 1, tag)
  }

  /** Tag number and the position after the identifier octets. */
  function Tag(data: seq<byte>, size: nat, offset: nat): (r: Option<(u32, nat)>)
    requires offset < size <= |data|
    ensures r.Some? ==> offset < r.value.1 <= size
  {
    if data[offset] % 0x20 == 0x1F then HighTag(data, size, offset + 1, 0, 0)
    else Some((data[offset] % 0x20, offset + 1))
  }

  /** Content length and the position after the length octets (section 8.1.3 of X.690); the indefinite
      form and lengths of more than eight octets are refused. */
  ghost function Length(data: seq<byte>, size: nat, pos: nat): (r: Option<(nat, nat)>)
    requires size <= |data|
    ensures r.Some? ==> pos < r.value.1 <= size
  {
    if pos >= size then None
    else if data[pos] < 0x80 then Some((data[pos], pos + 1))
    else
      var n := data[pos] - 0x80;
      if n == 0 || n > 8 || pos + 1 + n > size then None
      else Some((Os2ip(data[pos + 1..pos + 1 + n]), pos + 1 + n))
  }

  /** The element at `offset`, looking no further than `size`. */
  ghost function Parse(data: seq<byte>, size: nat, offset: nat): (r: Option<Element>)
    requires size <= |data|
    ensures r.Some? ==> var el := r.value;
      && offset + 2 <= el.contentOffset
      && el.contentOffset + el.contentLength == offset + el.totalLength <= size
  {
    if offset >= size then None else
    var tag := Tag(data, size, offset);
    if tag.None? then None else
    var len := Length(data, size, tag.value.1);
    if len.None? || len.value.0 > size - len.value.1 then None
    else Some(Element(ClassOf(data[offset]), (data[offset] / 0x20) % 2 == 1, tag.value.0,
                      len.value.1, len.value.0, len.value.1 + len.value.0 - offset))
  }

  /** A byte string that is exactly one element. */
  ghost predicate IsElement(e: seq<byte>) {
    var r := Parse(e, |e|, 0);
    r.Some? && r.value.totalLength == |e|
  }

  // ---- parse_element ----

  /** The identifier octets: tag number and the position after them. */
  method ReadTag(data: seq<byte>, size: nat, offset: nat) returns (r: Option<(u32, nat)>)
    requires offset < size <= |data|
    ensures r == Tag(data, size, offset)
  {
    var pos := offset + 1;
    var tagNumber: u32 := data[offset] % 0x20;
    if tagNumber != 0x1F { return Some((tagNumber, pos)); }
    tagNumber := 0;
    var i := 0;
    while i < 5 && pos < size
      invariant 0 <= i <= 5 && 0 <= pos <= size
      invariant Tag(data, size, offset) == HighTag(data, size, pos, i, tagNumber)
      decreases 5 - i
    {
      var b := data[pos];
      pos := pos + 1;
      tagNumber := NextTag(tagNumber, b);
      if b < 0x80 { return Some((tagNumber, pos)); }
      i := i + 1;
    }
    return None;
  }

  /** The length octets: content length and the position after them. */
  method ReadLength(data: seq<byte>, size: nat, at: nat) returns (r: Option<(nat, nat)>)
    requires size <= |data|
    ensures r == Length(data, size, at)
  {
    if at >= size { return None; }
    var lenByte := data[at];
    if lenByte < 0x80 { return Some((lenByte, at + 1)); }
    var n := lenByte - 0x80;
    if n == 0 { return None; }
    if n > 8 { return None; }
    if at + 1 + n > size { return None; }
    var contentLength: u64 := 0;
    for i := 0 to n
      invariant contentLength == Os2ip(data[at + 1..at + 1 + i])
    {
      ghost var octets := data[at + 1..at + 1 + i + 1];
      assert octets[..i] == data[at + 1..at + 1 + i];
      ShortOctets(octets[..i]);
      contentLength := contentLength * 0x100 + data[at + 1 + i];
    }
    return Some((contentLength, at + 1 + n));
  }

  method ParseElement(data: seq<byte>, size: nat, offset: nat) returns (r: Option<Element>)
    requires size <= |data|
    ensures r == Parse(data, size, offset)
  {
    if offset >= size { return None; }
    var tag := ReadTag(data, size, offset);
    if tag.None? { return None; }
    var len := ReadLength(data, size, tag.value.1);
    if len.None? { return None; }
    var contentLength, pos := len.value.0, len.value.1;
    if contentLength > size - pos { return None; }
    return Some(Element(ClassOf(data[offset]), (data[offset] / 0x20) % 2 == 1, tag.value.0,
                        pos, contentLength, pos + contentLength - offset));
  }

  /** Seven octets leave room for an eighth in 64 bits. */
  lemma ShortOctets(bs: seq<byte>)
    requires |bs| <= 7
    ensures Os2ip(bs) < 0x100_0000_0000_0000
  {
    Os2ipBound(bs);
    var k := |bs|;
    while k < 7
      invariant |bs| <= k <= 7 && Os2ip(bs) < Arithmetic.Pow(0x100, k)
    {
      k := k + 1;
    }
    assert Arithmetic.Pow(0x100, 7) == 0x100_0000_0000_0000;
  }

  // ---- Locality: nothing after the element matters, nor where it lies ----

  function Moved(el: Element, from: nat, to: nat): Element
    requires from <= el.contentOffset
  {
    el.(contentOffset := el.contentOffset - from + to)
  }

  /** d1 from o1 and d2 from o2 agree for n bytes. */
  ghost predicate SameBytes(d1: seq<byte>, o1: nat, d2: seq<byte>, o2: nat, n: nat) {
    o1 + n <= |d1| && o2 + n <= |d2| && d1[o1..o1 + n] == d2[o2..o2 + n]
  }

  lemma SubSlice(d: seq<byte>, o: nat, n: nat, k: nat, m: nat)
    requires o + n <= |d| && k + m <= n
    ensures d[o..o + n][k..k + m] == d[o + k..o + k + m]
  {
    var x, y := d[o..o + n][k..k + m], d[o + k..o + k + m];
    assert forall i :: 0 <= i < m ==> x[i] == y[i];
  }

  lemma SameBytesAt(d1: seq<byte>, o1: nat, d2: seq<byte>, o2: nat, n: nat, k: nat, m: nat)
    requires SameBytes(d1, o1, d2, o2, n) && k + m <= n
    ensures SameBytes(d1, o1 + k, d2, o2 + k, m)
    ensures k < n ==> d1[o1 + k] == d2[o2 + k]
  {
    var x, y := d1[o1..o1 + n], d2[o2..o2 + n];
    SubSlice(d1, o1, n, k, m);
    SubSlice(d2, o2, n, k, m);
    assert k < n ==> x[k] == y[k];
  }

  lemma {:induction false} HighTagLocal(d1: seq<byte>, s1: nat, p1: nat, d2: seq<byte>, s2: nat, p2: nat,
                                        count: nat, acc: u32)
    requires s1 <= |d1| && s2 <= |d2| && count <= 5
    requires HighTag(d1, s1, p1, count, acc).Some?
    requires var n := HighTag(d1, s1, p1, count, acc).value.1 - p1;
             p2 + n <= s2 && SameBytes(d1, p1, d2, p2, n)
    ensures var r := HighTag(d1, s1, p1, count, acc).value;
            HighTag(d2, s2, p2, count, acc) == Some((r.0, r.1 - p1 + p2))
    decreases 5 - count
  {
    var n := HighTag(d1, s1, p1, count, acc).value.1 - p1;
    SameBytesAt(d1, p1, d2, p2, n, 0, 0);
    if d1[p1] >= 0x80 {
      SameBytesAt(d1, p1, d2, p2, n, 1, n - 1);
      HighTagLocal(d1, s1, p1 + 1, d2, s2, p2 + 1, count + 1, NextTag(acc, d1[p1]));
    }
  }

  lemma TagLocal(d1: seq<byte>, s1: nat, o1: nat, d2: seq<byte>, s2: nat, o2: nat)
    requires o1 < s1 <= |d1| && s2 <= |d2| && Tag(d1, s1, o1).Some?
    requires var n := Tag(d1, s1, o1).value.1 - o1;
             o2 + n <= s2 && SameBytes(d1, o1, d2, o2, n)
    ensures o2 < s2 && Tag(d2, s2, o2) == Some((Tag(d1, s1, o1).value.0, Tag(d1, s1, o1).value.1 - o1 + o2))
  {
    var n := Tag(d1, s1, o1).value.1 - o1;
    SameBytesAt(d1, o1, d2, o2, n, 0, 0);
    if d1[o1] % 0x20 == 0x1F {
      SameBytesAt(d1, o1, d2, o2, n, 1, n - 1);
      HighTagLocal(d1, s1, o1 + 1, d2, s2, o2 + 1, 0, 0);
    }
  }

  lemma LengthLocal(d1: seq<byte>, s1: nat, o1: nat, d2: seq<byte>, s2: nat, o2: nat)
    requires s1 <= |d1| && s2 <= |d2| && Length(d1, s1, o1).Some?
    requires var n := Length(d1, s1, o1).value.1 - o1;
             o2 + n <= s2 && SameBytes(d1, o1, d2, o2, n)
    ensures Length(d2, s2, o2) == Some((Length(d1, s1, o1).value.0, Length(d1, s1, o1).value.1 - o1 + o2))
  {
    var n := Length(d1, s1, o1).value.1 - o1;
    SameBytesAt(d1, o1, d2, o2, n, 0, 0);
    SameBytesAt(d1, o1, d2, o2, n, 1, n - 1);
  }

  /** A successful parse depends only on the element's own bytes: wherever they lie, and whatever
      follows them or bounds the search, the same element is found. */
  lemma ParseLocal(d1: seq<byte>, s1: nat, o1: nat, d2: seq<byte>, s2: nat, o2: nat)
    requires s1 <= |d1| && s2 <= |d2| && Parse(d1, s1, o1).Some?
    requires var n := Parse(d1, s1, o1).value.totalLength;
             o2 + n <= s2 && SameBytes(d1, o1, d2, o2, n)
    ensures Parse(d2, s2, o2) == Some(Moved(Parse(d1, s1, o1).value, o1, o2))
  {
    hide HighTag, Tag, Length;
    var el := Parse(d1, s1, o1).value;
    var n, p1 := el.totalLength, Tag(d1, s1, o1).value.1;
    SameBytesAt(d1, o1, d2, o2, n, 0, p1 - o1);
    TagLocal(d1, s1, o1, d2, s2, o2);
    SameBytesAt(d1, o1, d2, o2, n, p1 - o1, el.contentOffset - p1);
    LengthLocal(d1, s1, p1, d2, s2, p1 - o1 + o2);
  }

  // ---- parse_sequence_children, raw_bytes ----

  ghost function Children(data: seq<byte>, pos: nat, end: nat): seq<Element>
    requires end <= |data|
    decreases end - pos
  {
    if pos >= end then [] else
    var child := Parse(data, end, pos);
    if child.None? then [] else [child.value] + Children(data, pos + child.value.totalLength, end)
  }

  method ParseSequenceChildren(data: seq<byte>, offset: nat, length: nat) returns (children: seq<Element>)
    requires offset + length <= |data|
    ensures children == Children(data, offset, offset + length)
  {
    hide Parse;
    children := [];
    var pos := offset;
    var end := offset + length;
    while pos < end
      invariant offset <= pos <= end
      invariant children + Children(data, pos, end) == Children(data, offset, end)
      decreases end - pos
    {
      var child := ParseElement(data, end, pos);
      if child.None? { break; }
      assert children + ([child.value] + Children(data, pos + child.value.totalLength, end))
          == children + [child.value] + Children(data, pos + child.value.totalLength, end);
      children := children + [child.value];
      pos := pos + child.value.totalLength;
    }
  }

  /** The complete encoding of an element: its header lies just before its content. */
  function RawBytes(data: seq<byte>, el: Element): seq<byte> {
    if el.totalLength < el.contentLength then []
    else
      var header := el.totalLength - el.contentLength;
      if el.contentOffset < header || el.contentOffset - header + el.totalLength > |data| then []
      else data[el.contentOffset - header..el.contentOffset - header + el.totalLength]
  }

  ghost function Concat(es: seq<seq<byte>>): seq<byte> {
    if |es| == 0 then [] else es[0] + Concat(es[1..])
  }

  ghost function RawChildren(data: seq<byte>, children: seq<Element>): (r: seq<seq<byte>>)
    ensures |r| == |children|
    ensures forall i :: 0 <= i < |r| ==> r[i] == RawBytes(data, children[i])
  {
    seq(|children|, i requires 0 <= i < |children| => RawBytes(data, children[i]))
  }

  /** Of any region whatever, the children tile a prefix: their encodings, joined, are the region's
      bytes up to a stop, each is one complete element, and the stop is the end or a malformed child. */
  lemma {:induction false} ChildrenTile(data: seq<byte>, pos: nat, end: nat)
    requires pos <= end <= |data|
    ensures var raw := RawChildren(data, Children(data, pos, end));
            var stop := pos + |Concat(raw)|;
            && stop <= end && Concat(raw) == data[pos..stop]
            && (forall i :: 0 <= i < |raw| ==> IsElement(raw[i]))
            && (stop == end || Parse(data, end, stop).None?)
    decreases end - pos
  {
    hide Parse;
    var children := Children(data, pos, end);
    var raw := RawChildren(data, children);
    if pos < end && Parse(data, end, pos).Some? {
      var el := Parse(data, end, pos).value;
      var next := pos + el.totalLength;
      ChildrenTile(data, next, end);
      var rest := RawChildren(data, Children(data, next, end));
      assert children == [el] + Children(data, next, end);
      assert raw == [data[pos..next]] + rest;
      ParseLocal(data, end, pos, raw[0], |raw[0]|, 0);
      assert IsElement(raw[0]);
      TileStep(data, pos, next, raw, rest);
    } else {
      assert Concat(raw) == [];
    }
  }

  lemma TileStep(data: seq<byte>, pos: nat, next: nat, raw: seq<seq<byte>>, rest: seq<seq<byte>>)
    requires pos <= next && next + |Concat(rest)| <= |data|
    requires raw == [data[pos..next]] + rest && Concat(rest) == data[next..next + |Concat(rest)|]
    ensures |Concat(raw)| == next - pos + |Concat(rest)|
    ensures Concat(raw) == data[pos..next + |Concat(rest)|]
  {
    assert raw[1..] == rest;
    assert Concat(raw) == data[pos..next] + Concat(rest);
  }

  /** Where the elements es lie when written one after another from `at`. */
  ghost function Layout(es: seq<seq<byte>>, at: nat): seq<Element>
    requires forall i :: 0 <= i < |es| ==> IsElement(es[i])
  {
    if |es| == 0 then []
    else assert IsElement(es[0]); [Moved(Parse(es[0], |es[0]|, 0).value, 0, at)] + Layout(es[1..], at + |es[0]|)
  }

  lemma FirstOfConcat(before: seq<byte>, e: seq<byte>, others: seq<byte>, after: seq<byte>)
    ensures before + (e + others) + after == (before + e) + others + after
    ensures (before + (e + others) + after)[|before|..|before| + |e|] == e
  {
  }

  /** Reading back concatenated elements yields exactly those elements, each with its own bytes. */
  lemma {:induction false} ChildrenOfConcat(before: seq<byte>, es: seq<seq<byte>>, after: seq<byte>)
    requires forall i :: 0 <= i < |es| ==> IsElement(es[i])
    ensures var data := before + Concat(es) + after;
            var children := Children(data, |before|, |before| + |Concat(es)|);
            children == Layout(es, |before|) && RawChildren(data, children) == es
    decreases |es|
  {
    hide Parse;
    var data := before + Concat(es) + after;
    var end := |before| + |Concat(es)|;
    if |es| > 0 {
      var e, next := es[0], |before| + |es[0]|;
      assert IsElement(e);
      ChildrenOfConcat(before + e, es[1..], after);
      FirstOfConcat(before, e, Concat(es[1..]), after);
      ParseLocal(e, |e|, 0, data, end, |before|);
      var el := Moved(Parse(e, |e|, 0).value, 0, |before|);
      var rest := Children(data, next, end);
      assert Children(data, |before|, end) == [el] + rest;
      assert RawBytes(data, el) == e;
      assert RawChildren(data, [el] + rest) == [e] + RawChildren(data, rest);
    }
  }

  /** unwrap_explicit: the element inside an explicit tag, if there is exactly one. */
  method UnwrapExplicit(data: seq<byte>, wrapper: Element) returns (inner: Option<Element>)
    requires wrapper.contentOffset + wrapper.contentLength <= |data|
    ensures var children := Children(data, wrapper.contentOffset, wrapper.contentOffset + wrapper.contentLength);
            inner == if |children| == 1 then Some(children[0]) else None
  {
    var children := ParseSequenceChildren(data, wrapper.contentOffset, wrapper.contentLength);
    inner := if |children| != 1 then None else Some(children[0]);
  }

  /** A wrapper around one element has that element, and no other, as its children. */
  lemma UnwrapWrapped(before: seq<byte>, e: seq<byte>, after: seq<byte>)
    requires IsElement(e)
    ensures var data := before + e + after;
            var children := Children(data, |before|, |before| + |e|);
            |children| == 1 && RawBytes(data, children[0]) == e
  {
    hide Children, Parse;
    ChildrenOfConcat(before, [e], after);
    assert Concat([e]) == e + Concat([]) == e;
    var data := before + e + after;
    var raw := RawChildren(data, Children(data, |before|, |before| + |e|));
    assert raw == [e] && raw[0] == e;
  }

  // ---- read_unsigned_integer ----

  function ReadUnsignedInteger(data: seq<byte>, el: Element): seq<byte>
    requires el.contentOffset + el.contentLength <= |data|
  {
    var content := data[el.contentOffset..el.contentOffset + el.contentLength];
    if !el.IsUniversal(TAG_INTEGER) || |content| == 0 then []
    else if content[0] >= 0x80 then []
    else if |content| >= 2 && content[0] == 0 && content[1] >= 0x80 then content[1..]
    else content
  }

  /** A non-negative INTEGER keeps its value, and magnitude octets come back without the sign octet
      that DER puts before a set high bit. */
  lemma ReadUnsignedValue(data: seq<byte>, el: Element, magnitude: seq<byte>)
    requires el.contentOffset + el.contentLength <= |data| && el.IsUniversal(TAG_INTEGER)
    requires |magnitude| > 0
    requires data[el.contentOffset..el.contentOffset + el.contentLength]
          == if magnitude[0] >= 0x80 then [0] + magnitude else magnitude
    ensures magnitude[0] != 0 || |magnitude| == 1 || magnitude[1] < 0x80 ==> ReadUnsignedInteger(data, el) == magnitude
    ensures Os2ip(ReadUnsignedInteger(data, el)) == Os2ip(magnitude)
  {
    if magnitude[0] == 0 && |magnitude| > 1 { DropLeadingZero(magnitude); }
  }

  /** The value of content octets in two's complement (section 8.3 of X.690). */
  ghost function TwosComplement(content: seq<byte>): int
    requires |content| > 0
  {
    if content[0] >= 0x80 then Os2ip(content) - UpBytes(1, |content|) else Os2ip(content)
  }

  /** Octets come back exactly for an INTEGER that is not negative, and then they are its value. */
  lemma ReadUnsignedIsExact(data: seq<byte>, el: Element)
    requires el.contentOffset + el.contentLength <= |data|
    ensures var content := data[el.contentOffset..el.contentOffset + el.contentLength];
            var read := ReadUnsignedInteger(data, el);
            && (read != [] <==>
                  el.tagClass == Universal && el.tagNumber == 2 && content != [] && TwosComplement(content) >= 0)
            && (read != [] ==> Os2ip(read) == TwosComplement(content))
  {
    var content := data[el.contentOffset..el.contentOffset + el.contentLength];
    if |content| > 0 {
      Os2ipBound(content);
      UpBytesIsPow(1, |content|);
      if content[0] == 0 { DropLeadingZero(content); }
    }
  }

  // ---- der_encode_set ----

  /** The shortest big-endian octets of n; none for zero. */
  function MinOctets(n: nat): seq<byte> {
    if n == 0 then [] else MinOctets(n / 0x100) + [n % 0x100]
  }

  lemma {:induction false} MinOctetsValue(n: nat)
    ensures Os2ip(MinOctets(n)) == n
    ensures n > 0 ==> |MinOctets(n)| > 0 && MinOctets(n)[0] != 0
  {
    if n > 0 {
      MinOctetsValue(n / 0x100);
      assert MinOctets(n)[..|MinOctets(n)| - 1] == MinOctets(n / 0x100);
    }
  }

  lemma {:induction false} MinOctetsLength(n: nat, k: nat)
    requires n < UpBytes(1, k)
    ensures |MinOctets(n)| <= k
  {
    if n > 0 { MinOctetsLength(n / 0x100, k - 1); }
  }

  lemma SizeOctets(len: u64)
    ensures |MinOctets(len)| <= 8
  {
    assert UpBytes(1, 8) == 0x100 * UpBytes(1, 7) == 0x1_0000 * UpBytes(1, 6) == 0x100_0000 * UpBytes(1, 5);
    assert UpBytes(1, 5) == 0x100 * UpBytes(1, 4) == 0x1_0000 * UpBytes(1, 3) == 0x100_0000 * UpBytes(1, 2);
    assert UpBytes(1, 2) == 0x100 * UpBytes(1, 1) == 0x1_0000;
    MinOctetsLength(len, 8);
  }

  /** The definite form in as few octets as possible (section 10.1 of X.690). */
  function DerLength(len: u64): seq<byte> {
    if len < 0x80 then [len]
    else
      SizeOctets(len);
      [0x80 + |MinOctets(len)|] + MinOctets(len)
  }

  function DerSet(content: seq<byte>): seq<byte>
    requires |content| < TWO_64
  {
    [0x31] + DerLength(|content|) + content
  }

  /** The base-256 digits of len, collected low first. */
  method LengthDigits(len: nat) returns (lenBytes: seq<byte>)
    ensures Reversed(lenBytes) == MinOctets(len)
  {
    lenBytes := [];
    var remaining := len;
    while remaining > 0
      invariant MinOctets(len) == MinOctets(remaining) + Reversed(lenBytes)
    {
      ReversedAppend(lenBytes, remaining % 0x100);
      lenBytes := lenBytes + [remaining % 0x100];
      remaining := remaining / 0x100;
    }
  }

  /** The length octets of der_encode_set: digits collected low first, written high first. */
  method EncodeLength(len: u64) returns (out: seq<byte>)
    ensures out == DerLength(len)
  {
    if len < 0x80 { return [len]; }
    hide MinOctets;
    var lenBytes := LengthDigits(len);
    SizeOctets(len);
    var first: byte := 0x80 + |lenBytes|;
    out := [first];
    var i := |lenBytes| - 1;
    while i >= 0
      invariant -1 <= i < |lenBytes|
      invariant out == [first] + Reversed(lenBytes)[..|lenBytes| - 1 - i]
    {
      out := out + [lenBytes[i]];
      i := i - 1;
    }
  }

  method DerEncodeSet(content: seq<byte>) returns (out: seq<byte>)
    requires |content| < TWO_64
    ensures out == DerSet(content)
  {
    var length := EncodeLength(|content|);
    out := [0x31] + length + content;
  }

  lemma ReversedAppend(bs: seq<byte>, b: byte)
    ensures Reversed(bs + [b]) == [b] + Reversed(bs)
  {
    var x, y := Reversed(bs + [b]), [b] + Reversed(bs);
    forall i | 0 <= i < |x| ensures x[i] == y[i] {}
  }

  /** The reader understands the writer's length octets. */
  lemma LengthRoundTrip(before: seq<byte>, len: u64, after: seq<byte>)
    ensures var data := before + DerLength(len) + after;
            Length(data, |data|, |before|) == Some((len, |before| + |DerLength(len)|))
    ensures len >= 0x80 ==> |DerLength(len)| > 1 && DerLength(len)[1] != 0
  {
    if len >= 0x80 {
      SizeOctets(len);
      MinOctetsValue(len);
      hide Os2ip, MinOctets;
      var data, n := before + DerLength(len) + after, |MinOctets(len)|;
      assert data[|before|] == 0x80 + n;
      assert data[|before| + 1..|before| + 1 + n] == MinOctets(len);
    }
  }

  /** The round trip, for every length: what the writer writes, the reader reads as a constructed SET
      with that content and nothing else; the long form starts with a non-zero octet. */
  lemma SetRoundTrip(content: seq<byte>, rest: seq<byte>)
    requires |content| < TWO_64
    ensures var out := DerSet(content);
            var r := Parse(out + rest, |out + rest|, 0);
            && r.Some? && r.value.IsUniversal(TAG_SET) && r.value.constructed
            && r.value.totalLength == |out| && RawBytes(out + rest, r.value) == out
            && (out + rest)[r.value.contentOffset..r.value.contentOffset + r.value.contentLength] == content
            && (|content| >= 0x80 ==> out[2] != 0)
    ensures IsElement(DerSet(content))
  {
    hide Length, HighTag, DerLength, Concat;
    var header, out := [0x31] + DerLength(|content|), DerSet(content);
    var data := out + rest;
    LengthRoundTrip([0x31], |content|, content + rest);
    assert data == header + (content + rest);
    assert data[0] == 0x31;
    assert data[|header|..|header| + |content|] == content;
    assert data[0..|out|] == out;
    assert Parse(data, |data|, 0) == Some(Element(Universal, true, TAG_SET, |header|, |content|, |out|));
    ParseLocal(data, |data|, 0, out, |out|, 0);
  }
}
