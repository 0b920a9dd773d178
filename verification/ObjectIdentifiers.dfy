/** Object identifiers as text: oid_to_string of src/security/asn1.cpp. */
module ObjectIdentifiers {
  import opened Common
  import opened Arithmetic
  import opened Decimal
  import opened Asn1
  import opened DerWriter

  const TAG_OID: u32 := 6

  // ---- Reading ----

  /** Seven more bits of an arc, in 64 bits. */
  function NextArc(value: u64, b: byte): u64 {
    (value % 0x200_0000_0000_0000) * 0x80 + b % 0x80
  }

  /** The arcs from here on, given what has been read of the current one; none if the last one is cut off. */
  function ArcsFrom(bs: seq<byte>, value: u64, midArc: bool): Option<seq<nat>> {
    if |bs| == 0 then (if midArc then None else Some([]))
    else if bs[0] >= 0x80 then ArcsFrom(bs[1..], NextArc(value, bs[0]), true)
    else
      var rest := ArcsFrom(bs[1..], 0, false);
      if rest.None? then None else Some([NextArc(value, bs[0]) as nat] + rest.value)
  }

  /** The first octet stands for two arcs, whatever it is. */
  function FirstArcs(b: byte): seq<nat> {
    if b / 40 > 2 then [2, b - 80] else [b / 40, b % 40]
  }

  function Arcs(content: seq<byte>): Option<seq<nat>> {
    if |content| == 0 then None
    else
      var rest := ArcsFrom(content[1..], 0, false);
      if rest.None? then None else Some(FirstArcs(content[0]) + rest.value)
  }

  function Dotted(arcs: seq<nat>): string {
    if |arcs| == 0 then ""
    else if |arcs| == 1 then ToString(arcs[0])
    else Dotted(arcs[..|arcs| - 1]) + "." + ToString(arcs[|arcs| - 1])
  }

  /** "" for anything else than a well-formed object identifier. */
  function OidText(data: seq<byte>, el: Element): string
    requires el.contentOffset + el.contentLength <= |data|
  {
    var arcs := Arcs(data[el.contentOffset..el.contentOffset + el.contentLength]);
    if !el.IsUniversal(TAG_OID) || arcs.None? then "" else Dotted(arcs.value)
  }

  function Behind(front: seq<nat>, rest: Option<seq<nat>>): Option<seq<nat>> {
    if rest.None? then None else Some(front + rest.value)
  }

  lemma ArcsStep(front: seq<nat>, bs: seq<byte>, value: u64, midArc: bool)
    requires |bs| > 0
    ensures Behind(front, ArcsFrom(bs, value, midArc)) ==
            if bs[0] >= 0x80 then Behind(front, ArcsFrom(bs[1..], NextArc(value, bs[0]), true))
            else Behind(front + [NextArc(value, bs[0]) as nat], ArcsFrom(bs[1..], 0, false))
  {
    hide NextArc;
    var rest := ArcsFrom(bs[1..], 0, false);
    if rest.Some? { Regroup(front, [NextArc(value, bs[0]) as nat], rest.value); }
  }

  lemma DottedSnoc(arcs: seq<nat>, arc: nat)
    requires |arcs| >= 1
    ensures Dotted(arcs + [arc]) == Dotted(arcs) + "." + ToString(arc)
  {
    hide ToString;
    assert (arcs + [arc])[..|arcs|] == arcs;
  }

  lemma TwoDotted(a: nat, b: nat)
    ensures Dotted([a, b]) == ToString(a) + "." + ToString(b)
  {
    assert [a, b] == [a] + [b];
    DottedSnoc([a], b);
  }

  method OidToString(data: seq<byte>, el: Element) returns (out: string)
    requires el.contentOffset + el.contentLength <= |data|
    ensures out == OidText(data, el)
  {
    if !el.IsUniversal(TAG_OID) || el.contentLength == 0 { return ""; }
    var content := data[el.contentOffset..el.contentOffset + el.contentLength];
    var firstArc, secondArc := content[0] / 40, content[0] % 40;
    if firstArc > 2 { firstArc, secondArc := 2, content[0] - 80; }
    out := ToString(firstArc) + "." + ToString(secondArc);
    ghost var arcs: seq<nat> := [firstArc, secondArc];
    TwoDotted(firstArc, secondArc);
    var value: u64, midArc := 0, false;
    assert Arcs(content) == Behind(arcs, ArcsFrom(content[1..], value, midArc));
    hide Dotted, ToString, ArcsFrom, NextArc, FirstArcs, Behind;
    for i := 1 to |content|
      invariant |arcs| >= 2 && out == Dotted(arcs)
      invariant Arcs(content) == Behind(arcs, ArcsFrom(content[i..], value, midArc))
    {
      ArcsStep(arcs, content[i..], value, midArc);
      assert content[i..][0] == content[i] && content[i..][1..] == content[i + 1..];
      value, midArc := NextArc(value, content[i]), true;
      if content[i] < 0x80 {
        DottedSnoc(arcs, value);
        out := out + "." + ToString(value);
        arcs := arcs + [value as nat];
        value, midArc := 0, false;
      }
    }
    assert content[|content|..] == [];
    EndOfArcs(arcs, value, midArc);
    if midArc { return ""; }
  }

  lemma EndOfArcs(arcs: seq<nat>, value: u64, midArc: bool)
    ensures Behind(arcs, ArcsFrom([], value, midArc)) == if midArc then None else Some(arcs)
  {
    assert arcs + [] == arcs;
  }

  // ---- What was written is read back ----

  function SubIds(arcs: seq<nat>): seq<byte> {
    if |arcs| == 0 then [] else Base128(arcs[0]) + SubIds(arcs[1..])
  }

  /** Section 8.19 of X.690: the first two arcs are one number, and every number is in base 128. */
  function OidContent(first: nat, second: nat, arcs: seq<nat>): seq<byte> {
    Base128(40 * first + second) + SubIds(arcs)
  }

  /** Three roots, and at most forty arcs under the first two. */
  predicate IsRoot(first: nat, second: nat) {
    first <= 2 && (first < 2 ==> second < 40)
  }

  predicate AllFit(arcs: seq<nat>) {
    forall i :: 0 <= i < |arcs| ==> arcs[i] < TWO_64
  }

  function Reduced(arcs: seq<nat>): (r: seq<nat>)
    ensures |r| == |arcs| && forall i :: 0 <= i < |r| ==> r[i] == arcs[i] % TWO_64
  {
    seq(|arcs|, i requires 0 <= i < |arcs| => arcs[i] % TWO_64)
  }

  lemma NextArcReads(m: nat, x: byte)
    requires x % 0x80 == m % 0x80
    ensures NextArc((m / 0x80) % TWO_64, x) == m % TWO_64
  {
    var q, r, big := m / 0x80, m % 0x80, 0x200_0000_0000_0000;
    assert q == (q / big) * big + q % big;
    DivModUnique(q % TWO_64, big, (q % TWO_64) / big, q % big) by {
      assert q == (q / TWO_64) * TWO_64 + q % TWO_64;
      assert q % TWO_64 == q - (q / TWO_64) * 0x80 * big;
      ModMultiple(q, 0 - (q / TWO_64) * 0x80, big);
      assert q % TWO_64 == ((q % TWO_64) / big) * big + (q % TWO_64) % big;
    }
    DivModUnique(m, TWO_64, q / big, (q % big) * 0x80 + r);
  }

  lemma ArcContinues(x: byte, rest: seq<byte>, value: u64, midArc: bool)
    ensures ArcsFrom([x] + rest, value, midArc) ==
            if x >= 0x80 then ArcsFrom(rest, NextArc(value, x), true)
            else Behind([NextArc(value, x) as nat], ArcsFrom(rest, 0, false))
  {
    assert ([x] + rest)[1..] == rest;
    hide NextArc;
  }

  lemma LeadingEnds(m: nat)
    requires m > 0
    ensures Leading(m) == Leading(m / 0x80) + [0x80 + m % 0x80]
  {}

  /** One continuation octet more. */
  lemma OneMoreSeptet(m: nat, rest: seq<byte>)
    requires m > 0
    ensures var x: byte := 0x80 + m % 0x80;
            && Leading(m) + rest == Leading(m / 0x80) + ([x] + rest)
            && ArcsFrom([x] + rest, (m / 0x80) % TWO_64, m / 0x80 > 0) == ArcsFrom(rest, m % TWO_64, true)
  {
    var x := 0x80 + m % 0x80;
    LeadingEnds(m);
    NextArcReads(m, x);
    hide Leading, NextArc, ArcsFrom;
    Regroup(Leading(m / 0x80), [x], rest);
    ArcContinues(x, rest, (m / 0x80) % TWO_64, m / 0x80 > 0);
  }

  lemma NoSeptets(rest: seq<byte>)
    ensures Leading(0) + rest == rest
  {}

  lemma {:induction false} ReadsLeadingArc(m: nat, rest: seq<byte>)
    ensures ArcsFrom(Leading(m) + rest, 0, false) == ArcsFrom(rest, m % TWO_64, m > 0)
    decreases m
  {
    hide Leading, ArcsFrom;
    if m > 0 {
      OneMoreSeptet(m, rest);
      ReadsLeadingArc(m / 0x80, [0x80 + m % 0x80 as byte] + rest);
    } else {
      NoSeptets(rest);
    }
  }

  /** The last octet of an arc. */
  lemma LastSeptet(n: nat, rest: seq<byte>)
    ensures var x: byte := n % 0x80;
            && Base128(n) + rest == Leading(n / 0x80) + ([x] + rest)
            && ArcsFrom([x] + rest, (n / 0x80) % TWO_64, n / 0x80 > 0)
               == Behind([n % TWO_64], ArcsFrom(rest, 0, false))
  {
    var x := n % 0x80;
    Base128Is(n);
    NextArcReads(n, x);
    hide Leading, NextArc, Base128, ArcsFrom, Behind;
    Regroup(Leading(n / 0x80), [x], rest);
    ArcContinues(x, rest, (n / 0x80) % TWO_64, n / 0x80 > 0);
  }

  lemma ReadsArc(n: nat, rest: seq<byte>)
    ensures ArcsFrom(Base128(n) + rest, 0, false) == Behind([n % TWO_64], ArcsFrom(rest, 0, false))
  {
    hide Leading, Base128, ArcsFrom, Behind;
    LastSeptet(n, rest);
    ReadsLeadingArc(n / 0x80, [n % 0x80 as byte] + rest);
  }

  lemma {:induction false} ReadsArcs(arcs: seq<nat>)
    ensures ArcsFrom(SubIds(arcs), 0, false) == Some(Reduced(arcs))
  {
    hide Base128, ArcsFrom;
    if |arcs| > 0 {
      ReadsArc(arcs[0], SubIds(arcs[1..]));
      ReadsArcs(arcs[1..]);
      assert [arcs[0] % TWO_64] + Reduced(arcs[1..]) == Reduced(arcs);
    } else {
      assert ArcsFrom([], 0, false) == Some([]) by { EndOfArcs([], 0, false); }
    }
  }

  lemma ReducedIsSame(arcs: seq<nat>)
    ensures Reduced(arcs) == arcs <==> AllFit(arcs)
  {
    if Reduced(arcs) == arcs {
      forall i | 0 <= i < |arcs| ensures arcs[i] < TWO_64 { assert arcs[i] == Reduced(arcs)[i]; }
    }
  }

  lemma SmallRoot(first: nat, second: nat)
    requires IsRoot(first, second) && 40 * first + second < 0x80
    ensures FirstArcs(40 * first + second) == [first, second] && Base128(40 * first + second) == [40 * first + second]
  {}

  /** A first number of more than one octet leaves its other octets behind as one arc too many. */
  lemma LargeRoot(n: nat, rest: seq<byte>)
    requires n >= 0x80
    ensures var bs := Base128(n) + rest;
            Arcs(bs) == Behind(FirstArcs(bs[0]), ArcsFrom(bs[1..], 0, false))
            && (ArcsFrom(rest, 0, false).Some? ==>
                  ArcsFrom(bs[1..], 0, false).Some? &&
                  |ArcsFrom(bs[1..], 0, false).value| == |ArcsFrom(rest, 0, false).value| + 1)
  {
    var lead, bs := Leading(n / 0x80), Base128(n) + rest;
    Base128Is(n);
    LeadingContinues(n / 0x80);
    hide Leading, Base128, NextArc, FirstArcs;
    var others := lead[1..];
    assert bs[1..] == others + ([n % 0x80 as byte] + rest);
    ContinuesTo(others, n % 0x80, rest, 0, false);
  }

  /** Octets with the continuation bit and one without it are one arc. */
  lemma {:induction false} ContinuesTo(lead: seq<byte>, last: byte, rest: seq<byte>, value: u64, midArc: bool)
    requires last < 0x80 && forall i :: 0 <= i < |lead| ==> lead[i] >= 0x80
    ensures var r := ArcsFrom(lead + ([last] + rest), value, midArc);
            ArcsFrom(rest, 0, false).Some? ==> r.Some? && |r.value| == |ArcsFrom(rest, 0, false).value| + 1
    decreases |lead|
  {
    hide NextArc;
    if |lead| == 0 {
      assert lead + ([last] + rest) == [last] + rest;
      assert ([last] + rest)[1..] == rest;
    } else {
      assert (lead + ([last] + rest))[1..] == lead[1..] + ([last] + rest);
      ContinuesTo(lead[1..], last, rest, NextArc(value, lead[0]), true);
    }
  }

  /** The arcs are read back exactly when the first two share one octet and every other one fits 64 bits. */
  lemma ArcsReadBack(first: nat, second: nat, arcs: seq<nat>)
    requires IsRoot(first, second)
    ensures Arcs(OidContent(first, second, arcs)).Some?
    ensures Arcs(OidContent(first, second, arcs)) == Some([first, second] + arcs)
            <==> 40 * first + second < 0x80 && AllFit(arcs)
  {
    var n, rest := 40 * first + second, SubIds(arcs);
    var content := Base128(n) + rest;
    ReadsArcs(arcs);
    ReducedIsSame(arcs);
    if n < 0x80 {
      SmallRoot(first, second);
      hide Base128, SubIds, FirstArcs, ArcsFrom, AllFit, Reduced;
      assert content[0] == n && content[1..] == rest;
      assert Arcs(content) == Some([first, second] + Reduced(arcs));
      SameBehind([first, second], Reduced(arcs), arcs);
    } else {
      LargeRoot(n, rest);
      hide Base128, SubIds, ArcsFrom, AllFit;
      assert |FirstArcs(content[0])| == 2 && |Reduced(arcs)| == |arcs|;
      assert |Arcs(content).value| == |arcs| + 3;
    }
  }

  lemma SameBehind(front: seq<nat>, a: seq<nat>, b: seq<nat>)
    ensures front + a == front + b <==> a == b
  {
    assert (front + a)[|front|..] == a && (front + b)[|front|..] == b;
  }

  /** An identifier whose first octets are not one: 2.999 reads as 2.56.55. */
  lemma LargeRootReadsWrong()
    ensures IsRoot(2, 999) && Arcs(OidContent(2, 999, [])) == Some([2, 56, 55])
  {
    assert Leading(0) == [] && Leading(8) == [0x88];
    assert OidContent(2, 999, []) == [0x88, 0x37];
    var content: seq<byte> := [0x88, 0x37];
    ArcContinues(0x37, [], 0, false);
    EndOfArcs([], 0, false);
    assert content[1..] == [0x37] + [] && [55 as nat] + [] == [55] && [2 as nat, 56] + [55] == [2, 56, 55];
    assert FirstArcs(0x88) == [2, 56] && NextArc(0, 0x37) == 55;
  }

  // ---- The text ----

  lemma {:induction false} DottedShape(arcs: seq<nat>)
    requires |arcs| >= 1
    ensures var d, t := Dotted(arcs), ToString(arcs[|arcs| - 1]);
            && |d| >= |t| && d[|d| - |t|..] == t
            && (|arcs| == 1 <==> '.' !in d)
            && (|arcs| > 1 ==> |d| > |t| && d[|d| - |t| - 1] == '.' && d[..|d| - |t| - 1] == Dotted(arcs[..|arcs| - 1]))
  {
    var t := ToString(arcs[|arcs| - 1]);
    hide ToString;
    if |arcs| > 1 {
      var before := Dotted(arcs[..|arcs| - 1]);
      assert Dotted(arcs) == before + "." + t;
      assert (before + "." + t)[|before|] == '.';
    }
  }

  lemma LastDot(d: string, s: string, t: string)
    requires AllDigits(s) && AllDigits(t) && |s| < |d| && |t| < |d|
    requires d[|d| - |s|..] == s && d[|d| - |t|..] == t && d[|d| - |s| - 1] == '.' && d[|d| - |t| - 1] == '.'
    ensures s == t
  {
    assert forall k :: |d| - |s| <= k < |d| ==> d[k] == s[k - (|d| - |s|)] && d[k] != '.';
    assert forall k :: |d| - |t| <= k < |d| ==> d[k] == t[k - (|d| - |t|)] && d[k] != '.';
  }

  /** Different arcs have different texts. */
  lemma {:induction false} DottedIsInjective(a: seq<nat>, b: seq<nat>)
    requires |a| >= 1 && |b| >= 1 && Dotted(a) == Dotted(b)
    ensures a == b
  {
    DottedShape(a);
    DottedShape(b);
    var d, s, t := Dotted(a), ToString(a[|a| - 1]), ToString(b[|b| - 1]);
    hide Dotted, ToString;
    if |a| > 1 {
      LastDot(d, s, t);
      DottedIsInjective(a[..|a| - 1], b[..|b| - 1]);
    } else {
      assert d[|d| - |s|..] == d by { assert |Dotted(a)| == |s|; }
    }
    ToStringInjective(a[|a| - 1], b[|b| - 1]);
    assert a == a[..|a| - 1] + [a[|a| - 1]] && b == b[..|b| - 1] + [b[|b| - 1]];
  }

  lemma TextOfArcs(data: seq<byte>, el: Element, content: seq<byte>)
    requires el.contentOffset + el.contentLength <= |data| && el.IsUniversal(TAG_OID)
    requires data[el.contentOffset..el.contentOffset + el.contentLength] == content
    ensures OidText(data, el) == if Arcs(content).None? then "" else Dotted(Arcs(content).value)
  {
    hide Arcs, Dotted;
  }

  /** oid_to_string of a written object identifier is its dotted text, exactly when the first two arcs share one
      octet and every other one fits 64 bits. */
  lemma OidReadsBack(before: seq<byte>, first: nat, second: nat, arcs: seq<nat>, rest: seq<byte>)
    requires IsRoot(first, second) && |OidContent(first, second, arcs)| < TWO_64
    ensures var content := OidContent(first, second, arcs);
            var data := before + Der(Universal, false, TAG_OID, content) + rest;
            var el := Parse(data, |data|, |before|);
            && el.Some?
            && (OidText(data, el.value) == Dotted([first, second] + arcs)
                <==> 40 * first + second < 0x80 && AllFit(arcs))
  {
    var content := OidContent(first, second, arcs);
    ElementReads(before, Universal, false, TAG_OID, content, rest);
    ArcsReadBack(first, second, arcs);
    hide Der, Parse, OidContent, AllFit, Dotted, Arcs, OidText;
    var data := before + Der(Universal, false, TAG_OID, content) + rest;
    TextOfArcs(data, Parse(data, |data|, |before|).value, content);
    SameText(Arcs(content).value, [first, second] + arcs) by { ArcsAreTwo(content); }
  }

  lemma SameText(a: seq<nat>, b: seq<nat>)
    requires |a| >= 1 && |b| >= 1
    ensures Dotted(a) == Dotted(b) <==> a == b
  {
    hide Dotted;
    if Dotted(a) == Dotted(b) { DottedIsInjective(a, b); }
  }

  lemma ArcsAreTwo(content: seq<byte>)
    ensures Arcs(content).Some? ==> |Arcs(content).value| >= 2
  {}
}
