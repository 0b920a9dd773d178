/** utf16le_to_utf8 of src/security/etw_kernel_process_engine.cpp. */
module Utf16Decoder {
  import opened Common

  /** A Unicode scalar value. */
  predicate IsScalar(cp: int) {
    0 <= cp < 0xD800 || 0xE000 <= cp < 0x11_0000
  }

  // ---- The two encodings ----

  predicate IsCodePoint(cp: int) {
    0 <= cp < 0x11_0000
  }

  /** UTF-8, section 3 of RFC 3629, and by the same scheme the surrogates, which that section leaves out. */
  function Utf8(cp: int): (bs: seq<byte>)
    requires 0 <= cp < 0x11_0000
    ensures 1 <= |bs| <= 4
  {
    if cp < 0x80 then [cp]
    else if cp < 0x800 then [0xC0 + cp / 0x40, 0x80 + cp % 0x40]
    else if cp < 0x1_0000 then [0xE0 + cp / 0x1000, 0x80 + cp / 0x40 % 0x40, 0x80 + cp % 0x40]
    else [0xF0 + cp / 0x4_0000, 0x80 + cp / 0x1000 % 0x40, 0x80 + cp / 0x40 % 0x40, 0x80 + cp % 0x40]
  }

  function Unit(u: u16): (bs: seq<byte>)
    ensures |bs| == 2
  {
    [u % 0x100, u / 0x100]
  }

  /** UTF-16LE, section 2.1 of RFC 2781: one unit, or a surrogate pair. */
  function Utf16(cp: int): (bs: seq<byte>)
    requires IsScalar(cp)
    ensures |bs| == 2 || |bs| == 4
  {
    if cp < 0x1_0000 then Unit(cp)
    else Unit(0xD800 + (cp - 0x1_0000) / 0x400) + Unit(0xDC00 + (cp - 0x1_0000) % 0x400)
  }

  ghost predicate AllScalars(cps: seq<int>) {
    forall i :: 0 <= i < |cps| ==> IsScalar(cps[i])
  }

  ghost predicate AllCodePoints(cps: seq<int>) {
    forall i :: 0 <= i < |cps| ==> IsCodePoint(cps[i])
  }

  ghost function Utf8Text(cps: seq<int>): seq<byte>
    requires AllCodePoints(cps)
  {
    if |cps| == 0 then [] else Utf8(cps[0]) + Utf8Text(cps[1..])
  }

  /** What section 3 of RFC 3629 calls UTF-8: the text of scalar values. */
  ghost predicate IsUtf8(bs: seq<byte>) {
    exists cps | AllScalars(cps) && AllCodePoints(cps) :: bs == Utf8Text(cps)
  }

  ghost function Utf16Text(cps: seq<int>): seq<byte>
    requires AllScalars(cps)
  {
    if |cps| == 0 then [] else Utf16(cps[0]) + Utf16Text(cps[1..])
  }

  /** Reads one UTF-8 sequence back: how many bytes the first one announces, and the value they carry. */
  function ReadUtf8(bs: seq<byte>): Option<(int, nat)> {
    var b := (i: nat) => if i < |bs| then bs[i] as int else 0;
    if |bs| >= 1 && b(0) < 0x80 then Some((b(0), 1))
    else if |bs| >= 2 && 0xC0 <= b(0) < 0xE0 then Some(((b(0) - 0xC0) * 0x40 + (b(1) - 0x80), 2))
    else if |bs| >= 3 && 0xE0 <= b(0) < 0xF0 then
      Some(((b(0) - 0xE0) * 0x1000 + (b(1) - 0x80) * 0x40 + (b(2) - 0x80), 3))
    else if |bs| >= 4 && 0xF0 <= b(0) < 0xF8 then
      Some(((b(0) - 0xF0) * 0x4_0000 + (b(1) - 0x80) * 0x1000 + (b(2) - 0x80) * 0x40 + (b(3) - 0x80), 4))
    else None
  }

  /** The reference encoding is uniquely readable. */
  lemma Utf8ReadsBack(cp: int, rest: seq<byte>)
    requires 0 <= cp < 0x11_0000
    ensures ReadUtf8(Utf8(cp) + rest) == Some((cp, |Utf8(cp)|))
  {
    var bs := Utf8(cp) + rest;
    assert bs[0] == Utf8(cp)[0];
    if cp >= 0x1_0000 {
      assert cp / 0x40 / 0x40 == cp / 0x1000 && cp / 0x1000 / 0x40 == cp / 0x4_0000;
    } else if cp >= 0x800 {
      assert cp / 0x40 / 0x40 == cp / 0x1000;
    }
  }

  // ---- The converter ----

  /** The code point at i and how many bytes it takes: a high surrogate joins a following low one, and an
      unpaired surrogate stands for itself. */
  function CodePointAt(data: seq<byte>, i: nat): (r: (int, nat))
    requires i + 1 < |data|
    ensures 0 <= r.0 < 0x11_0000 && (r.1 == 2 || r.1 == 4) && i + r.1 <= |data|
  {
    var unit: int := data[i] + 0x100 * data[i + 1] as int;
    if 0xD800 <= unit <= 0xDBFF && i + 3 < |data| then
      var low: int := data[i + 2] + 0x100 * data[i + 3] as int;
      if 0xDC00 <= low <= 0xDFFF then (0x1_0000 + (unit - 0xD800) * 0x400 + (low - 0xDC00), 4) else (unit, 2)
    else (unit, 2)
  }

  /** The UTF-8 text of the units from i up to a NUL unit or the end; an odd last byte is ignored. */
  function Converted(data: seq<byte>, i: nat): seq<byte>
    decreases |data| - i
  {
    if i + 1 >= |data| || (data[i] == 0 && data[i + 1] == 0) then []
    else Utf8(CodePointAt(data, i).0) + Converted(data, i + CodePointAt(data, i).1)
  }

  /** The branches that append one code point, byte by byte. */
  method AppendCodePoint(before: seq<byte>, cp: int) returns (out: seq<byte>)
    requires 0 <= cp < 0x11_0000
    ensures out == before + Utf8(cp)
  {
    out := before;
    if cp <= 0x7F {
      out := out + [cp];
    } else if cp <= 0x7FF {
      out := out + [0xC0 + cp / 0x40];
      out := out + [0x80 + cp % 0x40];
    } else if cp <= 0xFFFF {
      out := out + [0xE0 + cp / 0x1000];
      out := out + [0x80 + cp / 0x40 % 0x40];
      out := out + [0x80 + cp % 0x40];
    } else {
      out := out + [0xF0 + cp / 0x4_0000];
      out := out + [0x80 + cp / 0x1000 % 0x40];
      out := out + [0x80 + cp / 0x40 % 0x40];
      out := out + [0x80 + cp % 0x40];
    }
  }

  method Utf16leToUtf8(data: seq<byte>) returns (out: seq<byte>)
    ensures out == Converted(data, 0)
  {
    hide Utf8;
    out := [];
    var i := 0;
    while i + 1 < |data|
      invariant 0 <= i <= |data|
      invariant out + Converted(data, i) == Converted(data, 0)
    {
      ghost var start, before := i, out;
      var unit: int := data[i] + 0x100 * data[i + 1] as int;
      i := i + 2;
      if unit == 0 { break; }
      var cp := unit;
      if 0xD800 <= unit <= 0xDBFF && i + 1 < |data| {
        var low: int := data[i] + 0x100 * data[i + 1] as int;
        if 0xDC00 <= low <= 0xDFFF {
          cp := 0x1_0000 + (unit - 0xD800) * 0x400 + (low - 0xDC00);
          i := i + 2;
        }
      }
      assert CodePointAt(data, start) == (cp, i - start);
      out := AppendCodePoint(out, cp);
      assert before + (Utf8(cp) + Converted(data, i)) == (before + Utf8(cp)) + Converted(data, i);
    }
  }

  lemma CodePointOfUtf16(front: seq<byte>, cp: int, rest: seq<byte>)
    requires IsScalar(cp)
    ensures CodePointAt(front + Utf16(cp) + rest, |front|) == (cp, |Utf16(cp)|)
    ensures cp != 0 ==> !((front + Utf16(cp) + rest)[|front|] == 0 && (front + Utf16(cp) + rest)[|front| + 1] == 0)
  {
    var data := front + Utf16(cp) + rest;
    assert data[|front|] == Utf16(cp)[0] && data[|front| + 1] == Utf16(cp)[1];
    if cp >= 0x1_0000 {
      assert data[|front| + 2] == Utf16(cp)[2] && data[|front| + 3] == Utf16(cp)[3];
    }
  }

  /** What may follow the text: nothing, one stray byte, or a NUL unit and anything after it. */
  predicate Terminates(rest: seq<byte>) {
    |rest| < 2 || (rest[0] == 0 && rest[1] == 0)
  }

  lemma Middle(a: seq<byte>, b: seq<byte>, c: seq<byte>, d: seq<byte>)
    ensures a + (b + c) + d == a + b + (c + d) == (a + b) + c + d
  {
    Regroup(a, b, c);
    Regroup(a + b, c, d);
  }

  /** Every UTF-16LE text of non-zero scalar values becomes the UTF-8 form of the same values. */
  lemma {:induction false} ConvertsText(front: seq<byte>, cps: seq<int>, rest: seq<byte>)
    requires AllScalars(cps) && 0 !in cps
    requires Terminates(rest)
    ensures Converted(front + Utf16Text(cps) + rest, |front|) == Utf8Text(cps)
    decreases |cps|
  {
    var data := front + Utf16Text(cps) + rest;
    if |cps| == 0 {
      assert data == front + rest;
      if |rest| >= 2 { assert data[|front|] == rest[0] && data[|front| + 1] == rest[1]; }
    } else {
      hide Utf16, Utf8, CodePointAt;
      var head := Utf16(cps[0]);
      Middle(front, head, Utf16Text(cps[1..]), rest);
      CodePointOfUtf16(front, cps[0], Utf16Text(cps[1..]) + rest);
      ConvertsText(front + head, cps[1..], rest);
    }
  }

  // ---- When the result is UTF-8 ----

  /** The code points that the units from i up to a NUL unit or the end stand for. */
  ghost function CodePoints(data: seq<byte>, i: nat): (cps: seq<int>)
    ensures AllCodePoints(cps)
    decreases |data| - i
  {
    if i + 1 >= |data| || (data[i] == 0 && data[i + 1] == 0) then []
    else [CodePointAt(data, i).0] + CodePoints(data, i + CodePointAt(data, i).1)
  }

  lemma {:induction false} ConvertedIsText(data: seq<byte>, i: nat)
    ensures Converted(data, i) == Utf8Text(CodePoints(data, i))
    decreases |data| - i
  {
    hide CodePointAt, Utf8;
    if !(i + 1 >= |data| || (data[i] == 0 && data[i + 1] == 0)) {
      ConvertedIsText(data, i + CodePointAt(data, i).1);
    }
  }

  /** No two lists of code points have the same text. */
  lemma {:induction false} TextIsUnique(a: seq<int>, b: seq<int>)
    requires AllCodePoints(a) && AllCodePoints(b) && Utf8Text(a) == Utf8Text(b)
    ensures a == b
    decreases |a|
  {
    hide Utf8, ReadUtf8;
    if |a| > 0 && |b| > 0 {
      Utf8ReadsBack(a[0], Utf8Text(a[1..]));
      Utf8ReadsBack(b[0], Utf8Text(b[1..]));
      assert Utf8Text(a)[|Utf8(a[0])|..] == Utf8Text(a[1..]) && Utf8Text(b)[|Utf8(b[0])|..] == Utf8Text(b[1..]);
      TextIsUnique(a[1..], b[1..]);
      assert a == [a[0]] + a[1..] && b == [b[0]] + b[1..];
    }
  }

  function UnitAt(data: seq<byte>, k: nat): u16
    requires 2 * k + 1 < |data|
  {
    ReadU16(data, 2 * k)
  }

  /** Whether the unit at k is there and lies in a range. */
  predicate UnitIn(data: seq<byte>, k: int, low: u16, high: u16) {
    0 <= k && 2 * k + 1 < |data| && low <= UnitAt(data, k) <= high
  }

  predicate IsHigh(data: seq<byte>, k: int) {
    UnitIn(data, k, 0xD800, 0xDBFF)
  }

  predicate IsLow(data: seq<byte>, k: int) {
    UnitIn(data, k, 0xDC00, 0xDFFF)
  }

  /** A high surrogate without a low one behind it, or a low one without a high one before it. */
  predicate Unpaired(data: seq<byte>, k: int) {
    (IsHigh(data, k) && !IsLow(data, k + 1)) || (IsLow(data, k) && !IsHigh(data, k - 1))
  }

  /** The first NUL unit from k on, or how many units there are. */
  function TextEnd(data: seq<byte>, k: nat): (end: nat)
    requires 2 * k <= |data| + 1
    ensures end >= k
    decreases |data| - k
  {
    if 2 * k + 1 >= |data| || UnitAt(data, k) == 0 then k else TextEnd(data, k + 1)
  }

  ghost predicate PairedFrom(data: seq<byte>, k: nat)
    requires 2 * k <= |data| + 1
  {
    forall j :: k <= j < TextEnd(data, k) ==> !Unpaired(data, j)
  }

  /** What lies at the start of a character: a pair, or one unit that is a scalar value unless it is unpaired. */
  lemma CharacterAt(data: seq<byte>, k: nat)
    requires 2 * k + 1 < |data| && !(IsHigh(data, k - 1) && IsLow(data, k))
    ensures CodePointAt(data, 2 * k).1 == if IsHigh(data, k) && IsLow(data, k + 1) then 4 else 2
    ensures IsScalar(CodePointAt(data, 2 * k).0) <==> !Unpaired(data, k)
  {
    assert IsHigh(data, k) && IsLow(data, k + 1) ==> CodePointAt(data, 2 * k).0 >= 0x1_0000;
  }

  /** From the start of a character on. */
  lemma {:induction false} ScalarsFrom(data: seq<byte>, k: nat)
    requires 2 * k <= |data| && !(IsHigh(data, k - 1) && IsLow(data, k))
    ensures AllScalars(CodePoints(data, 2 * k)) <==> PairedFrom(data, k)
    decreases |data| - k
  {
    if 2 * k + 1 < |data| && UnitAt(data, k) != 0 {
      var (cp, n) := CodePointAt(data, 2 * k);
      CharacterAt(data, k);
      hide CodePointAt, IsScalar;
      var next := CodePoints(data, 2 * k + n);
      assert CodePoints(data, 2 * k) == [cp] + next;
      FirstScalar(cp, next);
      if n == 4 {
        assert UnitAt(data, k + 1) != 0 && !Unpaired(data, k + 1);
        assert TextEnd(data, k) == TextEnd(data, k + 2);
        ScalarsFrom(data, k + 2);
      } else {
        ScalarsFrom(data, k + 1);
      }
    }
  }

  lemma FirstScalar(cp: int, rest: seq<int>)
    ensures AllScalars([cp] + rest) <==> IsScalar(cp) && AllScalars(rest)
  {
    assert AllScalars([cp] + rest) ==> IsScalar(([cp] + rest)[0]);
    forall i | AllScalars([cp] + rest) && 0 <= i < |rest| ensures IsScalar(rest[i]) {
      assert IsScalar(([cp] + rest)[i + 1]);
    }
  }

  /** The result is UTF-8 exactly when no unpaired surrogate comes before the NUL or the end. */
  lemma ConvertedIsUtf8(data: seq<byte>)
    ensures IsUtf8(Converted(data, 0)) <==> forall k :: 0 <= k < TextEnd(data, 0) ==> !Unpaired(data, k)
  {
    var cps := CodePoints(data, 0);
    ConvertedIsText(data, 0);
    ScalarsFrom(data, 0);
    hide CodePoints, Converted, Utf8Text, TextEnd, Unpaired, IsScalar;
    if IsUtf8(Converted(data, 0)) {
      var other :| AllScalars(other) && AllCodePoints(other) && Converted(data, 0) == Utf8Text(other);
      TextIsUnique(cps, other);
    }
  }
}
