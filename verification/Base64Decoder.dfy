/** decode_base64 of src/engines/lolbins_engine.cpp, against the encoder of section 4 of RFC 4648. */
module Base64Decoder {
  import opened Common
  import opened Arithmetic

  // ---- Alphabet ----

  /** The decoding table; -1 for bytes outside the alphabet. '=' never reaches it. */
  function Sextet(c: byte): (d: int)
    ensures -1 <= d < 64
  {
    if 0x41 <= c <= 0x5A then c - 0x41             // A-Z
    else if 0x61 <= c <= 0x7A then c - 0x61 + 26   // a-z
    else if 0x30 <= c <= 0x39 then c - 0x30 + 52   // 0-9
    else if c == 0x2B then 62                      // +
    else if c == 0x2F then 63                      // /
    else -1
  }

  const PAD: byte := 0x3D   // =

  /** Table 1 of RFC 4648. */
  function Letter(d: nat): (c: byte)
    requires d < 64
    ensures c != PAD && Sextet(c) == d
  {
    if d < 26 then 0x41 + d else if d < 52 then 0x61 + d - 26 else if d < 62 then 0x30 + d - 52
    else if d == 62 then 0x2B else 0x2F
  }

  /** The encoder of the standard: three bytes to four letters, the last group padded. */
  function Encode(b: seq<byte>): seq<byte> {
    if |b| == 0 then []
    else if |b| == 1 then [Letter(b[0] / 4), Letter(b[0] % 4 * 16), PAD, PAD]
    else if |b| == 2 then
      [Letter(b[0] / 4), Letter(b[0] % 4 * 16 + b[1] / 16), Letter(b[1] % 16 * 4), PAD]
    else
      [Letter(b[0] / 4), Letter(b[0] % 4 * 16 + b[1] / 16), Letter(b[1] % 16 * 4 + b[2] / 64), Letter(b[2] % 64)]
        + Encode(b[3..])
  }

  // ---- The decoding loop ----

  /** val << 6 | d in 32 bits. */
  function Shifted(val: u32, d: nat): u32
    requires d < 64
  {
    (val % 0x400_0000) * 64 + d
  }

  /** The byte of the accumulator above its lowest bits, for the shifts that occur. */
  function TopByte(val: u32, bits: nat): byte
    requires bits < 6
  {
    if bits == 0 then val % 0x100
    else if bits == 1 then val / 2 % 0x100
    else if bits == 2 then val / 4 % 0x100
    else if bits == 3 then val / 8 % 0x100
    else if bits == 4 then val / 16 % 0x100
    else val / 32 % 0x100
  }

  /** What the loop still appends when it stands before s with this accumulator. */
  function Decoded(s: seq<byte>, val: u32, bits: int): seq<byte>
    requires -8 <= bits < 0
  {
    if |s| == 0 || s[0] == PAD then []
    else if Sextet(s[0]) == -1 then Decoded(s[1..], val, bits)
    else
      var val' := Shifted(val, Sextet(s[0]));
      if bits + 6 >= 0 then [TopByte(val', bits + 6)] + Decoded(s[1..], val', bits + 6 - 8)
      else Decoded(s[1..], val', bits + 6)
  }

  method DecodeBytes(b64: seq<byte>) returns (raw: seq<byte>)
    ensures raw == Decoded(b64, 0, -8)
  {
    raw := [];
    var val: u32 := 0;
    var bits := -8;
    for i := 0 to |b64|
      invariant -8 <= bits < 0
      invariant raw + Decoded(b64[i..], val, bits) == Decoded(b64, 0, -8)
    {
      var c := b64[i];
      assert b64[i..][1..] == b64[i + 1..];
      if c == PAD { return; }
      var d := Sextet(c);
      if d == -1 { continue; }
      val := Shifted(val, d);
      bits := bits + 6;
      if bits >= 0 {
        assert raw + ([TopByte(val, bits)] + Decoded(b64[i + 1..], val, bits - 8))
            == (raw + [TopByte(val, bits)]) + Decoded(b64[i + 1..], val, bits - 8);
        raw := raw + [TopByte(val, bits)];
        bits := bits - 8;
      }
    }
  }

  // ---- Junk is skipped ----

  /** The text without the bytes that are neither letters of the alphabet nor padding. */
  function Stripped(s: seq<byte>): seq<byte> {
    if |s| == 0 then []
    else if s[0] != PAD && Sextet(s[0]) == -1 then Stripped(s[1..])
    else [s[0]] + Stripped(s[1..])
  }

  lemma {:induction false} JunkIsSkipped(s: seq<byte>, val: u32, bits: int)
    requires -8 <= bits < 0
    ensures Decoded(s, val, bits) == Decoded(Stripped(s), val, bits)
  {
    if |s| > 0 && s[0] != PAD {
      if Sextet(s[0]) == -1 {
        JunkIsSkipped(s[1..], val, bits);
      } else {
        var val' := Shifted(val, Sextet(s[0]));
        assert Stripped(s)[1..] == Stripped(s[1..]);
        JunkIsSkipped(s[1..], val', if bits + 6 >= 0 then bits - 2 else bits + 6);
      }
    }
  }

  // ---- Groups ----

  /** The bits of the accumulator that a byte takes: all of them come from the last two sextets. */
  lemma AccumulatedBytes(val: u32, d: nat, e: nat)
    requires d < 64 && e < 64 && val % 64 == d
    ensures var v := Shifted(val, e);
            && v % 64 == e
            && TopByte(v, 4) == d * 4 + e / 16
            && TopByte(v, 2) == d % 16 * 16 + e / 4
            && TopByte(v, 0) == d % 4 * 64 + e
  {
    var v, q := Shifted(val, e), (val % 0x400_0000) / 64;
    assert v == 4096 * q + 64 * d + e by { assert val % 0x400_0000 == 64 * q + d; }
    FirstByte(v, q, d, e);
    SecondByte(v, q, d, e);
    ThirdByte(v, q, d, e);
  }

  lemma FirstByte(v: nat, q: nat, d: nat, e: nat)
    requires v == 4096 * q + 64 * d + e && d < 64 && e < 64
    ensures v / 16 % 0x100 == d * 4 + e / 16
  {
    DivModUnique(v, 16, 256 * q + (4 * d + e / 16), e % 16);
    DivModUnique(256 * q + (4 * d + e / 16), 256, q, 4 * d + e / 16);
  }

  lemma SecondByte(v: nat, q: nat, d: nat, e: nat)
    requires v == 4096 * q + 64 * d + e && d < 64 && e < 64
    ensures v / 4 % 0x100 == d % 16 * 16 + e / 4
  {
    DivModUnique(v, 4, 1024 * q + 16 * d + e / 4, e % 4);
    DivModUnique(1024 * q + 16 * d + e / 4, 256, 4 * q + d / 16, d % 16 * 16 + e / 4);
  }

  lemma ThirdByte(v: nat, q: nat, d: nat, e: nat)
    requires v == 4096 * q + 64 * d + e && d < 64 && e < 64
    ensures v % 0x100 == d % 4 * 64 + e && v % 64 == e
  {
    DivModUnique(v, 256, 16 * q + d / 4, d % 4 * 64 + e);
    DivModUnique(v, 64, 64 * q + d, e);
  }

  lemma FirstTwo(d0: nat, d1: nat, rest: seq<byte>, val: u32)
    requires d0 < 64 && d1 < 64
    ensures var v2 := Shifted(Shifted(val, d0), d1);
            && Decoded([Letter(d0), Letter(d1)] + rest, val, -8) == [d0 * 4 + d1 / 16] + Decoded(rest, v2, -4)
            && v2 % 64 == d1
  {
    var s := [Letter(d0), Letter(d1)] + rest;
    var v1 := Shifted(val, d0);
    assert s[1..] == [Letter(d1)] + rest && s[1..][1..] == rest;
    assert v1 % 64 == d0;
    AccumulatedBytes(v1, d0, d1);
    hide Shifted, TopByte;
    assert Decoded(s, val, -8) == Decoded(s[1..], v1, -2);
  }

  lemma Third(d1: nat, d2: nat, rest: seq<byte>, val: u32)
    requires d1 < 64 && d2 < 64 && val % 64 == d1
    ensures var v3 := Shifted(val, d2);
            Decoded([Letter(d2)] + rest, val, -4) == [d1 % 16 * 16 + d2 / 4] + Decoded(rest, v3, -6) && v3 % 64 == d2
  {
    AccumulatedBytes(val, d1, d2);
    hide Shifted, TopByte;
    assert ([Letter(d2)] + rest)[1..] == rest;
  }

  lemma Fourth(d2: nat, d3: nat, rest: seq<byte>, val: u32)
    requires d2 < 64 && d3 < 64 && val % 64 == d2
    ensures Decoded([Letter(d3)] + rest, val, -6) == [d2 % 4 * 64 + d3] + Decoded(rest, Shifted(val, d3), -8)
  {
    AccumulatedBytes(val, d2, d3);
    hide Shifted, TopByte;
    assert ([Letter(d3)] + rest)[1..] == rest;
  }

  /** The sextets of three bytes put the bytes back together. */
  lemma SextetsOf(x: byte, y: byte, z: byte)
    ensures x / 4 * 4 + (x % 4 * 16 + y / 16) / 16 == x
    ensures (x % 4 * 16 + y / 16) % 16 * 16 + (y % 16 * 4 + z / 64) / 4 == y
    ensures (y % 16 * 4 + z / 64) % 4 * 64 + z % 64 == z
  {
  }

  /** One group of four letters, from a fresh accumulator to a fresh accumulator. */
  lemma GroupDecodes(x: byte, y: byte, z: byte, rest: seq<byte>, val: u32) returns (v: u32)
    ensures Decoded([Letter(x / 4), Letter(x % 4 * 16 + y / 16), Letter(y % 16 * 4 + z / 64), Letter(z % 64)] + rest,
                    val, -8)
         == [x, y, z] + Decoded(rest, v, -8)
  {
    var d0, d1, d2, d3 := x / 4, x % 4 * 16 + y / 16, y % 16 * 4 + z / 64, z % 64;
    var v2 := Shifted(Shifted(val, d0), d1);
    v := Shifted(Shifted(v2, d2), d3);
    SextetsOf(x, y, z);
    FirstTwo(d0, d1, [Letter(d2), Letter(d3)] + rest, val);
    Third(d1, d2, [Letter(d3)] + rest, v2);
    Fourth(d2, d3, rest, Shifted(v2, d2));
    hide Decoded, Shifted, Letter;
    FourInTurn(Letter(d0), Letter(d1), Letter(d2), Letter(d3), rest);
    ThreeInTurn(x, y, z, Decoded(rest, v, -8));
  }

  lemma FourInTurn(a: byte, b: byte, c: byte, d: byte, rest: seq<byte>)
    ensures [a, b, c, d] + rest == [a, b] + ([c, d] + rest) && [c, d] + rest == [c] + ([d] + rest)
  {}

  lemma ThreeInTurn(a: byte, b: byte, c: byte, rest: seq<byte>)
    ensures [a] + ([b] + ([c] + rest)) == [a, b, c] + rest
  {}

  /** The padded last groups. */
  lemma LastGroupDecodes(b: seq<byte>, val: u32)
    requires |b| == 1 || |b| == 2
    ensures Decoded(Encode(b), val, -8) == b
  {
    var x, y := b[0], if |b| == 1 then 0 else b[1];
    var d0, d1, d2 := x / 4, x % 4 * 16 + y / 16, y % 16 * 4;
    var tail := if |b| == 1 then [PAD, PAD] else [Letter(d2), PAD];
    var v2 := Shifted(Shifted(val, d0), d1);
    SextetsOf(x, y, 0);
    FirstTwo(d0, d1, tail, val);
    assert Encode(b) == [Letter(d0), Letter(d1)] + tail;
    if |b| == 1 {
      EndsAt(tail, v2, -4);
    } else {
      Third(d1, d2, [PAD], v2);
      assert tail == [Letter(d2)] + [PAD];
      EndsAt([PAD], Shifted(v2, d2), -6);
    }
  }

  /** Whatever the accumulator still holds, decoding the standard's encoding gives the bytes back. */
  lemma {:induction false} DecodedEncode(b: seq<byte>, val: u32)
    ensures Decoded(Encode(b), val, -8) == b
    decreases |b|
  {
    if |b| == 0 {
      EndsAt([], val, -8);
    } else if |b| <= 2 {
      LastGroupDecodes(b, val);
    } else {
      var v := GroupDecodes(b[0], b[1], b[2], Encode(b[3..]), val);
      DecodedEncode(b[3..], v);
      hide Decoded, Letter;
      assert b == [b[0], b[1], b[2]] + b[3..];
    }
  }

  lemma EndsAt(s: seq<byte>, val: u32, bits: int)
    requires -8 <= bits < 0 && (|s| == 0 || s[0] == PAD)
    ensures Decoded(s, val, bits) == []
  {
  }

  // ---- UTF-16LE ----

  /** The heuristic that takes decoded bytes for UTF-16LE text. */
  predicate LooksUtf16(raw: seq<byte>) {
    |raw| >= 4 && raw[1] == 0 && raw[3] == 0
  }

  predicate Kept(w: int) {
    32 <= w <= 126 || w == 10 || w == 13 || w == 9
  }

  /** The printable ASCII of the code units, everything else dropped. */
  function AsciiOf(raw: seq<byte>): seq<byte> {
    if |raw| < 2 then []
    else
      var w: int := raw[0] + 0x100 * raw[1] as int;
      (if Kept(w) then [w] else []) + AsciiOf(raw[2..])
  }

  function DecodeResult(raw: seq<byte>): Option<seq<byte>> {
    if |raw| == 0 then None else if LooksUtf16(raw) then Some(AsciiOf(raw)) else Some(raw)
  }

  method DecodeBase64(b64: seq<byte>) returns (r: Option<seq<byte>>)
    ensures r == DecodeResult(Decoded(b64, 0, -8))
  {
    if |b64| == 0 { return None; }
    var raw := DecodeBytes(b64);
    if |raw| == 0 { return None; }
    if !LooksUtf16(raw) { return Some(raw); }
    var result := KeepAscii(raw);
    return Some(result);
  }

  /** The conversion loop: pairs of bytes as little-endian units. */
  method KeepAscii(raw: seq<byte>) returns (result: seq<byte>)
    ensures result == AsciiOf(raw)
  {
    result := [];
    var i := 0;
    assert raw[0..] == raw;
    while i + 1 < |raw|
      invariant 0 <= i <= |raw|
      invariant result + AsciiOf(raw[i..]) == AsciiOf(raw)
    {
      assert raw[i..][2..] == raw[i + 2..];
      var w: int := raw[i] + 0x100 * raw[i + 1] as int;
      if Kept(w) {
        assert result + ([w] + AsciiOf(raw[i + 2..])) == (result + [w]) + AsciiOf(raw[i + 2..]);
        result := result + [w];
      } else {
        assert [] + AsciiOf(raw[i + 2..]) == AsciiOf(raw[i + 2..]);
      }
      i := i + 2;
    }
  }

  lemma {:induction false} AsciiIsShorter(raw: seq<byte>)
    ensures 2 * |AsciiOf(raw)| <= |raw|
  {
    if |raw| >= 2 { AsciiIsShorter(raw[2..]); }
  }

  /** decode_base64 inverts the standard's encoding of every non-empty byte string, junk interleaved or
      not, exactly when the string does not look like UTF-16LE. */
  lemma DecodeInvertsEncode(b: seq<byte>, text: seq<byte>)
    requires |b| > 0 && Stripped(text) == Encode(b)
    ensures DecodeResult(Decoded(text, 0, -8)) == Some(b) <==> !(|b| >= 4 && b[1] == 0 && b[3] == 0)
  {
    JunkIsSkipped(text, 0, -8);
    DecodedEncode(b, 0);
    AsciiIsShorter(b);
  }

  function Utf16Of(ascii: seq<byte>): seq<byte> {
    if |ascii| == 0 then [] else [ascii[0], 0] + Utf16Of(ascii[1..])
  }

  lemma {:induction false} AsciiOfUtf16(ascii: seq<byte>)
    requires forall i :: 0 <= i < |ascii| ==> Kept(ascii[i])
    ensures AsciiOf(Utf16Of(ascii)) == ascii
  {
    if |ascii| > 0 {
      AsciiOfUtf16(ascii[1..]);
      assert Utf16Of(ascii)[2..] == Utf16Of(ascii[1..]);
    }
  }

  /** From UTF-16LE text of printable ASCII, tabs and line ends, the text itself comes back, exactly when
      it has two characters or more (or none and nothing is decoded). */
  lemma DecodeRecoversText(ascii: seq<byte>, text: seq<byte>)
    requires forall i :: 0 <= i < |ascii| ==> 32 <= ascii[i] <= 126 || ascii[i] in {9, 10, 13}
    requires Stripped(text) == Encode(Utf16Of(ascii))
    ensures DecodeResult(Decoded(text, 0, -8)) == Some(ascii) <==> |ascii| >= 2
  {
    var raw := Utf16Of(ascii);
    JunkIsSkipped(text, 0, -8);
    DecodedEncode(raw, 0);
    AsciiOfUtf16(ascii);
    if |ascii| >= 2 {
      assert raw[2..] == Utf16Of(ascii[1..]);
      assert raw[3] == raw[2..][1];
    } else if |ascii| == 1 {
      assert raw == [ascii[0], 0];
    }
  }

  // ---- The tables ----

  /** Table 1 of RFC 4648, section 4. */
  const ALPHABET: string := CAPITALS + SMALL + "0123456789+/"

  const CAPITALS: string := "ABCDEFGHIJKLMNOPQRSTUVWXYZ"
  const SMALL: string := "abcdefghijklmnopqrstuvwxyz"

  /** The decoding table inverts that alphabet: a byte decodes to d exactly when it is letter d of it. */
  lemma TableIsAlphabet(c: byte, d: nat)
    requires d < 64
    ensures |ALPHABET| == 64
    ensures Sextet(c) == d <==> c == ALPHABET[d] as int
    ensures Sextet(c) == -1 <==> forall k :: 0 <= k < 64 ==> c != ALPHABET[k] as int
  {
    LetterIs(d);
    if Sextet(c) >= 0 { LetterIs(Sextet(c)); }
    forall k | 0 <= k < 64 ensures ALPHABET[k] as int == Letter(k) && Sextet(Letter(k)) == k { LetterIs(k); }
  }

  lemma LetterIs(d: nat)
    requires d < 64
    ensures |ALPHABET| == 64 && ALPHABET[d] as int == Letter(d)
  {
    if d < 26 {
      SmallIndex(d);
      assert ALPHABET[d] == CAPITALS[d];
    } else if d < 52 {
      SmallIndex(d - 26);
      assert ALPHABET[d] == SMALL[d - 26];
    } else {
      var e := d - 52;
      assert e in {0, 1, 2, 3, 4, 5, 6, 7, 8, 9, 10, 11};
      assert ALPHABET[d] == "0123456789+/"[e];
    }
  }

  lemma SmallIndex(d: nat)
    requires d < 26
    ensures CAPITALS[d] as int == 'A' as int + d && SMALL[d] as int == 'a' as int + d
  {
    assert d in {0, 1, 2, 3, 4, 5, 6, 7, 8, 9, 10, 11, 12, 13, 14, 15, 16, 17, 18, 19, 20, 21, 22, 23, 24, 25};
  }

  // ---- Any UTF-16LE text ----

  /** The printable ones of some code units, tabs and line ends among them. */
  function Printable(units: seq<u16>): seq<byte> {
    if |units| == 0 then []
    else (if 32 <= units[0] <= 126 || units[0] in {9, 10, 13} then [units[0]] else []) + Printable(units[1..])
  }

  function LittleEndianUnits(units: seq<u16>): seq<byte> {
    if |units| == 0 then [] else [units[0] % 0x100, units[0] / 0x100] + LittleEndianUnits(units[1..])
  }

  /** Of any units, exactly the printable ones are kept, in order; a stray last byte is dropped. */
  lemma {:induction false} KeepsPrintable(units: seq<u16>, stray: seq<byte>)
    requires |stray| <= 1
    ensures AsciiOf(LittleEndianUnits(units) + stray) == Printable(units)
  {
    var raw := LittleEndianUnits(units) + stray;
    if |units| > 0 {
      KeepsPrintable(units[1..], stray);
      assert raw[2..] == LittleEndianUnits(units[1..]) + stray;
    }
  }
}
