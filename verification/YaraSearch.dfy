/** Pattern search of src/engines/yara_engine.cpp: byte by byte for short or wildcard patterns, and
    Boyer-Moore-Horspool for the rest. */
module YaraSearch {
  import opened Common

  datatype YaraString = YaraString(pattern: seq<byte>, mask: seq<byte>, isHex: bool, nocase: bool) {
    /** ASCII letters compare without case. */
    predicate Folds() {
      nocase && !isHex
    }

    /** Mask bytes beyond the mask's end count as 0xFF. */
    function MaskAt(j: nat): byte {
      if j < |mask| then mask[j] else 0xFF
    }
  }

  /** Bitwise and of two bytes, bit by bit. */
  function And(x: nat, m: nat): nat {
    if x == 0 || m == 0 then 0 else 2 * And(x / 2, m / 2) + (x % 2) * (m % 2)
  }

  function LowBits(n: nat): nat {
    if n == 0 then 0 else 2 * LowBits(n - 1) + 1
  }

  lemma {:induction false} AndLowBits(x: nat, n: nat)
    requires x <= LowBits(n)
    ensures And(x, LowBits(n)) == x
  {
    if n > 0 && x > 0 {
      AndLowBits(x / 2, n - 1);
      assert LowBits(n) / 2 == LowBits(n - 1) && LowBits(n) % 2 == 1;
    }
  }

  /** A full mask keeps every bit. */
  lemma AndFull(x: byte)
    ensures And(x, 0xFF) == x
  {
    assert LowBits(4) == 15;
    assert LowBits(8) == 2 * LowBits(7) + 1 == 4 * LowBits(6) + 3 == 8 * LowBits(5) + 7 == 16 * LowBits(4) + 15;
    AndLowBits(x, 8);
  }

  function Lower(b: byte): byte {
    if 0x41 <= b <= 0x5A then b + 0x20 else b
  }

  function Upper(b: byte): byte {
    if 0x61 <= b <= 0x7A then b - 0x20 else b
  }

  /** b as it takes part in a comparison. */
  function Key(b: byte, folds: bool): byte {
    if folds then Lower(b) else b
  }

  // ---- What a search finds ----

  predicate ByteMatches(str: YaraString, j: nat, d: byte)
    requires j < |str.pattern|
  {
    var m := str.MaskAt(j);
    var folds := str.nocase && m == 0xFF && !str.isHex;
    And(Key(d, folds), m) == And(Key(str.pattern[j], folds), m)
  }

  /** Pattern byte j against the data it would lie on. */
  ghost predicate MatchesByte(data: seq<byte>, str: YaraString, i: nat, j: nat)
    requires j < |str.pattern| && i + |str.pattern| <= |data|
  {
    ByteMatches(str, j, data[i + j])
  }

  ghost predicate MatchesAt(data: seq<byte>, str: YaraString, i: nat) {
    && i + |str.pattern| <= |data|
    && forall j :: 0 <= j < |str.pattern| ==> MatchesByte(data, str, i, j)
  }

  /** Every match position from i on, in order, overlapping ones included. */
  ghost function MatchesFrom(data: seq<byte>, str: YaraString, i: nat): seq<nat>
    decreases |data| - i
  {
    if i + |str.pattern| > |data| || i >= |data| then []
    else (if MatchesAt(data, str, i) then [i] else []) + MatchesFrom(data, str, i + 1)
  }

  ghost function AllMatches(data: seq<byte>, str: YaraString): seq<nat> {
    if |str.pattern| == 0 then [] else MatchesFrom(data, str, 0)
  }

  /** The list names exactly the positions where the pattern matches, in strictly ascending order. */
  lemma {:induction false} MatchesFromIsExact(data: seq<byte>, str: YaraString, i: nat)
    requires |str.pattern| > 0
    ensures forall k: nat :: k in MatchesFrom(data, str, i) <==> i <= k && MatchesAt(data, str, k)
    ensures AscendingIds(MatchesFrom(data, str, i))
    decreases |data| - i
  {
    if i + |str.pattern| <= |data| {
      MatchesFromIsExact(data, str, i + 1);
      hide MatchesAt;
      var r, rest := MatchesFrom(data, str, i), MatchesFrom(data, str, i + 1);
      assert r == rest || r == [i] + rest;
      hide MatchesFrom, AscendingIds;
      AscendingCons(i, rest);
      assert forall k :: k in [i] + rest <==> k == i || k in rest;
    }
  }

  lemma AscendingCons(i: nat, rest: seq<nat>)
    requires AscendingIds(rest) && forall k :: k in rest ==> i < k
    ensures AscendingIds([i] + rest)
  {
    var r := [i] + rest;
    assert forall a :: 0 < a < |r| ==> r[a] == rest[a - 1] && r[a] in rest;
  }

  /** Positions without a match may be passed over. */
  lemma {:induction false} SkipMisses(data: seq<byte>, str: YaraString, i: nat, next: nat)
    requires |str.pattern| > 0 && i <= next
    requires forall k :: i <= k < next ==> !MatchesAt(data, str, k)
    ensures MatchesFrom(data, str, i) == MatchesFrom(data, str, next)
    decreases next as int - i
  {
    if i < next {
      SkipMisses(data, str, i + 1, next);
    }
  }

  // ---- The byte-by-byte branch ----

  method MatchForward(data: seq<byte>, str: YaraString, i: nat) returns (matched: bool)
    requires i + |str.pattern| <= |data|
    ensures matched <==> MatchesAt(data, str, i)
  {
    for j := 0 to |str.pattern|
      invariant forall k :: 0 <= k < j ==> MatchesByte(data, str, i, k)
    {
      var d, p, m := data[i + j], str.pattern[j], str.MaskAt(j);
      if str.nocase && m == 0xFF && !str.isHex {
        d := Lower(d);
        p := Lower(p);
      }
      if And(d, m) != And(p, m) {
        assert !MatchesByte(data, str, i, j);
        return false;
      }
    }
    return true;
  }

  method FindByteByByte(data: seq<byte>, str: YaraString) returns (offsets: seq<nat>)
    requires 0 < |str.pattern| <= |data|
    ensures offsets == MatchesFrom(data, str, 0)
  {
    offsets := [];
    var lastPos := |data| - |str.pattern|;
    for i := 0 to lastPos + 1
      invariant offsets + MatchesFrom(data, str, i) == MatchesFrom(data, str, 0)
    {
      var matched := MatchForward(data, str, i);
      assert (offsets + [i]) + MatchesFrom(data, str, i + 1) == offsets + ([i] + MatchesFrom(data, str, i + 1));
      assert [] + MatchesFrom(data, str, i + 1) == MatchesFrom(data, str, i + 1);
      if matched { offsets := offsets + [i]; }
    }
  }

  // ---- The Horspool branch ----

  ghost predicate NoWildcards(str: YaraString) {
    forall j :: 0 <= j < |str.mask| ==> str.mask[j] == 0xFF
  }

  lemma PlainByteMatch(str: YaraString, j: nat, d: byte)
    requires NoWildcards(str) && j < |str.pattern|
    ensures ByteMatches(str, j, d) <==> Key(d, str.Folds()) == Key(str.pattern[j], str.Folds())
  {
    AndFull(Key(d, str.Folds()));
    AndFull(Key(str.pattern[j], str.Folds()));
  }

  /** A shift never exceeds the distance from the pattern's end to an earlier occurrence of the byte, and
      always moves. */
  ghost predicate SafeShifts(shift: seq<nat>, str: YaraString, n: nat)
    requires n <= |str.pattern|
  {
    && |shift| == 256
    && (forall c :: 0 <= c < 256 ==> 1 <= shift[c] <= |str.pattern|)
    && (forall k :: 0 <= k < n ==> shift[Key(str.pattern[k], str.Folds())] <= |str.pattern| - 1 - k)
  }

  method BuildShifts(str: YaraString) returns (shift: array<nat>)
    requires |str.pattern| > 0
    ensures fresh(shift) && SafeShifts(shift[..], str, |str.pattern| - 1)
  {
    var patLen := |str.pattern|;
    shift := new nat[256](_ => patLen);
    for j := 0 to patLen - 1
      invariant shift.Length == 256 && SafeShifts(shift[..], str, j)
    {
      var p := str.pattern[j];
      if str.nocase && !str.isHex {
        shift[Lower(p)] := patLen - 1 - j;
        shift[Upper(p)] := patLen - 1 - j;
      } else {
        shift[p] := patLen - 1 - j;
      }
    }
  }

  /** No match begins inside a shift. */
  lemma ShiftSkipsNoMatch(data: seq<byte>, str: YaraString, shift: seq<nat>, i: nat, k: nat)
    requires |str.pattern| > 0 && NoWildcards(str) && SafeShifts(shift, str, |str.pattern| - 1)
    requires i + |str.pattern| <= |data|
    requires i < k < i + shift[Key(data[i + |str.pattern| - 1], str.Folds())]
    ensures !MatchesAt(data, str, k)
  {
    var last := data[i + |str.pattern| - 1];
    if MatchesAt(data, str, k) {
      var j := i + |str.pattern| - 1 - k;
      assert MatchesByte(data, str, k, j);
      PlainByteMatch(str, j, last);
    }
  }

  method MatchBackward(data: seq<byte>, str: YaraString, i: nat) returns (matched: bool)
    requires i + |str.pattern| <= |data| && NoWildcards(str)
    ensures matched <==> MatchesAt(data, str, i)
  {
    var j := |str.pattern|;
    while j > 0
      invariant 0 <= j <= |str.pattern|
      invariant forall k :: j <= k < |str.pattern| ==> MatchesByte(data, str, i, k)
    {
      j := j - 1;
      PlainByteMatch(str, j, data[i + j]);
      var d, p := data[i + j], str.pattern[j];
      if str.nocase && !str.isHex {
        d := Lower(d);
        p := Lower(p);
      }
      if d != p {
        assert !MatchesByte(data, str, i, j);
        return false;
      }
    }
    return true;
  }

  method FindHorspool(data: seq<byte>, str: YaraString) returns (offsets: seq<nat>)
    requires 0 < |str.pattern| <= |data| && NoWildcards(str)
    ensures offsets == MatchesFrom(data, str, 0)
  {
    hide And, MatchesFrom;
    var shift := BuildShifts(str);
    var patLen, lastPos := |str.pattern|, |data| - |str.pattern|;
    offsets := [];
    var i := 0;
    while i <= lastPos
      invariant 0 <= i && fresh(shift) && SafeShifts(shift[..], str, patLen - 1)
      invariant offsets + MatchesFrom(data, str, i) == MatchesFrom(data, str, 0)
      decreases |data| - i
    {
      var matched := MatchBackward(data, str, i);
      if matched {
        FirstIsMatch(data, str, i);
        assert (offsets + [i]) + MatchesFrom(data, str, i + 1) == offsets + ([i] + MatchesFrom(data, str, i + 1));
        offsets := offsets + [i];
        i := i + 1;
      } else {
        var last := data[i + patLen - 1];
        if str.nocase && !str.isHex && 0x41 <= last <= 0x5A { last := last - 0x41 + 0x61; }
        forall k | i < k < i + shift[last] ensures !MatchesAt(data, str, k) {
          ShiftSkipsNoMatch(data, str, shift[..], i, k);
        }
        SkipMisses(data, str, i, i + shift[last]);
        i := i + shift[last];
      }
    }
    NoRoom(data, str, i);
  }

  lemma FirstIsMatch(data: seq<byte>, str: YaraString, i: nat)
    requires |str.pattern| > 0 && MatchesAt(data, str, i)
    ensures MatchesFrom(data, str, i) == [i] + MatchesFrom(data, str, i + 1)
  {
  }

  lemma NoRoom(data: seq<byte>, str: YaraString, i: nat)
    requires i + |str.pattern| > |data|
    ensures MatchesFrom(data, str, i) == []
  {
  }

  // ---- find_pattern ----

  /** Both branches return every match, so which of them runs cannot be observed. */
  method FindPattern(data: seq<byte>, str: YaraString) returns (offsets: seq<nat>)
    ensures offsets == AllMatches(data, str)
  {
    if |str.pattern| == 0 || |data| < |str.pattern| { return []; }
    var hasWildcards := false;
    for j := 0 to |str.mask|
      invariant !hasWildcards && forall k :: 0 <= k < j ==> str.mask[k] == 0xFF
    {
      if str.mask[j] != 0xFF { hasWildcards := true; break; }
    }
    if |str.pattern| >= 4 && !hasWildcards {
      offsets := FindHorspool(data, str);
    } else {
      offsets := FindByteByByte(data, str);
    }
  }

  // ---- parse_hex_pattern ----

  function HexValue(c: char): int {
    if '0' <= c <= '9' then c as int - '0' as int
    else if 'a' <= c <= 'f' then c as int - 'a' as int + 10
    else if 'A' <= c <= 'F' then c as int - 'A' as int + 10
    else -1
  }

  /** One pattern byte with its mask. */
  datatype Cell = Cell(value: byte, mask: byte)

  /** The cells a hex string denotes from i on: blanks and braces are skipped, `??` (or a lone `?`) is one
      wildcard, anything else must be two hex digits. */
  function HexCells(s: string, i: nat): Option<seq<Cell>>
    decreases |s| - i
  {
    if i >= |s| then Some([])
    else if s[i] == ' ' || s[i] == '{' || s[i] == '}' then HexCells(s, i + 1)
    else if s[i] == '?' then
      Before([Cell(0, 0)], HexCells(s, if i + 1 < |s| && s[i + 1] == '?' then i + 2 else i + 1))
    else if i + 1 >= |s| || HexValue(s[i]) < 0 || HexValue(s[i + 1]) < 0 then None
    else Before([Cell(HexValue(s[i]) * 16 + HexValue(s[i + 1]), 0xFF)], HexCells(s, i + 2))
  }

  function Before(front: seq<Cell>, rest: Option<seq<Cell>>): Option<seq<Cell>> {
    if rest.None? then None else Some(front + rest.value)
  }

  method ParseHexPattern(s: string) returns (ok: bool, cells: seq<Cell>)
    ensures ok <==> HexCells(s, 0).Some? && HexCells(s, 0) != Some([])
    ensures ok ==> HexCells(s, 0) == Some(cells)
  {
    cells := [];
    var i := 0;
    ghost var all := HexCells(s, 0);
    assert all.Some? ==> [] + all.value == all.value;
    while i < |s|
      invariant 0 <= i && all == Before(cells, HexCells(s, i))
      decreases |s| - i
    {
      var c := s[i];
      ghost var before := cells;
      if c == ' ' || c == '{' || c == '}' { i := i + 1; continue; }
      if c == '?' {
        cells := cells + [Cell(0, 0)];
        BeforeBefore(before, [Cell(0, 0)], HexCells(s, if i + 1 < |s| && s[i + 1] == '?' then i + 2 else i + 1));
        i := if i + 1 < |s| && s[i + 1] == '?' then i + 2 else i + 1;
        continue;
      }
      if i + 1 >= |s| { return false, cells; }
      var h, l := HexValue(c), HexValue(s[i + 1]);
      if h < 0 || l < 0 { return false, cells; }
      cells := cells + [Cell(h * 16 + l, 0xFF)];
      BeforeBefore(before, [Cell(h * 16 + l, 0xFF)], HexCells(s, i + 2));
      i := i + 2;
    }
    assert cells + [] == cells;
    ok := |cells| > 0;
  }

  lemma BeforeBefore(x: seq<Cell>, y: seq<Cell>, rest: Option<seq<Cell>>)
    ensures Before(x, Before(y, rest)) == Before(x + y, rest)
  {
    if rest.Some? { assert x + (y + rest.value) == (x + y) + rest.value; }
  }

  function Hex(d: nat): char
    requires d < 16
  {
    "0123456789ABCDEF"[d]
  }

  lemma HexDigit(d: nat)
    requires d < 16
    ensures HexValue(Hex(d)) == d && Hex(d) !in {' ', '{', '}', '?'}
  {
  }

  /** A cell as a rule writes it. */
  function WriteCell(c: Cell): (s: string)
    ensures |s| == 2
  {
    if c.mask == 0 then "??" else [Hex(c.value / 16), Hex(c.value % 16)]
  }

  function WriteHex(cells: seq<Cell>): string {
    if |cells| == 0 then "" else WriteCell(cells[0]) + " " + WriteHex(cells[1..])
  }

  lemma ReadCell(s: string, i: nat, c: Cell)
    requires i + 3 <= |s| && s[i..i + 2] == WriteCell(c) && s[i + 2] == ' '
    requires c.mask == 0xFF || c == Cell(0, 0)
    ensures HexCells(s, i) == Before([c], HexCells(s, i + 3))
  {
    HexDigit(c.value / 16);
    HexDigit(c.value % 16);
    assert s[i] == WriteCell(c)[0] && s[i + 1] == WriteCell(c)[1];
    assert HexCells(s, i + 2) == HexCells(s, i + 3);
  }

  lemma Spelled(front: string, item: string, rest: string)
    requires |item| == 2
    ensures var s := front + (item + " " + rest);
            s == front + item + " " + rest && s[|front|..|front| + 2] == item && s[|front| + 2] == ' '
  {
  }

  /** Reading back a written hex rule gives its bytes and wildcards again. */
  lemma {:induction false} HexRoundTrip(front: string, cells: seq<Cell>)
    requires forall c :: c in cells ==> c.mask == 0xFF || c == Cell(0, 0)
    ensures HexCells(front + WriteHex(cells), |front|) == Some(cells)
    decreases |cells|
  {
    if |cells| > 0 {
      hide HexCells, WriteCell;
      var s, item, rest := front + WriteHex(cells), WriteCell(cells[0]), WriteHex(cells[1..]);
      Spelled(front, item, rest);
      HexRoundTrip(front + item + " ", cells[1..]);
      ReadCell(s, |front|, cells[0]);
      assert [cells[0]] + cells[1..] == cells;
    } else {
      assert cells == [];
    }
  }
}
