/** What a pattern means and which texts are hex patterns, apart from how src/engines/yara_engine.cpp finds and reads
    them. */
module YaraMeaning {
  import opened Common
  import opened YaraSearch

  // ---- Matching ----

  /** The same byte, or one letter in its two cases. */
  predicate SameLetter(x: byte, y: byte) {
    x == y || (0x61 <= x <= 0x7A && y == x - 0x20) || (0x61 <= y <= 0x7A && x == y - 0x20)
  }

  lemma AndZero(x: nat)
    ensures And(x, 0) == 0
  {}

  lemma FullMaskCompares(str: YaraString, j: nat, d: byte)
    requires j < |str.pattern| && str.MaskAt(j) == 0xFF
    ensures ByteMatches(str, j, d)
            <==> if str.nocase && !str.isHex then SameLetter(d, str.pattern[j]) else d == str.pattern[j]
  {
    var folds := str.nocase && !str.isHex;
    AndFull(Key(d, folds));
    AndFull(Key(str.pattern[j], folds));
  }

  /** A pattern lies at i exactly when every byte with a full mask is there, in either case for a nocase text, and the
      bytes with an empty mask are any. */
  lemma MatchMeans(data: seq<byte>, str: YaraString, i: nat)
    requires forall j :: 0 <= j < |str.pattern| ==> str.MaskAt(j) in {0, 0xFF}
    ensures MatchesAt(data, str, i) <==>
              && i + |str.pattern| <= |data|
              && forall j :: 0 <= j < |str.pattern| && str.MaskAt(j) == 0xFF ==>
                   if str.nocase && !str.isHex then SameLetter(data[i + j], str.pattern[j])
                   else data[i + j] == str.pattern[j]
  {
    hide ByteMatches, SameLetter;
    if i + |str.pattern| <= |data| {
      forall j | 0 <= j < |str.pattern|
        ensures MatchesByte(data, str, i, j) <==>
                  (str.MaskAt(j) == 0xFF ==>
                    if str.nocase && !str.isHex then SameLetter(data[i + j], str.pattern[j])
                    else data[i + j] == str.pattern[j])
      {
        if str.MaskAt(j) == 0xFF {
          FullMaskCompares(str, j, data[i + j]);
        } else {
          EmptyMaskMatches(str, j, data[i + j]);
        }
      }
    }
  }

  lemma EmptyMaskMatches(str: YaraString, j: nat, d: byte)
    requires j < |str.pattern| && str.MaskAt(j) == 0
    ensures ByteMatches(str, j, d)
  {
    AndZero(Key(d, false));
    AndZero(Key(str.pattern[j], false));
  }

  // ---- Hex texts ----

  /** The items of a hex text. */
  datatype Token = Separator(c: char) | Wildcard(double: bool) | Pair(high: char, low: char)

  const DIGITS: string := "0123456789abcdef"
  const CAPITAL_DIGITS: string := "0123456789ABCDEF"

  /** c is the hex digit d, in either case. */
  predicate IsHexDigit(c: char, d: nat) {
    d < 16 && (c == DIGITS[d] || c == CAPITAL_DIGITS[d])
  }

  lemma DigitTables()
    ensures |DIGITS| == 16 && |CAPITAL_DIGITS| == 16
    ensures forall d :: 0 <= d < 16 ==> HexValue(DIGITS[d]) == d && HexValue(CAPITAL_DIGITS[d]) == d
  {
    forall d | 0 <= d < 16 ensures HexValue(DIGITS[d]) == d && HexValue(CAPITAL_DIGITS[d]) == d {
      assert d in {0, 1, 2, 3, 4, 5, 6, 7, 8, 9, 10, 11, 12, 13, 14, 15};
    }
  }

  /** hex_val knows exactly the digits. */
  lemma HexValueIsDigit(c: char)
    ensures forall d: nat :: IsHexDigit(c, d) <==> d < 16 && HexValue(c) == d
    ensures HexValue(c) < 16
  {
    DigitTables();
    var v := HexValue(c);
    if v >= 0 {
      assert v in {0, 1, 2, 3, 4, 5, 6, 7, 8, 9, 10, 11, 12, 13, 14, 15};
      assert IsHexDigit(c, v);
    }
  }

  predicate ValidToken(t: Token) {
    match t
    case Separator(c) => c in {' ', '{', '}'}
    case Wildcard(_) => true
    case Pair(high, low) => HexValue(high) >= 0 && HexValue(low) >= 0
  }

  function TokenText(t: Token): string {
    match t
    case Separator(c) => [c]
    case Wildcard(double) => if double then "??" else "?"
    case Pair(high, low) => [high, low]
  }

  /** A single question mark is not followed by another one. */
  predicate ValidTokens(ts: seq<Token>) {
    && (forall i :: 0 <= i < |ts| ==> ValidToken(ts[i]))
    && forall i :: 0 <= i < |ts| - 1 ==> ts[i] == Wildcard(false) ==> !ts[i + 1].Wildcard?
  }

  function Text(ts: seq<Token>): string {
    if |ts| == 0 then "" else TokenText(ts[0]) + Text(ts[1..])
  }

  /** A wildcard, or the byte that two digits spell. */
  function TokenCells(t: Token): seq<Cell>
    requires ValidToken(t)
  {
    match t
    case Separator(_) => []
    case Wildcard(_) => [Cell(0, 0)]
    case Pair(high, low) =>
      HexValueIsDigit(high);
      HexValueIsDigit(low);
      [Cell(HexValue(high) * 16 + HexValue(low), 0xFF)]
  }

  function Cells(ts: seq<Token>): seq<Cell>
    requires ValidTokens(ts)
  {
    if |ts| == 0 then [] else TokenCells(ts[0]) + Cells(ts[1..])
  }

  lemma FirstChar(front: string, t: Token, rest: string)
    ensures var s, n := front + TokenText(t) + rest, |TokenText(t)|;
            && |TokenText(t)| in {1, 2} && s[|front|] == TokenText(t)[0]
            && (n == 2 ==> s[|front| + 1] == TokenText(t)[1])
            && (|rest| > 0 ==> s[|front| + n] == rest[0])
  {}

  /** Reading one item. */
  lemma ReadsTokenAt(s: string, i: nat, t: Token)
    requires ValidToken(t) && i + |TokenText(t)| <= |s|
    requires s[i] == TokenText(t)[0] && (|TokenText(t)| == 2 ==> s[i + 1] == TokenText(t)[1])
    requires t == Wildcard(false) && i + 1 < |s| ==> s[i + 1] != '?'
    ensures HexCells(s, i) == Before(TokenCells(t), HexCells(s, i + |TokenText(t)|))
  {
    if t.Separator? {
      var more := HexCells(s, i + 1);
      assert more.Some? ==> [] + more.value == more.value;
    }
  }

  lemma ReadsToken(front: string, t: Token, rest: string)
    requires ValidToken(t) && (t == Wildcard(false) && |rest| > 0 ==> rest[0] != '?')
    ensures var s := front + TokenText(t) + rest;
            HexCells(s, |front|) == Before(TokenCells(t), HexCells(s, |front| + |TokenText(t)|))
  {
    FirstChar(front, t, rest);
    assert t == Wildcard(false) ==> |TokenText(t)| == 1;
    hide HexCells, TokenCells, TokenText, ValidToken;
    ReadsTokenAt(front + TokenText(t) + rest, |front|, t);
  }

  /** The first character of what follows. */
  lemma NextIsNoQuestion(ts: seq<Token>)
    requires ValidTokens(ts) && |ts| > 0 && ts[0] == Wildcard(false)
    ensures |Text(ts[1..])| > 0 ==> Text(ts[1..])[0] != '?'
  {
    if |ts| > 1 {
      assert ts[1..][0] == ts[1] && ValidToken(ts[1]);
      assert Text(ts[1..])[0] == TokenText(ts[1])[0];
    }
  }

  /** Every sequence of separators, wildcards and pairs of digits in either case is read as its cells. */
  lemma {:induction false} TokensAreRead(front: string, ts: seq<Token>)
    requires ValidTokens(ts)
    ensures HexCells(front + Text(ts), |front|) == Some(Cells(ts))
    decreases |ts|
  {
    if |ts| > 0 {
      var item, rest := TokenText(ts[0]), Text(ts[1..]);
      assert front + Text(ts) == front + item + rest;
      if ts[0] == Wildcard(false) { NextIsNoQuestion(ts); }
      hide HexCells, TokenText, TokenCells;
      ReadsToken(front, ts[0], rest);
      TokensAreRead(front + item, ts[1..]);
    }
  }

  lemma ValidCons(t: Token, ts: seq<Token>)
    requires ValidToken(t) && ValidTokens(ts) && (t == Wildcard(false) && |ts| > 0 ==> !ts[0].Wildcard?)
    ensures ValidTokens([t] + ts)
    ensures Text([t] + ts) == TokenText(t) + Text(ts) && Cells([t] + ts) == TokenCells(t) + Cells(ts)
  {
    var all := [t] + ts;
    hide ValidToken;
    assert all[0] == t && all[1..] == ts;
    assert forall i :: 0 < i < |all| ==> all[i] == ts[i - 1];
    if |ts| > 0 { assert all[1] == ts[0]; }
  }

  /** The item at the start of a text that is read. */
  function TokenAt(s: string, i: nat): Token
    requires i < |s|
  {
    if s[i] in {' ', '{', '}'} then Separator(s[i])
    else if s[i] == '?' then Wildcard(i + 1 < |s| && s[i + 1] == '?')
    else Pair(s[i], if i + 1 < |s| then s[i + 1] else ' ')
  }

  lemma TokenIsThere(s: string, i: nat)
    requires i < |s| && HexCells(s, i).Some?
    ensures var t := TokenAt(s, i); var n := |TokenText(t)|;
            && ValidToken(t) && n >= 1 && i + n <= |s| && s[i..] == TokenText(t) + s[i + n..]
            && (t == Wildcard(false) && i + n < |s| ==> s[i + n] != '?')
            && HexCells(s, i + n).Some? && HexCells(s, i).value == TokenCells(t) + HexCells(s, i + n).value
  {
    var t := TokenAt(s, i);
    var n := |TokenText(t)|;
    assert s[i..][..n] == TokenText(t);
    assert s[i..] == s[i..][..n] + s[i + n..];
  }

  /** And every text that is read is such a sequence. */
  lemma {:induction false} ReadTextIsTokens(s: string, i: nat) returns (ts: seq<Token>)
    requires i <= |s| && HexCells(s, i).Some?
    ensures ValidTokens(ts) && Text(ts) == s[i..] && Cells(ts) == HexCells(s, i).value
    decreases |s| - i
  {
    ts := [];
    if i < |s| {
      var t := TokenAt(s, i);
      TokenIsThere(s, i);
      var n := |TokenText(t)|;
      var rest := ReadTextIsTokens(s, i + n);
      if t == Wildcard(false) && |rest| > 0 { StartsOtherwise(rest, s[i + n..]); }
      hide HexCells, TokenText, TokenCells, ValidToken, ValidTokens, TokenAt;
      ValidCons(t, rest);
      ts := [t] + rest;
    }
  }

  lemma StartsOtherwise(ts: seq<Token>, s: string)
    requires |ts| > 0 && Text(ts) == s && (|s| > 0 ==> s[0] != '?')
    ensures !ts[0].Wildcard?
  {
    assert s[0] == TokenText(ts[0])[0];
  }

  /** So a text is a hex pattern exactly when it is written so. */
  lemma HexTextsAreTokens(s: string, cells: seq<Cell>)
    ensures HexCells(s, 0) == Some(cells) <==> exists ts | ValidTokens(ts) && Text(ts) == s :: Cells(ts) == cells
  {
    if HexCells(s, 0) == Some(cells) {
      var ts := ReadTextIsTokens(s, 0);
      assert s[0..] == s;
      assert ValidTokens(ts) && Text(ts) == s && Cells(ts) == cells;
    }
    forall ts | ValidTokens(ts) && Text(ts) == s && Cells(ts) == cells ensures HexCells(s, 0) == Some(cells) {
      TokensAreRead("", ts);
      assert "" + s == s;
    }
  }
}
