/** The text of the quarantine ledger, written and read back (src/security/quarantine_executor.cpp). */
module Ledger {
  import opened Common
  import opened Decimal

  /** `quarantinedAt` is in clock ticks since the epoch. */
  datatype QuarantineRecord = QuarantineRecord(
    id: nat,
    findingId: nat,
    originalPath: string,
    vaultPath: string,
    sha256: string,
    quarantinedAt: int,
    restored: bool,
    shredded: bool)

  // ---- Writing ----

  /** duration_cast to seconds truncates toward zero. */
  function Seconds(ticks: int): (s: int) {
    if ticks >= 0 then ticks / TICKS_PER_SECOND else 0 - (0 - ticks) / TICKS_PER_SECOND
  }

  function Flag(b: bool): string {
    if b then "1" else "0"
  }

  function LedgerLine(r: QuarantineRecord): string {
    ToString(r.id) + "|" + ToString(r.findingId) + "|" + r.originalPath + "|" + r.vaultPath + "|" + r.sha256 + "|" +
    SignedToString(Seconds(r.quarantinedAt)) + "|" + Flag(r.restored) + "|" + Flag(r.shredded)
  }

  /** One line a record. */
  function LedgerText(ledger: seq<QuarantineRecord>): string {
    if |ledger| == 0 then "" else LedgerText(ledger[..|ledger| - 1]) + LedgerLine(ledger[|ledger| - 1]) + "\n"
  }

  // ---- Reading ----

  /** The first place of c in s, or |s|. */
  function Find(s: string, c: char): (p: nat)
    ensures p <= |s| && c !in s[..p] && (p < |s| ==> s[p] == c)
  {
    if |s| == 0 || s[0] == c then 0 else 1 + Find(s[1..], c)
  }

  /** The fields between the bars; always at least one. */
  function Split(line: string): (fields: seq<string>)
    ensures |fields| >= 1
    decreases |line|
  {
    var p := Find(line, '|');
    if p == |line| then [line] else [line[..p]] + Split(line[p + 1..])
  }

  /** What std::getline delivers: the last line may lack its newline. */
  function Lines(text: string): seq<string>
    decreases |text|
  {
    var p := Find(text, '\n');
    if text == "" then []
    else if p == |text| then [text]
    else [text[..p]] + Lines(text[p + 1..])
  }

  /** Seven or eight fields with readable numbers; eight since shredding was added. */
  function ParseFields(fields: seq<string>): Option<QuarantineRecord> {
    if |fields| != 7 && |fields| != 8 then None
    else
      var id, findingId, seconds := Stoull(fields[0]), Stoull(fields[1]), Stoll(fields[5]);
      if id.None? || findingId.None? || seconds.None? then None
      else Some(QuarantineRecord(id.value, findingId.value, fields[2], fields[3], fields[4],
                                 seconds.value * TICKS_PER_SECOND, fields[6] == "1",
                                 |fields| == 8 && fields[7] == "1"))
  }

  function ParseLine(line: string): Option<QuarantineRecord> {
    if line == "" then None else ParseFields(Split(line))
  }

  datatype Loaded = Loaded(ledger: seq<QuarantineRecord>, nextId: nat)

  const NOTHING_LOADED: Loaded := Loaded([], 1)

  /** uint64_t next_id_, which wraps after the largest id. */
  function NextId(nextId: nat, id: nat): nat {
    if id >= nextId then (id + 1) % TWO_64 else nextId
  }

  function Add(s: Loaded, r: Option<QuarantineRecord>): Loaded {
    if r.None? then s else Loaded(s.ledger + [r.value], NextId(s.nextId, r.value.id))
  }

  function LoadLines(s: Loaded, lines: seq<string>): Loaded
    decreases |lines|
  {
    hide *;
    if |lines| == 0 then s else LoadLines(Add(s, ParseLine(lines[0])), lines[1..])
  }

  function Load(text: string): Loaded {
    LoadLines(NOTHING_LOADED, Lines(text))
  }

  lemma SplitUnfolds(rest: string)
    ensures var p := Find(rest, '|');
            Split(rest) == if p == |rest| then [rest] else [rest[..p]] + Split(rest[p + 1..])
  {
    hide Find;
  }

  lemma SplitStep(fields: seq<string>, rest: string)
    ensures var p := Find(rest, '|');
            fields + Split(rest) ==
            if p == |rest| then fields + [rest] else fields + [rest[..p]] + Split(rest[p + 1..])
  {
    hide *;
    SplitUnfolds(rest);
    var p := Find(rest, '|');
    if p < |rest| { Regroup(fields, [rest[..p]], Split(rest[p + 1..])); }
  }

  lemma Slices(line: string, start: nat, p: nat)
    requires start + p <= |line|
    ensures line[start..][..p] == line[start..start + p]
    ensures p == |line| - start ==> line[start..] == line[start..start + p]
    ensures start + p < |line| ==> line[start..][p + 1..] == line[start + p + 1..]
  {}

  /** The splitting loop, with its `start` and `pos`. */
  method SplitFields(line: string) returns (fields: seq<string>)
    ensures fields == Split(line)
  {
    hide Split, Find;
    fields := [];
    var start := 0;
    assert fields + Split(line[start..]) == Split(line) by { assert line[0..] == line; }
    while true
      invariant start <= |line|
      invariant fields + Split(line[start..]) == Split(line)
      decreases |line| - start
    {
      SplitStep(fields, line[start..]);
      Slices(line, start, Find(line[start..], '|'));
      var pos := start + Find(line[start..], '|');
      fields := fields + [line[start..pos]];
      if pos == |line| { break; }
      start := pos + 1;
    }
  }

  /** What follows the line that ends at `end`. */
  function AfterLine(text: string, end: nat): (rest: string)
    requires text != "" && end <= |text|
    ensures |rest| < |text|
  {
    if end == |text| then "" else text[end + 1..]
  }

  lemma LoadFirst(s: Loaded, text: string)
    requires text != ""
    ensures var end := Find(text, '\n');
            LoadLines(s, Lines(text)) == LoadLines(Add(s, ParseLine(text[..end])), Lines(AfterLine(text, end)))
  {
    hide Find, Add, ParseLine;
    var end := Find(text, '\n');
    var rest := AfterLine(text, end);
    assert text[..|text|] == text;
    var lines := Lines(text);
    assert lines == [text[..end]] + Lines(rest);
    assert lines[0] == text[..end] && lines[1..] == Lines(rest);
  }

  /** The reading of one line. */
  method LoadOne(s: Loaded, line: string) returns (t: Loaded)
    ensures t == Add(s, ParseLine(line))
  {
    hide Split, Stoull, Stoll;
    t := s;
    if line == "" { return; }
    var fields := SplitFields(line);
    if |fields| != 7 && |fields| != 8 { return; }
    var id, findingId, seconds := Stoull(fields[0]), Stoull(fields[1]), Stoll(fields[5]);
    if id.None? || findingId.None? || seconds.None? { return; }
    var record := QuarantineRecord(id.value, findingId.value, fields[2], fields[3], fields[4],
                                   seconds.value * TICKS_PER_SECOND, fields[6] == "1", false);
    if |fields| >= 8 { record := record.(shredded := fields[7] == "1"); }
    t := t.(ledger := t.ledger + [record]);
    if record.id >= t.nextId { t := t.(nextId := (record.id + 1) % TWO_64); }
  }

  /** load_ledger_locked, from a file that could be opened. */
  method LoadLedger(text: string) returns (s: Loaded)
    ensures s == Load(text)
  {
    s := NOTHING_LOADED;
    var rest := text;
    assert LoadLines(s, Lines(rest)) == Load(text);
    hide LoadLines, Lines, Load, Find, ParseLine, Add, AfterLine;
    while rest != ""
      invariant LoadLines(s, Lines(rest)) == Load(text)
      decreases |rest|
    {
      LoadFirst(s, rest);
      var end := Find(rest, '\n');
      s := LoadOne(s, rest[..end]);
      rest := AfterLine(rest, end);
    }
    NoLines(s);
  }

  lemma NoLines(s: Loaded)
    ensures LoadLines(s, Lines("")) == s
  {}

  // ---- What is written is read back ----

  predicate Clean(s: string) {
    '|' !in s && '\n' !in s
  }

  /** What a record must be like for its line to be readable: numbers in range, text without bars and
      newlines. */
  predicate Storable(r: QuarantineRecord) {
    && r.id < TWO_64 && r.findingId < TWO_64 && FitsInt64(r.quarantinedAt)
    && Clean(r.originalPath) && Clean(r.vaultPath) && Clean(r.sha256)
  }

  predicate AllStorable(ledger: seq<QuarantineRecord>) {
    forall i :: 0 <= i < |ledger| ==> Storable(ledger[i])
  }

  /** The ledger keeps whole seconds. */
  function CutToSeconds(r: QuarantineRecord): QuarantineRecord {
    r.(quarantinedAt := Seconds(r.quarantinedAt) * TICKS_PER_SECOND)
  }

  function AllCut(ledger: seq<QuarantineRecord>): (cut: seq<QuarantineRecord>)
    ensures |cut| == |ledger| && forall i :: 0 <= i < |ledger| ==> cut[i] == CutToSeconds(ledger[i])
  {
    seq(|ledger|, i requires 0 <= i < |ledger| => CutToSeconds(ledger[i]))
  }

  lemma {:induction false} FindIs(s: string, c: char, p: nat)
    requires p < |s| && s[p] == c && c !in s[..p]
    ensures Find(s, c) == p
  {
    if p > 0 {
      assert s[0] == s[..p][0] && s[1..][..p - 1] == s[..p][1..];
      FindIs(s[1..], c, p - 1);
    }
  }

  lemma FindAfterPrefix(a: string, c: char, b: string)
    requires c !in a
    ensures Find(a + [c] + b, c) == |a|
    ensures (a + [c] + b)[..|a|] == a && (a + [c] + b)[|a| + 1..] == b
  {
    var s := a + [c] + b;
    assert s[..|a|] == a && s[|a|] == c;
    FindIs(s, c, |a|);
  }

  lemma FoundIn(s: string, c: char)
    requires c in s
    ensures Find(s, c) < |s|
  {
    assert s[..|s|] == s;
  }

  lemma SplitField(field: string, rest: string)
    requires '|' !in field
    ensures Split(field + "|" + rest) == [field] + Split(rest)
  {
    FindAfterPrefix(field, '|', rest);
  }

  lemma SplitLast(field: string)
    requires '|' !in field
    ensures Split(field) == [field]
  {}

  lemma DigitsAreClean(n: nat, i: int)
    ensures Clean(ToString(n)) && Clean(SignedToString(i))
  {
    var s := SignedToString(i);
    assert forall k :: 0 <= k < |s| ==> IsDigit(s[k]) || s[k] == '-';
  }

  function Join(fields: seq<string>): string
    requires |fields| >= 1
  {
    if |fields| == 1 then fields[0] else fields[0] + "|" + Join(fields[1..])
  }

  lemma {:induction false} SplitJoin(fields: seq<string>)
    requires |fields| >= 1 && forall i :: 0 <= i < |fields| ==> Clean(fields[i])
    ensures Split(Join(fields)) == fields
    ensures '\n' !in Join(fields)
  {
    if |fields| > 1 {
      SplitJoin(fields[1..]);
      assert Clean(fields[0]);
      SplitField(fields[0], Join(fields[1..]));
    } else {
      SplitLast(fields[0]);
    }
  }

  function Fields(r: QuarantineRecord): seq<string> {
    [ToString(r.id), ToString(r.findingId), r.originalPath, r.vaultPath, r.sha256,
     SignedToString(Seconds(r.quarantinedAt)), Flag(r.restored), Flag(r.shredded)]
  }

  lemma JoinFour(e: string, f: string, g: string, h: string)
    ensures Join([e, f, g, h]) == e + "|" + f + "|" + g + "|" + h
  {
    JoinCons(g, [h]);
    JoinCons(f, [g, h]);
    JoinCons(e, [f, g, h]);
    hide Join;
    assert e + "|" + (f + "|" + (g + "|" + h)) == e + "|" + f + "|" + g + "|" + h;
  }

  lemma Chain(a: string, b: string, c: string, d: string, t: string)
    ensures a + "|" + (b + "|" + (c + "|" + (d + "|" + t))) == a + "|" + b + "|" + c + "|" + d + "|" + t
  {}

  lemma Unchain(x: string, e: string, f: string, g: string, h: string)
    ensures x + (e + "|" + f + "|" + g + "|" + h) == x + e + "|" + f + "|" + g + "|" + h
  {}

  lemma JoinEight(a: string, b: string, c: string, d: string, e: string, f: string, g: string, h: string)
    ensures Join([a, b, c, d, e, f, g, h]) ==
            a + "|" + b + "|" + c + "|" + d + "|" + e + "|" + f + "|" + g + "|" + h
  {
    JoinFour(e, f, g, h);
    JoinCons(d, [e, f, g, h]);
    JoinCons(c, [d, e, f, g, h]);
    JoinCons(b, [c, d, e, f, g, h]);
    JoinCons(a, [b, c, d, e, f, g, h]);
    hide Join;
    Chain(a, b, c, d, e + "|" + f + "|" + g + "|" + h);
    Unchain(a + "|" + b + "|" + c + "|" + d + "|", e, f, g, h);
  }

  lemma JoinCons(a: string, rest: seq<string>)
    requires |rest| >= 1
    ensures Join([a] + rest) == a + "|" + Join(rest)
  {
    assert ([a] + rest)[1..] == rest;
  }

  lemma SecondsFit(ticks: int)
    requires FitsInt64(ticks)
    ensures FitsInt64(Seconds(ticks))
  {}

  lemma FieldsAreClean(r: QuarantineRecord)
    requires Storable(r)
    ensures forall i :: 0 <= i < 8 ==> Clean(Fields(r)[i])
  {
    DigitsAreClean(r.id, Seconds(r.quarantinedAt));
    DigitsAreClean(r.findingId, 0);
    hide ToString, SignedToString, Seconds;
    assert Clean(Flag(r.restored)) && Clean(Flag(r.shredded));
    var f := Fields(r);
    assert Clean(f[0]) && Clean(f[1]) && Clean(f[2]) && Clean(f[3]);
    assert Clean(f[4]) && Clean(f[5]) && Clean(f[6]) && Clean(f[7]);
  }

  lemma FlagReads(b: bool)
    ensures Flag(b) == "1" <==> b
  {
    assert Flag(false)[0] == '0';
  }

  lemma ParseFieldsIs(fields: seq<string>, id: nat, findingId: nat, seconds: int)
    requires |fields| == 7 || |fields| == 8
    requires Stoull(fields[0]) == Some(id) && Stoull(fields[1]) == Some(findingId) && Stoll(fields[5]) == Some(seconds)
    ensures ParseFields(fields) == Some(QuarantineRecord(id, findingId, fields[2], fields[3], fields[4],
                                   seconds * TICKS_PER_SECOND, fields[6] == "1", |fields| == 8 && fields[7] == "1"))
  {
    hide Stoull, Stoll;
  }

  lemma FieldNumbers(r: QuarantineRecord)
    requires Storable(r)
    ensures Stoull(Fields(r)[0]) == Some(r.id) && Stoull(Fields(r)[1]) == Some(r.findingId)
    ensures Stoll(Fields(r)[5]) == Some(Seconds(r.quarantinedAt))
  {
    assert r.id < TWO_64 && r.findingId < TWO_64 && FitsInt64(r.quarantinedAt);
    FieldTexts(r);
    SecondsFit(r.quarantinedAt);
    hide *;
    StoullRoundTrip(r.id);
    StoullRoundTrip(r.findingId);
    StollRoundTrip(Seconds(r.quarantinedAt));
  }

  lemma FieldTexts(r: QuarantineRecord)
    ensures |Fields(r)| == 8
    ensures Fields(r)[0] == ToString(r.id) && Fields(r)[1] == ToString(r.findingId)
    ensures Fields(r)[5] == SignedToString(Seconds(r.quarantinedAt))
  {
    hide ToString, SignedToString, Seconds;
  }

  lemma FieldsRoundTrip(r: QuarantineRecord)
    requires Storable(r)
    ensures ParseFields(Fields(r)) == Some(CutToSeconds(r))
    ensures ParseFields(Fields(r)[..7]) == Some(CutToSeconds(r).(shredded := false))
  {
    FieldNumbers(r);
    FlagReads(r.restored);
    FlagReads(r.shredded);
    hide ToString, SignedToString, Seconds, Stoull, Stoll, Flag, FitsInt64, Clean, ParseFields;
    var f, g := Fields(r), Fields(r)[..7];
    ParseFieldsIs(f, r.id, r.findingId, Seconds(r.quarantinedAt));
    assert g[0] == f[0] && g[1] == f[1] && g[2] == f[2] && g[3] == f[3] && g[4] == f[4] && g[5] == f[5] && g[6] == f[6];
    ParseFieldsIs(g, r.id, r.findingId, Seconds(r.quarantinedAt));
  }

  lemma LineRoundTrip(r: QuarantineRecord)
    requires Storable(r)
    ensures ParseLine(LedgerLine(r)) == Some(CutToSeconds(r))
    ensures '\n' !in LedgerLine(r)
  {
    var f := Fields(r);
    JoinEight(f[0], f[1], f[2], f[3], f[4], f[5], f[6], f[7]);
    assert LedgerLine(r) == Join(f);
    FieldsAreClean(r);
    FieldsRoundTrip(r);
    SplitJoin(f);
    assert f != [""];
    hide Join, ParseFields, Fields, LedgerLine, CutToSeconds;
    EmptyIsNotSplit(f);
  }

  lemma EmptyIsNotSplit(fields: seq<string>)
    requires |fields| >= 7 && Split(Join(fields)) == fields
    ensures Join(fields) != ""
  {
    hide Join;
    SplitLast("");
  }

  /** A line of seven fields, from before shredding, is a record that is not shredded. */
  lemma SevenFieldsLoad(r: QuarantineRecord)
    requires Storable(r)
    ensures ParseLine(Join(Fields(r)[..7])) == Some(CutToSeconds(r).(shredded := false))
  {
    FieldsAreClean(r);
    FieldsRoundTrip(r);
    var f := Fields(r)[..7];
    assert forall i :: 0 <= i < 7 ==> f[i] == Fields(r)[i];
    hide Join, ParseFields, Fields, CutToSeconds, Clean;
    SplitJoin(f);
    EmptyIsNotSplit(f);
  }

  lemma LinesFirst(first: string, rest: string)
    requires '\n' !in first
    ensures Lines(first + "\n" + rest) == [first] + Lines(rest)
  {
    FindAfterPrefix(first, '\n', rest);
    hide Find;
  }

  lemma FirstLineOf(text: string, line: string, p: nat)
    requires p < |text| && text[p] == '\n'
    ensures text == text[..p] + "\n" + text[p + 1..]
    ensures text + line + "\n" == text[..p] + "\n" + (text[p + 1..] + line + "\n")
  {}

  /** No line is left without its newline. */
  predicate EndsLine(text: string) {
    text == "" || text[|text| - 1] == '\n'
  }

  lemma {:induction false} LinesAppend(text: string, line: string)
    requires '\n' !in line && EndsLine(text)
    ensures Lines(text + line + "\n") == Lines(text) + [line]
    decreases |text|
  {
    if text == "" {
      assert text + line + "\n" == line + "\n" + "";
      LinesFirst(line, "");
    } else {
      FoundIn(text, '\n');
      hide Lines, Find;
      var p := Find(text, '\n');
      var first, rest := text[..p], text[p + 1..];
      FirstLineOf(text, line, p);
      LinesAppend(rest, line);
      LinesFirst(first, rest + line + "\n");
      LinesFirst(first, rest);
      Regroup([first], Lines(rest), [line]);
    }
  }

  lemma {:induction false} LoadSnoc(s: Loaded, lines: seq<string>, line: string)
    ensures LoadLines(s, lines + [line]) == Add(LoadLines(s, lines), ParseLine(line))
    decreases |lines|
  {
    if |lines| == 0 {
      assert [line][1..] == [];
      assert (lines + [line])[0] == line && (lines + [line])[1..] == [];
    } else {
      LoadSnoc(Add(s, ParseLine(lines[0])), lines[1..], line);
      assert (lines + [line])[1..] == lines[1..] + [line];
    }
  }

  lemma TextEndsLine(ledger: seq<QuarantineRecord>)
    ensures EndsLine(LedgerText(ledger))
  {}

  lemma LoadOneMore(text: string, r: QuarantineRecord)
    requires Storable(r) && EndsLine(text)
    ensures Load(text + LedgerLine(r) + "\n") == Add(Load(text), Some(CutToSeconds(r)))
  {
    hide LedgerLine, ParseLine, Lines, LoadLines, CutToSeconds, Storable, Add;
    LineRoundTrip(r);
    LinesAppend(text, LedgerLine(r));
    LoadSnoc(NOTHING_LOADED, Lines(text), LedgerLine(r));
  }

  lemma CutSnoc(before: seq<QuarantineRecord>, last: QuarantineRecord)
    ensures AllCut(before + [last]) == AllCut(before) + [CutToSeconds(last)]
  {
    hide CutToSeconds;
  }

  lemma TextSnoc(before: seq<QuarantineRecord>, last: QuarantineRecord)
    ensures LedgerText(before + [last]) == LedgerText(before) + LedgerLine(last) + "\n"
  {
    hide LedgerLine;
    assert (before + [last])[..|before|] == before;
  }

  /** Loading what was written gives the same records, their times cut to seconds. */
  lemma {:induction false} LoadRebuilds(ledger: seq<QuarantineRecord>)
    requires AllStorable(ledger)
    ensures Load(LedgerText(ledger)).ledger == AllCut(ledger)
  {
    if |ledger| > 0 {
      var before, last := ledger[..|ledger| - 1], ledger[|ledger| - 1];
      assert ledger == before + [last];
      hide LedgerLine, LedgerText, Load, AllCut, Storable, NextId;
      LoadRebuilds(before);
      TextEndsLine(before);
      TextSnoc(before, last);
      LoadOneMore(LedgerText(before), last);
      CutSnoc(before, last);
    } else {
      NoLines(NOTHING_LOADED);
    }
  }

  /** Times are cut toward the epoch, by less than a second. */
  lemma SecondsTruncate(ticks: int)
    ensures var cut := Seconds(ticks) * 10_000_000;
            if ticks >= 0 then cut <= ticks < cut + 10_000_000 else cut - 10_000_000 < ticks <= cut
  {}

  /** Cutting is idempotent, so a second save and load changes nothing more. */
  lemma CutTwice(r: QuarantineRecord)
    ensures CutToSeconds(CutToSeconds(r)) == CutToSeconds(r)
  {
    var s := Seconds(r.quarantinedAt);
    assert s >= 0 ==> (s * TICKS_PER_SECOND) / TICKS_PER_SECOND == s;
    assert s < 0 ==> (0 - s * TICKS_PER_SECOND) / TICKS_PER_SECOND == 0 - s;
  }

  /** A corrupt line costs only itself. */
  lemma {:induction false} CorruptLineIsSkipped(s: Loaded, before: seq<string>, bad: string, after: seq<string>)
    requires ParseLine(bad) == None
    ensures LoadLines(s, before + [bad] + after) == LoadLines(s, before + after)
    decreases |before|
  {
    if |before| == 0 {
      assert before + [bad] + after == [bad] + after && before + after == after;
      assert ([bad] + after)[1..] == after;
    } else {
      CorruptLineIsSkipped(Add(s, ParseLine(before[0])), before[1..], bad, after);
      assert (before + [bad] + after)[1..] == before[1..] + [bad] + after;
      assert (before + after)[1..] == before[1..] + after;
    }
  }

  // ---- The next id ----

  /** Whether the next id is above every id loaded. */
  predicate NextIdIsFresh(s: Loaded) {
    forall i :: 0 <= i < |s.ledger| ==> s.ledger[i].id < s.nextId
  }

  predicate HasLargestId(s: Loaded) {
    exists i :: 0 <= i < |s.ledger| && s.ledger[i].id == TWO_64 - 1
  }

  lemma AddKeepsFresh(s: Loaded, r: QuarantineRecord)
    requires (NextIdIsFresh(s) <==> !HasLargestId(s)) && s.nextId < TWO_64 && r.id < TWO_64
    ensures Add(s, Some(r)).nextId < TWO_64
    ensures NextIdIsFresh(Add(s, Some(r))) <==> !HasLargestId(Add(s, Some(r)))
  {
    var t := Add(s, Some(r));
    assert t.ledger[|s.ledger|] == r;
    assert forall i :: 0 <= i < |s.ledger| ==> t.ledger[i] == s.ledger[i];
    if HasLargestId(s) {
      var i :| 0 <= i < |s.ledger| && s.ledger[i].id == TWO_64 - 1;
      assert t.ledger[i].id == TWO_64 - 1;
    }
  }

  lemma ParsedIdFits(line: string)
    ensures ParseLine(line).Some? ==> ParseLine(line).value.id < TWO_64
  {
    hide Split, Stoull, Stoll;
  }

  lemma {:induction false} LoadLinesKeepFresh(s: Loaded, lines: seq<string>)
    requires s.nextId < TWO_64 && (NextIdIsFresh(s) <==> !HasLargestId(s))
    ensures NextIdIsFresh(LoadLines(s, lines)) <==> !HasLargestId(LoadLines(s, lines))
    decreases |lines|
  {
    hide NextIdIsFresh, HasLargestId, ParseLine, NextId;
    if |lines| > 0 {
      var r := ParseLine(lines[0]);
      ParsedIdFits(lines[0]);
      if r.Some? { AddKeepsFresh(s, r.value); }
      LoadLinesKeepFresh(Add(s, r), lines[1..]);
    }
  }

  /** After loading any text, the next id is above every id exactly when no record has the largest id. */
  lemma NextIdAfterLoad(text: string)
    ensures NextIdIsFresh(Load(text)) <==> !HasLargestId(Load(text))
  {
    assert !HasLargestId(NOTHING_LOADED) && NextIdIsFresh(NOTHING_LOADED);
    LoadLinesKeepFresh(NOTHING_LOADED, Lines(text));
  }

  /** The next id is no higher than it has to be. */
  predicate NextIdIsTight(s: Loaded) {
    s.nextId <= 1 || exists i :: 0 <= i < |s.ledger| && s.ledger[i].id + 1 == s.nextId
  }

  lemma {:induction false} LoadLinesKeepTight(s: Loaded, lines: seq<string>)
    requires NextIdIsTight(s)
    ensures NextIdIsTight(LoadLines(s, lines))
    decreases |lines|
  {
    hide ParseLine;
    if |lines| > 0 {
      var t := Add(s, ParseLine(lines[0]));
      ParsedIdFits(lines[0]);
      if t != s {
        assert t.ledger[|s.ledger|] == ParseLine(lines[0]).value;
        assert forall i :: 0 <= i < |s.ledger| ==> t.ledger[i] == s.ledger[i];
      }
      LoadLinesKeepTight(t, lines[1..]);
    }
  }

  lemma {:induction false} LedgerGrows(s: Loaded, lines: seq<string>)
    ensures |LoadLines(s, lines).ledger| >= |s.ledger|
    ensures |LoadLines(s, lines).ledger| == |s.ledger| ==> LoadLines(s, lines) == s
    decreases |lines|
  {
    hide ParseLine;
    if |lines| > 0 { LedgerGrows(Add(s, ParseLine(lines[0])), lines[1..]); }
  }

  lemma LoadedNothing(text: string)
    ensures Load(text).ledger == [] ==> Load(text).nextId == 1
  {
    LedgerGrows(NOTHING_LOADED, Lines(text));
  }

  lemma NextIdAtMost(text: string, n: nat)
    requires n >= 1 && forall i :: 0 <= i < |Load(text).ledger| ==> Load(text).ledger[i].id < n
    ensures Load(text).nextId <= n
  {
    LoadLinesKeepTight(NOTHING_LOADED, Lines(text));
  }
}
