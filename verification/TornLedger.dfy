/** Ledger writes that stop part-way: what is read back, and what the next append makes of it
    (src/security/quarantine_executor.cpp). */
module TornLedger {
  import opened Common
  import opened Decimal
  import opened Ledger

  // ---- Splitting what is left of a line ----

  /** The fields of the first w characters of a line. */
  function TornFields(fields: seq<string>, w: nat): seq<string>
    requires |fields| >= 1 && w <= |Join(fields)|
  {
    if |fields| == 1 || w <= |fields[0]| then [fields[0][..w]]
    else [fields[0]] + TornFields(fields[1..], w - |fields[0]| - 1)
  }

  ghost predicate AllClean(fields: seq<string>) {
    forall i :: 0 <= i < |fields| ==> Clean(fields[i])
  }

  lemma JoinUnfolds(fields: seq<string>)
    requires |fields| > 1
    ensures Join(fields) == fields[0] + "|" + Join(fields[1..])
  {}

  lemma CutInFirst(a: string, b: string, w: nat)
    requires w <= |a|
    ensures (a + "|" + b)[..w] == a[..w]
  {}

  lemma CutBehindFirst(a: string, b: string, w: nat)
    requires |a| < w <= |a| + 1 + |b|
    ensures (a + "|" + b)[..w] == a + "|" + b[..w - |a| - 1]
  {}

  lemma {:induction false} SplitTorn(fields: seq<string>, w: nat)
    requires |fields| >= 1 && AllClean(fields) && w <= |Join(fields)|
    ensures Split(Join(fields)[..w]) == TornFields(fields, w)
  {
    assert Clean(fields[0]);
    if |fields| == 1 || w <= |fields[0]| {
      if |fields| > 1 {
        JoinUnfolds(fields);
        CutInFirst(fields[0], Join(fields[1..]), w);
      }
      SplitLast(fields[0][..w]);
    } else {
      JoinUnfolds(fields);
      CutBehindFirst(fields[0], Join(fields[1..]), w);
      SplitTorn(fields[1..], w - |fields[0]| - 1);
      hide Split;
      SplitField(fields[0], Join(fields[1..])[..w - |fields[0]| - 1]);
    }
  }

  /** The length of the first k fields and the bars between them. */
  function UpTo(fields: seq<string>, k: nat): nat
    requires 1 <= k <= |fields|
  {
    if k == 1 then |fields[0]| else |fields[0]| + 1 + UpTo(fields[1..], k - 1)
  }

  lemma {:induction false} JoinLength(fields: seq<string>, k: nat)
    requires 1 <= k < |fields|
    ensures |Join(fields)| == UpTo(fields, k) + 1 + |Join(fields[k..])|
  {
    if k > 1 {
      JoinLength(fields[1..], k - 1);
      assert fields[1..][k - 1..] == fields[k..];
    }
  }

  lemma {:induction false} TornBefore(fields: seq<string>, k: nat, w: nat)
    requires 1 <= k <= |fields| && w <= |Join(fields)| && w <= UpTo(fields, k)
    ensures |TornFields(fields, w)| <= k
  {
    if |fields| > 1 && w > |fields[0]| {
      TornBefore(fields[1..], k - 1, w - |fields[0]| - 1);
    }
  }

  lemma {:induction false} TornBehind(fields: seq<string>, k: nat, w: nat)
    requires 1 <= k < |fields| && UpTo(fields, k) < w <= |Join(fields)|
    ensures w - UpTo(fields, k) - 1 <= |Join(fields[k..])|
    ensures TornFields(fields, w) == fields[..k] + TornFields(fields[k..], w - UpTo(fields, k) - 1)
  {
    if k > 1 {
      TornBehind(fields[1..], k - 1, w - |fields[0]| - 1);
      assert fields[1..][k - 1..] == fields[k..];
      assert fields[..k] == [fields[0]] + fields[1..][..k - 1];
    }
  }

  // ---- One torn line ----

  /** How far a line must get to be read back as a record: past its sixth bar. */
  function Readable(r: QuarantineRecord): nat {
    UpTo(Fields(r), 6) + 1
  }

  /** What is read back from the first w characters. */
  function TornRecord(r: QuarantineRecord, w: nat): Option<QuarantineRecord> {
    if w < Readable(r) then None
    else Some(CutToSeconds(r).(restored := r.restored && w > Readable(r),
                                   shredded := r.shredded && w > Readable(r) + 2))
  }

  lemma LineIsJoined(r: QuarantineRecord)
    ensures LedgerLine(r) == Join(Fields(r)) && |Fields(r)| == 8
  {
    hide ToString, SignedToString, Seconds, Flag;
    var f := Fields(r);
    JoinEight(f[0], f[1], f[2], f[3], f[4], f[5], f[6], f[7]);
  }

  lemma LastTwo(a: string, b: string, w: nat)
    requires |a| == 1 && |b| == 1 && w <= |Join([a, b])|
    ensures |Join([a, b])| == 3
    ensures TornFields([a, b], w) ==
            if w == 0 then [""] else if w == 1 then [a] else if w == 2 then [a, ""] else [a, b]
  {
    assert [a, b][1..] == [b];
    assert a[..0] == "" && a[..1] == a && b[..0] == "" && b[..1] == b;
  }

  lemma RecordOfTorn(r: QuarantineRecord, fields: seq<string>)
    requires Storable(r) && (|fields| == 7 || |fields| == 8) && fields[..6] == Fields(r)[..6]
    ensures ParseFields(fields) ==
            Some(CutToSeconds(r).(restored := fields[6] == "1", shredded := |fields| == 8 && fields[7] == "1"))
  {
    FieldNumbers(r);
    FieldTexts(r);
    var f := Fields(r);
    assert forall i :: 0 <= i < 6 ==> fields[i] == fields[..6][i] == f[..6][i] == f[i];
    assert f[2] == r.originalPath && f[3] == r.vaultPath && f[4] == r.sha256;
    hide Fields, Seconds, Stoull, Stoll, ParseFields;
    ParseFieldsIs(fields, r.id, r.findingId, Seconds(r.quarantinedAt));
  }

  /** The fields of a torn line: too few, or the first six as they were and what is left of the flags. */
  lemma TornLineFields(r: QuarantineRecord, w: nat)
    requires w <= |LedgerLine(r)|
    ensures |LedgerLine(r)| == Readable(r) + 3 && |Join(Fields(r))| == |LedgerLine(r)| && |Fields(r)| == 8
    ensures var fields := TornFields(Fields(r), w);
            if w < Readable(r) then |fields| <= 6
            else fields == Fields(r)[..6] +
                           if w == Readable(r) then [""]
                           else if w == Readable(r) + 1 then [Flag(r.restored)]
                           else if w == Readable(r) + 2 then [Flag(r.restored), ""]
                           else [Flag(r.restored), Flag(r.shredded)]
  {
    LineIsJoined(r);
    var f := Fields(r);
    assert f[6..] == [Flag(r.restored), Flag(r.shredded)];
    hide Fields, ToString, SignedToString, Seconds, TornFields, UpTo, Join, LedgerLine;
    JoinLength(f, 6);
    LastTwo(Flag(r.restored), Flag(r.shredded), 0);
    if w < Readable(r) {
      TornBefore(f, 6, w);
    } else {
      TornBehind(f, 6, w);
      LastTwo(Flag(r.restored), Flag(r.shredded), w - Readable(r));
    }
  }

  /** A line torn off anywhere. */
  lemma TornLineParses(r: QuarantineRecord, w: nat)
    requires Storable(r) && w <= |LedgerLine(r)|
    ensures ParseLine(LedgerLine(r)[..w]) == TornRecord(r, w)
    ensures '\n' !in LedgerLine(r)[..w]
  {
    FieldsAreClean(r);
    LineIsJoined(r);
    TornLineFields(r, w);
    LineRoundTrip(r);
    FlagReads(r.restored);
    FlagReads(r.shredded);
    var fields := TornFields(Fields(r), w);
    hide Fields, LedgerLine, Join, TornFields, Readable, ParseFields, CutToSeconds, Flag, Storable;
    SplitTorn(Fields(r), w);
    if w >= Readable(r) {
      var six := Fields(r)[..6];
      assert fields[..6] == six;
      RecordOfTorn(r, fields);
      SplitLast("");
    } else {
      TooFew(fields);
    }
  }

  lemma TooFew(fields: seq<string>)
    requires |fields| <= 6
    ensures ParseFields(fields) == None
  {}

  // ---- Text that ends in a torn line ----

  lemma OneLine(tail: string)
    requires '\n' !in tail
    ensures Lines(tail) == if tail == "" then [] else [tail]
  {
    if tail != "" { assert tail[..Find(tail, '\n')] == tail; }
  }

  lemma FirstLine(text: string) returns (first: string, rest: string)
    requires text != "" && EndsLine(text)
    ensures text == first + "\n" + rest && '\n' !in first && EndsLine(rest)
  {
    FoundIn(text, '\n');
    var p := Find(text, '\n');
    first, rest := text[..p], text[p + 1..];
    hide Find;
    if rest != "" { assert rest[|rest| - 1] == text[|text| - 1]; }
  }

  lemma {:induction false} LinesWithTail(text: string, tail: string)
    requires EndsLine(text) && '\n' !in tail
    ensures Lines(text + tail) == Lines(text) + if tail == "" then [] else [tail]
    decreases |text|
  {
    if text == "" {
      assert text + tail == tail;
      OneLine(tail);
    } else {
      var first, rest := FirstLine(text);
      hide *;
      assert text + tail == first + "\n" + (rest + tail);
      LinesWithTail(rest, tail);
      LinesFirst(first, rest + tail);
      LinesFirst(first, rest);
    }
  }

  /** A last line without its newline is read all the same. */
  lemma TailLoads(text: string, tail: string)
    requires EndsLine(text) && '\n' !in tail
    ensures Load(text + tail) == Add(Load(text), ParseLine(tail))
    ensures Load(text + tail + "\n") == Add(Load(text), ParseLine(tail))
  {
    hide ParseLine, Lines, LoadLines, Add;
    LinesWithTail(text, tail);
    LinesAppend(text, tail);
    LoadSnoc(NOTHING_LOADED, Lines(text), tail);
    EmptyLine();
    NoRecord(Load(text));
    assert Lines(text) + [] == Lines(text);
  }

  lemma EmptyLine()
    ensures ParseLine("") == None
  {}

  lemma NoRecord(s: Loaded)
    ensures Add(s, None) == s
  {}

  // ---- A line written behind a torn one ----

  lemma FindInFirst(a: string, b: string)
    requires '|' in a
    ensures Find(a, '|') < |a| && Find(a + b, '|') == Find(a, '|')
  {
    FoundIn(a, '|');
    var p := Find(a, '|');
    assert (a + b)[..p] == a[..p];
    FindIs(a + b, '|', p);
  }

  /** The last field of the one runs into the first field of the other. */
  function Spliced(a: seq<string>, b: seq<string>): (fields: seq<string>)
    requires |a| >= 1 && |b| >= 1
    ensures |fields| == |a| + |b| - 1
  {
    a[..|a| - 1] + [a[|a| - 1] + b[0]] + b[1..]
  }

  lemma SplicedCons(first: string, a: seq<string>, b: seq<string>)
    requires |a| >= 1 && |b| >= 1
    ensures Spliced([first] + a, b) == [first] + Spliced(a, b)
  {
    assert ([first] + a)[..|a|] == [first] + a[..|a| - 1];
  }

  lemma SplicedOne(a: string, b: seq<string>)
    requires |b| >= 1
    ensures Spliced([a], b) == [a + b[0]] + b[1..]
  {}

  lemma BarAt(b: string, p: nat)
    requires p < |b| && b[p] == '|'
    ensures b == b[..p] + "|" + b[p + 1..]
  {}

  lemma NoBarSplits(a: string, b: string)
    requires '|' !in a
    ensures Split(a + b) == [a + Split(b)[0]] + Split(b)[1..]
  {
    var p := Find(b, '|');
    if p == |b| {
      assert b[..p] == b && '|' !in a + b;
      SplitLast(a + b);
      SplitLast(b);
    } else {
      var first, rest := b[..p], b[p + 1..];
      BarAt(b, p);
      hide Split, Find;
      assert a + (first + "|" + rest) == a + first + "|" + rest;
      SplitField(first, rest);
      SplitField(a + first, rest);
    }
  }

  lemma {:induction false} SplitJoined(a: string, b: string)
    ensures Split(a + b) == Spliced(Split(a), Split(b))
    decreases |a|
  {
    hide Split, Spliced;
    if '|' in a {
      FindInFirst(a, b);
      var p := Find(a, '|');
      var first, rest := a[..p], a[p + 1..];
      BarAt(a, p);
      hide Find;
      assert first + "|" + rest + b == first + "|" + (rest + b);
      SplitJoined(rest, b);
      SplitField(first, rest);
      SplitField(first, rest + b);
      SplicedCons(first, Split(rest), Split(b));
    } else {
      SplitLast(a);
      NoBarSplits(a, b);
      SplicedOne(a, Split(b));
    }
  }

  /** The digits of an id, as far as they were written, run into those of the next one. */
  function JoinedId(r: QuarantineRecord, w: nat, q: QuarantineRecord): nat
    requires w <= |ToString(r.id)|
  {
    Value(ToString(r.id)[..w] + ToString(q.id))
  }

  lemma StoullOfDigits(s: string)
    requires s != "" && AllDigits(s)
    ensures Stoull(s) == if Value(s) < TWO_64 then Some(Value(s)) else None
  {
    LeadingDigitsOfDigits(s);
    assert IsDigit(s[0]) && SkipSpace(s) == s;
  }

  lemma FieldsBehindTornLine(r: QuarantineRecord, w: nat, q: QuarantineRecord)
    requires Storable(r) && Storable(q) && w <= |LedgerLine(r)|
    ensures |Join(Fields(r))| == |LedgerLine(r)|
    ensures Split(LedgerLine(r)[..w] + LedgerLine(q)) == Spliced(TornFields(Fields(r), w), Fields(q))
    ensures '\n' !in LedgerLine(r)[..w] + LedgerLine(q) && LedgerLine(q) != ""
  {
    FieldsAreClean(r);
    FieldsAreClean(q);
    LineIsJoined(r);
    LineIsJoined(q);
    LineRoundTrip(r);
    LineRoundTrip(q);
    hide Fields, LedgerLine, Join, ParseFields, CutToSeconds, Storable, Split, TornFields, Spliced, Clean;
    SplitTorn(Fields(r), w);
    SplitJoin(Fields(q));
    SplitJoined(LedgerLine(r)[..w], LedgerLine(q));
    EmptyIsNotSplit(Fields(q));
  }

  /** Torn off in its id, a line gives the next record a wrong id or none; torn off behind it, it takes the next
      record with it. */
  lemma LineBehindTornLine(r: QuarantineRecord, w: nat, q: QuarantineRecord)
    requires Storable(r) && Storable(q) && w <= |LedgerLine(r)|
    ensures ParseLine(LedgerLine(r)[..w] + LedgerLine(q)) ==
            if w > |ToString(r.id)| || JoinedId(r, w, q) >= TWO_64 then None
            else Some(CutToSeconds(q).(id := JoinedId(r, w, q)))
    ensures '\n' !in LedgerLine(r)[..w] + LedgerLine(q)
  {
    FieldsBehindTornLine(r, w, q);
    FieldTexts(r);
    FieldTexts(q);
    var torn, first := TornFields(Fields(r), w), ToString(r.id);
    assert AllDigits(first);
    hide Fields, LedgerLine, Join, ParseFields, CutToSeconds, Storable, Split, TornFields, ToString, Spliced;
    TornFirst(Fields(r), w);
    if w <= |first| {
      SplicedOne(first[..w], Fields(q));
      RecordOfJoined(q, first[..w]);
    } else {
      NineFields(Spliced(torn, Fields(q)));
    }
  }

  lemma TornFirst(fields: seq<string>, w: nat)
    requires |fields| > 1 && w <= |Join(fields)|
    ensures if w <= |fields[0]| then TornFields(fields, w) == [fields[0][..w]] else |TornFields(fields, w)| >= 2
  {}

  lemma NineFields(fields: seq<string>)
    requires |fields| >= 9
    ensures ParseFields(fields) == None
  {}

  lemma ReplaceFirst(first: string, fields: seq<string>)
    requires |fields| == 8
    ensures var g := [first] + fields[1..];
            |g| == 8 && g[0] == first && forall i :: 1 <= i < 8 ==> g[i] == fields[i]
  {}

  lemma RecordOfJoined(q: QuarantineRecord, digits: string)
    requires Storable(q) && AllDigits(digits)
    ensures |Fields(q)| == 8
    ensures var id := Value(digits + ToString(q.id));
            ParseFields([digits + Fields(q)[0]] + Fields(q)[1..]) ==
            if id < TWO_64 then Some(CutToSeconds(q).(id := id)) else None
  {
    FieldNumbers(q);
    FieldTexts(q);
    FieldsRoundTrip(q);
    ReplaceFirst(digits + Fields(q)[0], Fields(q));
    var g := [digits + Fields(q)[0]] + Fields(q)[1..];
    var id := Value(g[0]);
    StoullOfDigits(g[0]);
    hide Fields, Seconds, Stoull, Stoll, ToString, Value;
    if id < TWO_64 { OtherId(Fields(q), g, q.id, q.findingId, Seconds(q.quarantinedAt), id); }
  }

  /** Only the first field differs, and it is another number. */
  lemma OtherId(f: seq<string>, g: seq<string>, was: nat, findingId: nat, seconds: int, id: nat)
    requires |f| == 8 && |g| == 8 && forall i :: 1 <= i < 8 ==> g[i] == f[i]
    requires Stoull(f[0]) == Some(was) && Stoull(f[1]) == Some(findingId) && Stoll(f[5]) == Some(seconds)
    requires Stoull(g[0]) == Some(id)
    ensures ParseFields(f).Some? && ParseFields(g) == Some(ParseFields(f).value.(id := id))
  {
    ParseFieldsIs(f, was, findingId, seconds);
    ParseFieldsIs(g, id, findingId, seconds);
    hide Stoull, Stoll, ParseFields;
  }

  lemma JoinedLoads(text: string, r: QuarantineRecord, w: nat, q: QuarantineRecord)
    requires EndsLine(text) && Storable(r) && Storable(q) && |ToString(r.id)| < w <= |LedgerLine(r)|
    ensures Load(text + LedgerLine(r)[..w] + (LedgerLine(q) + "\n")) == Load(text)
  {
    hide *;
    var torn, line := LedgerLine(r)[..w], LedgerLine(q);
    LineBehindTornLine(r, w, q);
    TailLoads(text, torn + line);
    NoRecord(Load(text));
    Regrouped(text, torn, line);
  }

  lemma Regrouped(text: string, torn: string, line: string)
    ensures text + torn + (line + "\n") == text + (torn + line) + "\n"
  {}

  lemma PastTheId(r: QuarantineRecord)
    ensures Readable(r) > |ToString(r.id)|
  {
    FieldTexts(r);
    hide Fields, ToString;
  }

  // ---- Truncated ledgers ----

  /** The characters in front of record i. */
  function Offset(ledger: seq<QuarantineRecord>, i: nat): nat
    requires i <= |ledger|
  {
    |LedgerText(ledger[..i])|
  }

  /** What of record i is read back when only w characters are left. */
  function LeftOf(ledger: seq<QuarantineRecord>, i: nat, w: nat): Option<QuarantineRecord>
    requires i < |ledger|
  {
    if w < Offset(ledger, i) then None else TornRecord(ledger[i], w - Offset(ledger, i))
  }

  /** Exactly the records whose lines still reach past their sixth bar, in their order. */
  ghost predicate IsLeft(loaded: seq<QuarantineRecord>, ledger: seq<QuarantineRecord>, w: nat) {
    && |loaded| <= |ledger|
    && forall i :: 0 <= i < |ledger| ==> LeftOf(ledger, i, w) == if i < |loaded| then Some(loaded[i]) else None
  }

  lemma OffsetBefore(before: seq<QuarantineRecord>, last: QuarantineRecord, i: nat)
    requires i <= |before|
    ensures Offset(before + [last], i) == Offset(before, i)
  {
    assert (before + [last])[..i] == before[..i];
  }

  lemma OffsetsRise(ledger: seq<QuarantineRecord>, i: nat)
    requires i < |ledger|
    ensures Offset(ledger, i + 1) == Offset(ledger, i) + |LedgerLine(ledger[i])| + 1
  {
    hide LedgerLine;
    assert ledger[..i + 1] == ledger[..i] + [ledger[i]];
    TextSnoc(ledger[..i], ledger[i]);
  }

  lemma {:induction false} OffsetsFit(ledger: seq<QuarantineRecord>, i: nat, j: nat)
    requires i < j <= |ledger|
    ensures Offset(ledger, i) + |LedgerLine(ledger[i])| < Offset(ledger, j)
    decreases j
  {
    hide LedgerLine, Offset;
    OffsetsRise(ledger, j - 1);
    if i < j - 1 { OffsetsFit(ledger, i, j - 1); }
  }

  /** A record whose line is all there is read back whole. */
  lemma WholeIsLeft(ledger: seq<QuarantineRecord>, w: nat)
    requires w >= Offset(ledger, |ledger|)
    ensures IsLeft(AllCut(ledger), ledger, w)
  {
    forall i | 0 <= i < |ledger| ensures LeftOf(ledger, i, w) == Some(AllCut(ledger)[i]) {
      OffsetsFit(ledger, i, |ledger|);
      TornLineFields(ledger[i], 0);
      hide LedgerLine, Readable, CutToSeconds, Offset;
    }
  }

  lemma LeftOfMore(before: seq<QuarantineRecord>, last: QuarantineRecord, w: nat, loaded: seq<QuarantineRecord>)
    requires IsLeft(loaded, before, w)
    requires w < Offset(before, |before|) + Readable(last) || |loaded| == |before|
    ensures var more := LeftOf(before + [last], |before|, w);
            IsLeft(loaded + if more.Some? then [more.value] else [], before + [last], w)
  {
    var ledger := before + [last];
    hide TornRecord, Readable, Offset;
    forall i | 0 <= i <= |before| ensures Offset(ledger, i) == Offset(before, i) { OffsetBefore(before, last, i); }
    assert forall i :: 0 <= i < |before| ==> LeftOf(ledger, i, w) == LeftOf(before, i, w);
    var more := LeftOf(ledger, |before|, w);
    assert more.Some? ==> |loaded| == |before| by { NotReadable(last, w - Offset(before, |before|)); }
  }

  lemma NotReadable(r: QuarantineRecord, w: int)
    ensures Readable(r) > 0 && (0 <= w < Readable(r) ==> TornRecord(r, w) == None)
  {}

  lemma PartOfLine(line: string, w: nat)
    requires w <= |line| + 1
    ensures (line + "\n")[..w] == if w <= |line| then line[..w] else line + "\n"
  {}

  lemma NewlineLast(text: string, line: string)
    ensures text + (line + "\n") == text + line + "\n"
  {}

  /** The last line of a text, torn off or just complete. */
  lemma LastLineLoads(text: string, r: QuarantineRecord, w: nat)
    requires EndsLine(text) && Storable(r) && w <= |LedgerLine(r)| + 1
    ensures Load(text + (LedgerLine(r) + "\n")[..w]) == Add(Load(text), TornRecord(r, w))
  {
    hide *;
    var line := LedgerLine(r);
    PartOfLine(line, w);
    if w <= |line| {
      TornLineParses(r, w);
      TailLoads(text, line[..w]);
    } else {
      WholeIsRead(r);
      LineRoundTrip(r);
      TailLoads(text, line);
      NewlineLast(text, line);
    }
  }

  lemma WholeIsRead(r: QuarantineRecord)
    ensures TornRecord(r, |LedgerLine(r)|) == TornRecord(r, |LedgerLine(r)| + 1) == Some(CutToSeconds(r))
  {
    TornLineFields(r, 0);
    hide LedgerLine, Readable;
  }

  lemma CutText(before: string, line: string, w: nat)
    requires w <= |before| + |line|
    ensures (before + line)[..w] == if w <= |before| then before[..w] else before + line[..w - |before|]
  {}

  lemma LeftOfLast(before: seq<QuarantineRecord>, last: QuarantineRecord, w: nat)
    ensures Offset(before, |before|) == |LedgerText(before)|
    ensures LeftOf(before + [last], |before|, w) ==
            if w < |LedgerText(before)| then None else TornRecord(last, w - |LedgerText(before)|)
  {
    OffsetBefore(before, last, |before|);
    assert before[..|before|] == before;
    hide LedgerText, TornRecord;
  }

  lemma AddedLedger(s: Loaded, r: Option<QuarantineRecord>)
    ensures Add(s, r).ledger == s.ledger + if r.Some? then [r.value] else []
  {}

  /** One more line: it is not reached, or all lines before it are there. */
  lemma TruncatedMore(before: seq<QuarantineRecord>, last: QuarantineRecord, w: nat)
    requires AllStorable(before) && Storable(last) && w <= |LedgerText(before)| + |LedgerLine(last)| + 1
    requires w <= |LedgerText(before)| ==> IsLeft(Load(LedgerText(before)[..w]).ledger, before, w)
    ensures IsLeft(Load((LedgerText(before) + (LedgerLine(last) + "\n"))[..w]).ledger, before + [last], w)
  {
    hide *;
    var text, line := LedgerText(before), LedgerLine(last) + "\n";
    TextEndsLine(before);
    CutText(text, line, w);
    LeftOfLast(before, last, w);
    if w <= |text| {
      NotReadable(last, 0);
      var loaded := Load(text[..w]).ledger;
      LeftOfMore(before, last, w, loaded);
      assert loaded + [] == loaded;
    } else {
      LoadRebuilds(before);
      WholeIsLeft(before, w);
      LastLineLoads(text, last, w - |text|);
      AddedLedger(Load(text), TornRecord(last, w - |text|));
      LeftOfMore(before, last, w, AllCut(before));
    }
  }

  lemma LastOf(ledger: seq<QuarantineRecord>) returns (before: seq<QuarantineRecord>, last: QuarantineRecord)
    requires |ledger| > 0 && AllStorable(ledger)
    ensures ledger == before + [last] && AllStorable(before) && Storable(last)
  {
    hide Storable;
    before, last := ledger[..|ledger| - 1], ledger[|ledger| - 1];
  }

  /** A ledger cut off anywhere gives back exactly the records that reach past their sixth bars. */
  lemma {:induction false} TruncatedLoads(ledger: seq<QuarantineRecord>, w: nat)
    requires AllStorable(ledger) && w <= |LedgerText(ledger)|
    ensures IsLeft(Load(LedgerText(ledger)[..w]).ledger, ledger, w)
  {
    if |ledger| == 0 {
      NoLines(NOTHING_LOADED);
      hide TornRecord, Offset, Lines, LoadLines;
    } else {
      hide *;
      var before, last := LastOf(ledger);
      TextSnoc(before, last);
      NewlineLast(LedgerText(before), LedgerLine(last));
      if w <= |LedgerText(before)| { TruncatedLoads(before, w); }
      TruncatedMore(before, last, w);
    }
  }
}
