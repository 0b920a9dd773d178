/** What holds of the correlation engine over every run, whatever the clock says at each call. */
module CorrelationRuns {
  import opened Common
  import opened Observation
  import opened Policy
  import opened Correlation

  /** Everything ingested, everything emitted, and for each active key the findings emitted for it since
      it last became active. */
  datatype History = History(
    seen: seq<SecurityObservation>,
    emitted: seq<SecurityFinding>,
    periods: map<string, seq<SecurityFinding>>)

  datatype Tracked = Tracked(engine: Engine, history: History)

  datatype Action = Ingest(observation: SecurityObservation, now: int) | Expire(now: int)

  const START: Tracked := Tracked(Engine(map[], [], 1), History([], [], map[]))

  function Optional(r: Option<SecurityFinding>): seq<SecurityFinding> {
    if r.Some? then [r.value] else []
  }

  /** A key that expired or was evicted starts again, even when the same call makes it active again. */
  function PeriodOf(key: string, periods: map<string, seq<SecurityFinding>>, kept: Active,
                    r: Option<SecurityFinding>): seq<SecurityFinding> {
    var before := if key in kept && key in periods then periods[key] else [];
    if r.Some? && r.value.correlationKey == key then before + [r.value] else before
  }

  function PeriodsAfter(periods: map<string, seq<SecurityFinding>>, kept: Active, active: Active,
                        r: Option<SecurityFinding>): map<string, seq<SecurityFinding>> {
    map key | key in active :: PeriodOf(key, periods, kept, r)
  }

  ghost predicate Step(window: int, s: Tracked, a: Action, t: Tracked, r: Option<SecurityFinding>) {
    var kept := Unexpired(s.engine.active, a.now, window);
    match a
    case Expire(now) =>
      && r == None && t.engine == s.engine.(active := kept)
      && t.history == s.history.(periods := PeriodsAfter(s.history.periods, kept, kept, None))
    case Ingest(o, now) =>
      && Ingested(s.engine, o, now, window, t.engine, r)
      && t.history == if !o.Valid() then s.history
                      else History(s.history.seen + [o], s.history.emitted + Optional(r),
                                   PeriodsAfter(s.history.periods, kept, t.engine.active, r))
  }

  // ---- Findings of one key ----

  /** Scores rise strictly, levels never fall. */
  ghost predicate Rising(period: seq<SecurityFinding>) {
    && (forall i :: 0 <= i < |period| ==> 1 <= period[i].riskScore <= 100)
    && (forall i, j :: 0 <= i < j < |period| ==>
          period[i].riskScore < period[j].riskScore && period[i].level.Rank() <= period[j].level.Rank())
  }

  /** So there are at most a hundred. */
  lemma {:induction false} RisingIsShort(period: seq<SecurityFinding>)
    requires Rising(period)
    ensures |period| <= 100
    ensures |period| > 0 ==> |period| <= period[|period| - 1].riskScore
  {
    if |period| > 0 {
      var before := period[..|period| - 1];
      RisingIsShort(before);
      assert |before| > 0 ==> before[|before| - 1].riskScore < period[|before|].riskScore;
    }
  }

  /** The state remembers the last finding of its period. */
  ghost predicate Remembers(state: ActiveState, period: seq<SecurityFinding>) {
    && Rising(period) && (forall i :: 0 <= i < |period| ==> period[i].level == LevelFor(period[i].riskScore))
    && state.lastReportedScore == (if period == [] then 0 else period[|period| - 1].riskScore)
    && state.lastReportedLevel == LevelFor(state.lastReportedScore)
  }

  // ---- Findings and what was observed ----

  /** o is where this source state came from. */
  predicate Backs(o: SecurityObservation, key: string, id: string, source: SourceState) {
    && o.Valid() && o.CorrelationKey() == key && o.sourceId == id
    && o.confidence == source.confidence && o.deterministic == source.deterministic
  }

  ghost predicate SourcesSeen(sources: map<string, SourceState>, key: string, seen: seq<SecurityObservation>) {
    forall id :: id in sources ==> exists i :: 0 <= i < |seen| && Backs(seen[i], key, id, sources[id])
  }

  /** o is of this key, and of one of these sources. */
  predicate Belongs(o: SecurityObservation, key: string, sources: map<string, SourceState>) {
    o.Valid() && o.CorrelationKey() == key && o.sourceId in sources
  }

  function PathOf(o: SecurityObservation): string { o.filePath }
  function HashOf(o: SecurityObservation): string { o.sha256 }
  function EvidenceOf(o: SecurityObservation): string { o.evidence }

  /** A text is empty, or some observation of the key has it. */
  ghost predicate TextSeen(pick: SecurityObservation -> string, text: string, key: string,
                           sources: map<string, SourceState>, seen: seq<SecurityObservation>) {
    text != "" ==> exists i :: 0 <= i < |seen| && Belongs(seen[i], key, sources) && pick(seen[i]) == text
  }

  /** Path, hash and evidence of a key's state come from observations of it. */
  ghost predicate DetailsSeen(state: ActiveState, key: string, seen: seq<SecurityObservation>) {
    && TextSeen(PathOf, state.filePath, key, state.sources, seen)
    && TextSeen(HashOf, state.sha256, key, state.sources, seen)
    && TextSeen(EvidenceOf, state.rationale, key, state.sources, seen)
  }

  predicate Concerns(o: SecurityObservation, f: SecurityFinding) {
    o.Valid() && o.CorrelationKey() == f.correlationKey && o.sourceId in f.contributingSources
  }

  /** What a finding says is borne out by what was observed before it. */
  ghost predicate Grounded(f: SecurityFinding, seen: seq<SecurityObservation>) {
    && 1 <= f.riskScore <= 100 && f.level == LevelFor(f.riskScore)
    && (forall id :: id in f.contributingSources ==>
          exists i :: 0 <= i < |seen| && Concerns(seen[i], f) && seen[i].sourceId == id)
    && (f.deterministicSignature ==> exists i :: 0 <= i < |seen| && Concerns(seen[i], f) && seen[i].deterministic)
    && (f.level == Critical ==> exists a, b :: a in f.contributingSources && b in f.contributingSources && a != b)
    && DetailsGrounded(f, seen)
  }

  ghost predicate TextGrounded(pick: SecurityObservation -> string, text: string, f: SecurityFinding,
                               seen: seq<SecurityObservation>) {
    text != "" ==> exists i :: 0 <= i < |seen| && Concerns(seen[i], f) && pick(seen[i]) == text
  }

  /** The path and hash that a quarantine will go by were observed, and so was the rationale. */
  ghost predicate DetailsGrounded(f: SecurityFinding, seen: seq<SecurityObservation>) {
    && TextGrounded(PathOf, f.filePath, f, seen) && TextGrounded(HashOf, f.sha256, f, seen)
    && TextGrounded(EvidenceOf, f.rationale, f, seen)
  }

  // ---- The invariant ----

  ghost predicate Limits(s: Engine) {
    |s.active| <= MAX_ACTIVE_KEYS && |s.findings| <= MAX_FINDINGS
  }

  /** Findings are numbered 1, 2, 3, ..., and the newest are kept. */
  ghost predicate Numbered(s: Tracked) {
    var emitted := s.history.emitted;
    && s.engine.nextFindingId == |emitted| + 1
    && (forall i :: 0 <= i < |emitted| ==> emitted[i].id == i + 1)
    && s.engine.findings == Newest(emitted, MAX_FINDINGS)
  }

  ghost predicate KeyOk(key: string, state: ActiveState, period: seq<SecurityFinding>, seen: seq<SecurityObservation>) {
    Remembers(state, period) && SourcesSeen(state.sources, key, seen) && DetailsSeen(state, key, seen)
  }

  ghost predicate KeysOk(active: Active, periods: map<string, seq<SecurityFinding>>, seen: seq<SecurityObservation>) {
    active.Keys == periods.Keys && forall key :: key in active ==> KeyOk(key, active[key], periods[key], seen)
  }

  ghost predicate AllGrounded(emitted: seq<SecurityFinding>, seen: seq<SecurityObservation>) {
    forall i :: 0 <= i < |emitted| ==> Grounded(emitted[i], seen)
  }

  ghost predicate Invariant(s: Tracked) {
    && Limits(s.engine) && Numbered(s)
    && KeysOk(s.engine.active, s.history.periods, s.history.seen)
    && AllGrounded(s.history.emitted, s.history.seen)
  }

  // ---- Seeing more never hurts ----

  lemma SourcesSeenLater(sources: map<string, SourceState>, key: string, seen: seq<SecurityObservation>,
                         o: SecurityObservation)
    requires SourcesSeen(sources, key, seen)
    ensures SourcesSeen(sources, key, seen + [o])
  {
    forall id | id in sources
      ensures exists i :: 0 <= i < |seen + [o]| && Backs((seen + [o])[i], key, id, sources[id])
    {
      var i :| 0 <= i < |seen| && Backs(seen[i], key, id, sources[id]);
      assert (seen + [o])[i] == seen[i];
    }
  }

  lemma TextSeenLater(pick: SecurityObservation -> string, text: string, key: string,
                      sources: map<string, SourceState>, seen: seq<SecurityObservation>, o: SecurityObservation)
    requires TextSeen(pick, text, key, sources, seen)
    ensures TextSeen(pick, text, key, sources, seen + [o])
  {
    hide Belongs;
    if text != "" {
      var i :| 0 <= i < |seen| && Belongs(seen[i], key, sources) && pick(seen[i]) == text;
      assert (seen + [o])[i] == seen[i];
    }
  }

  lemma DetailsSeenLater(state: ActiveState, key: string, seen: seq<SecurityObservation>, o: SecurityObservation)
    requires DetailsSeen(state, key, seen)
    ensures DetailsSeen(state, key, seen + [o])
  {
    hide TextSeen;
    TextSeenLater(PathOf, state.filePath, key, state.sources, seen, o);
    TextSeenLater(HashOf, state.sha256, key, state.sources, seen, o);
    TextSeenLater(EvidenceOf, state.rationale, key, state.sources, seen, o);
  }

  lemma TextGroundedLater(pick: SecurityObservation -> string, text: string, f: SecurityFinding,
                          seen: seq<SecurityObservation>, o: SecurityObservation)
    requires TextGrounded(pick, text, f, seen)
    ensures TextGrounded(pick, text, f, seen + [o])
  {
    hide Concerns;
    if text != "" {
      var i :| 0 <= i < |seen| && Concerns(seen[i], f) && pick(seen[i]) == text;
      assert (seen + [o])[i] == seen[i];
    }
  }

  lemma DetailsGroundedLater(f: SecurityFinding, seen: seq<SecurityObservation>, o: SecurityObservation)
    requires DetailsGrounded(f, seen)
    ensures DetailsGrounded(f, seen + [o])
  {
    hide TextGrounded;
    TextGroundedLater(PathOf, f.filePath, f, seen, o);
    TextGroundedLater(HashOf, f.sha256, f, seen, o);
    TextGroundedLater(EvidenceOf, f.rationale, f, seen, o);
  }

  lemma BelongsLater(key: string, sources: map<string, SourceState>, more: map<string, SourceState>)
    requires sources.Keys <= more.Keys
    ensures forall p: SecurityObservation :: Belongs(p, key, sources) ==> Belongs(p, key, more)
  {}

  /** A text that was missing comes from the new observation. */
  lemma TextTouched(pick: SecurityObservation -> string, text: string, key: string, sources: map<string, SourceState>,
                    more: map<string, SourceState>, seen: seq<SecurityObservation>, o: SecurityObservation)
    requires TextSeen(pick, text, key, sources, seen) && sources.Keys <= more.Keys && Belongs(o, key, more)
    ensures TextSeen(pick, if text == "" then pick(o) else text, key, more, seen + [o])
  {
    BelongsLater(key, sources, more);
    hide Belongs;
    if text != "" {
      var i :| 0 <= i < |seen| && Belongs(seen[i], key, sources) && pick(seen[i]) == text;
      assert (seen + [o])[i] == seen[i];
    } else {
      assert (seen + [o])[|seen|] == o;
    }
  }

  /** The new observation belongs to the key, and brings the details that were still missing. */
  lemma TouchedDetails(state: ActiveState, o: SecurityObservation, now: int, seen: seq<SecurityObservation>)
    requires o.Valid() && DetailsSeen(state, o.CorrelationKey(), seen)
    ensures DetailsSeen(Touched(state, o, now), o.CorrelationKey(), seen + [o])
  {
    var key, touched := o.CorrelationKey(), Touched(state, o, now);
    hide TextSeen, SecurityObservation.CorrelationKey;
    TextTouched(PathOf, state.filePath, key, state.sources, touched.sources, seen, o);
    TextTouched(HashOf, state.sha256, key, state.sources, touched.sources, seen, o);
    TextTouched(EvidenceOf, state.rationale, key, state.sources, touched.sources, seen, o);
  }

  lemma TextIsGrounded(pick: SecurityObservation -> string, text: string, f: SecurityFinding, key: string,
                       sources: map<string, SourceState>, seen: seq<SecurityObservation>)
    requires TextSeen(pick, text, key, sources, seen) && f.correlationKey == key
    requires forall id :: id in sources ==> id in f.contributingSources
    ensures TextGrounded(pick, text, f, seen)
  {
    assert forall p: SecurityObservation :: Belongs(p, key, sources) ==> Concerns(p, f);
    hide Belongs, Concerns;
  }

  /** What belongs to the key and one of the listed sources concerns the finding. */
  lemma DetailsAreGrounded(f: SecurityFinding, id: nat, key: string, state: ActiveState, now: int,
                           seen: seq<SecurityObservation>)
    requires Describes(f, id, key, state, now) && DetailsSeen(state, key, seen)
    ensures DetailsGrounded(f, seen)
  {
    hide TextSeen, TextGrounded;
    TextIsGrounded(PathOf, state.filePath, f, key, state.sources, seen);
    TextIsGrounded(HashOf, state.sha256, f, key, state.sources, seen);
    TextIsGrounded(EvidenceOf, state.rationale, f, key, state.sources, seen);
  }

  lemma GroundedLater(f: SecurityFinding, seen: seq<SecurityObservation>, o: SecurityObservation)
    requires Grounded(f, seen)
    ensures Grounded(f, seen + [o])
  {
    var more := seen + [o];
    DetailsGroundedLater(f, seen, o);
    hide DetailsGrounded;
    assert forall i :: 0 <= i < |seen| ==> more[i] == seen[i];
    forall id | id in f.contributingSources
      ensures exists i :: 0 <= i < |more| && Concerns(more[i], f) && more[i].sourceId == id
    {
      var i :| 0 <= i < |seen| && Concerns(seen[i], f) && seen[i].sourceId == id;
      assert Concerns(more[i], f);
    }
    if f.deterministicSignature {
      var i :| 0 <= i < |seen| && Concerns(seen[i], f) && seen[i].deterministic;
      assert Concerns(more[i], f);
    }
  }

  lemma TouchedIsSeen(state: ActiveState, o: SecurityObservation, now: int, seen: seq<SecurityObservation>)
    requires o.Valid() && SourcesSeen(state.sources, o.CorrelationKey(), seen)
    ensures SourcesSeen(Touched(state, o, now).sources, o.CorrelationKey(), seen + [o])
    ensures Confident(Touched(state, o, now).sources)
  {
    SourcesSeenLater(state.sources, o.CorrelationKey(), seen, o);
    assert (seen + [o])[|seen|] == o;
  }

  /** A finding made from a state whose sources were seen is borne out. */
  lemma DescribedIsGrounded(f: SecurityFinding, id: nat, key: string, state: ActiveState, now: int,
                            seen: seq<SecurityObservation>)
    requires Describes(f, id, key, state, now) && SourcesSeen(state.sources, key, seen) && Confident(state.sources)
    requires DetailsSeen(state, key, seen) && f.riskScore >= 1
    ensures Grounded(f, seen)
  {
    assert f.riskScore <= 100;
    DetailsAreGrounded(f, id, key, state, now, seen);
    hide DetailsGrounded, DetailsSeen;
    forall name | name in f.contributingSources
      ensures exists i :: 0 <= i < |seen| && Concerns(seen[i], f) && seen[i].sourceId == name
    {
      var i :| 0 <= i < |seen| && Backs(seen[i], key, name, state.sources[name]);
      assert Concerns(seen[i], f);
    }
    if f.deterministicSignature {
      var name :| name in state.sources && state.sources[name].deterministic;
      var i :| 0 <= i < |seen| && Backs(seen[i], key, name, state.sources[name]);
      assert Concerns(seen[i], f);
    }
    if f.level == Critical {
      CriticalNeedsTwoSources(state.sources);
      TwoNames(state.sources);
    }
  }

  lemma TwoNames(sources: map<string, SourceState>)
    requires |sources| >= 2
    ensures exists a, b :: a in sources && b in sources && a != b
  {
    var a :| a in sources;
    Smaller(sources, a);
    assert sources - {a} != map[];
    var b :| b in sources - {a};
  }

  // ---- One step ----

  lemma LevelsRise(a: int, b: int)
    requires a <= b
    ensures LevelFor(a).Rank() <= LevelFor(b).Rank()
  {}

  /** A finding that is reported beats the last one. */
  lemma ReportRises(state: ActiveState, period: seq<SecurityFinding>, f: SecurityFinding)
    requires Remembers(state, period) && Confident(state.sources) && ShouldReport(state)
    requires f.riskScore == Score(state.sources) && f.level == LevelFor(f.riskScore)
    ensures f.riskScore >= 1
    ensures Remembers(state.(lastReportedScore := f.riskScore, lastReportedLevel := f.level), period + [f])
  {
    TotalBounds(state.sources);
    if f.riskScore <= state.lastReportedScore { LevelsRise(f.riskScore, state.lastReportedScore); }
    assert f.riskScore > state.lastReportedScore;
    LevelsRise(state.lastReportedScore, f.riskScore);
    var more := period + [f];
    hide LevelFor;
    forall i, j | 0 <= i < j < |more|
      ensures more[i].riskScore < more[j].riskScore && more[i].level.Rank() <= more[j].level.Rank()
    {
      if j == |period| { assert i == |period| - 1 || period[i].riskScore < period[|period| - 1].riskScore; }
    }
  }

  lemma KeepsDetails(state: ActiveState, key: string, seen: seq<SecurityObservation>, score: int, level: ThreatLevel)
    requires DetailsSeen(state, key, seen)
    ensures DetailsSeen(state.(lastReportedScore := score, lastReportedLevel := level), key, seen)
  {}

  /** What Reported does to the key it is about. */
  lemma ReportedKey(s: Engine, room: Active, o: SecurityObservation, now: int, t: Engine, r: Option<SecurityFinding>,
                    state: ActiveState, period: seq<SecurityFinding>, seen: seq<SecurityObservation>)
    requires o.Valid() && Reported(s, room, o, now, t, r)
    requires state == if o.CorrelationKey() in room then room[o.CorrelationKey()] else FRESH_STATE
    requires KeyOk(o.CorrelationKey(), state, period, seen)
    ensures var key := o.CorrelationKey();
            && key in t.active && t.active == room[key := t.active[key]]
            && (r.Some? ==> r.value.correlationKey == key && r.value.id == s.nextFindingId)
            && (r.Some? ==> Grounded(r.value, seen + [o]))
            && KeyOk(key, t.active[key], period + Optional(r), seen + [o])
  {
    var key := o.CorrelationKey();
    var touched := Touched(state, o, now);
    assert period + [] == period;
    SourcesSeenLater(state.sources, key, seen, o);
    DetailsSeenLater(state, key, seen, o);
    TouchedIsSeen(state, o, now, seen);
    TouchedDetails(state, o, now, seen);
    assert Remembers(touched, period);
    if r.Some? { KeepsDetails(touched, key, seen + [o], r.value.riskScore, r.value.level); }
    hide DetailsSeen, Score, LevelFor, Remembers, SourcesSeen, Grounded, IsDuplicate, Confident, Touched,
         SecurityObservation.CorrelationKey;
    if r.Some? {
      assert Describes(r.value, s.nextFindingId, key, touched, now) && ShouldReport(touched);
      ReportRises(touched, period, r.value);
      DescribedIsGrounded(r.value, s.nextFindingId, key, touched, now, seen + [o]);
    }
  }

  lemma RoomIsKept(active: Active, key: string, room: Active)
    requires MakesRoom(active, key, room) && |active| <= MAX_ACTIVE_KEYS
    ensures room.Keys <= active.Keys && forall k :: k in room ==> room[k] == active[k]
    ensures key in active ==> room == active
    ensures key !in active ==> key !in room && |room| < MAX_ACTIVE_KEYS
  {
    if key !in active && |active| >= MAX_ACTIVE_KEYS {
      var gone :| IsOldest(active, gone) && room == active - {gone};
      assert room.Keys == active.Keys - {gone};
      Smaller(active, gone);
    }
  }

  lemma UnexpiredIsSmaller(active: Active, now: int, window: int)
    ensures |Unexpired(active, now, window)| <= |active|
  {
    var kept := Unexpired(active, now, window);
    SubsetIsSmaller(kept.Keys, active.Keys);
    assert |kept| == |kept.Keys| && |active| == |active.Keys|;
  }

  lemma {:induction false} SubsetIsSmaller(a: set<string>, b: set<string>)
    requires a <= b
    ensures |a| <= |b|
    decreases |a|
  {
    if a != {} {
      var x :| x in a;
      SubsetIsSmaller(a - {x}, b - {x});
    }
  }

  lemma ExpiryKeepsKeys(active: Active, periods: map<string, seq<SecurityFinding>>, seen: seq<SecurityObservation>,
                        now: int, window: int)
    requires KeysOk(active, periods, seen)
    ensures var kept := Unexpired(active, now, window);
            KeysOk(kept, PeriodsAfter(periods, kept, kept, None), seen)
  {
    var kept := Unexpired(active, now, window);
    assert forall key :: key in kept ==> PeriodsAfter(periods, kept, kept, None)[key] == periods[key];
  }

  lemma KeyLater(key: string, state: ActiveState, period: seq<SecurityFinding>, seen: seq<SecurityObservation>,
                 o: SecurityObservation)
    requires KeyOk(key, state, period, seen)
    ensures KeyOk(key, state, period, seen + [o])
  {
    SourcesSeenLater(state.sources, key, seen, o);
    DetailsSeenLater(state, key, seen, o);
  }

  lemma KeysAfterIngest(kept: Active, periods: map<string, seq<SecurityFinding>>, seen: seq<SecurityObservation>,
                        o: SecurityObservation, key: string, room: Active, active: Active, r: Option<SecurityFinding>)
    requires kept.Keys <= periods.Keys && forall k :: k in kept ==> KeyOk(k, kept[k], periods[k], seen)
    requires room.Keys <= kept.Keys && forall k :: k in room ==> room[k] == kept[k]
    requires key in active && active == room[key := active[key]]
    requires r.Some? ==> r.value.correlationKey == key
    requires KeyOk(key, active[key], PeriodOf(key, periods, kept, r), seen + [o])
    ensures KeysOk(active, PeriodsAfter(periods, kept, active, r), seen + [o])
  {
    hide KeyOk;
    forall k | k in active ensures KeyOk(k, active[k], PeriodOf(k, periods, kept, r), seen + [o]) {
      if k != key {
        assert PeriodOf(k, periods, kept, r) == periods[k];
        KeyLater(k, active[k], periods[k], seen, o);
      }
    }
  }

  lemma IngestKeepsKeys(s: Tracked, o: SecurityObservation, now: int, room: Active, t: Engine,
        r: Option<SecurityFinding>,
                        window: int)
    requires o.Valid() && Limits(s.engine) && KeysOk(s.engine.active, s.history.periods, s.history.seen)
    requires MakesRoom(Unexpired(s.engine.active, now, window), o.CorrelationKey(), room)
    requires Reported(s.engine, room, o, now, t, r)
    ensures |t.active| <= MAX_ACTIVE_KEYS
    ensures r.Some? ==> Grounded(r.value, s.history.seen + [o])
    ensures KeysOk(t.active, PeriodsAfter(s.history.periods, Unexpired(s.engine.active, now, window), t.active, r),
                   s.history.seen + [o])
  {
    var kept, key := Unexpired(s.engine.active, now, window), o.CorrelationKey();
    var periods, seen := s.history.periods, s.history.seen;
    UnexpiredIsSmaller(s.engine.active, now, window);
    assert kept.Keys <= periods.Keys && forall k :: k in kept ==> KeyOk(k, kept[k], periods[k], seen);
    RoomIsKept(kept, key, room);
    var state := if key in room then room[key] else FRESH_STATE;
    var period := if key in kept then periods[key] else [];
    assert KeyOk(key, state, period, seen);
    hide Reported, Grounded, KeyOk, KeysOk, MakesRoom, Unexpired, PeriodsAfter, SecurityObservation.CorrelationKey;
    ReportedKey(s.engine, room, o, now, t, r, state, period, seen);
    assert PeriodOf(key, periods, kept, r) == period + Optional(r);
    KeysAfterIngest(kept, periods, seen, o, key, room, t.active, r);
    SizeAfterInsert(room, key, t.active[key]);
  }

  lemma SizeAfterInsert(m: Active, k: string, v: ActiveState)
    ensures |m[k := v]| == if k in m then |m| else |m| + 1
  {
    assert m[k := v].Keys == m.Keys + {k};
    assert |m[k := v]| == |m[k := v].Keys| && |m| == |m.Keys|;
  }

  lemma AppendKeepsNewest(emitted: seq<SecurityFinding>, f: SecurityFinding)
    ensures Append(Newest(emitted, MAX_FINDINGS), f) == Newest(emitted + [f], MAX_FINDINGS)
    ensures |Append(Newest(emitted, MAX_FINDINGS), f)| <= MAX_FINDINGS
  {
    var more := emitted + [f];
    if |emitted| > MAX_FINDINGS {
      assert more[|emitted| - MAX_FINDINGS..] == Newest(emitted, MAX_FINDINGS) + [f];
      assert more[|more| - MAX_FINDINGS..] == more[|emitted| - MAX_FINDINGS..][1..];
    }
  }

  lemma ReportedNumbers(s: Engine, room: Active, o: SecurityObservation, now: int, t: Engine,
        r: Option<SecurityFinding>)
    requires Reported(s, room, o, now, t, r)
    ensures r.Some? ==> r.value.id == s.nextFindingId && t.findings == Append(s.findings, r.value)
    ensures r.None? ==> t.findings == s.findings
    ensures t.nextFindingId == s.nextFindingId + |Optional(r)|
  {
    hide Touched, ShouldReport, IsDuplicate, SecurityObservation.CorrelationKey, Append, Score, LevelFor, Lists,
         SomeDeterministic;
  }

  lemma IngestKeepsNumbers(s: Tracked, room: Active, o: SecurityObservation, now: int, t: Tracked,
        r: Option<SecurityFinding>)
    requires Numbered(s) && Reported(s.engine, room, o, now, t.engine, r)
    requires t.history.emitted == s.history.emitted + Optional(r)
    ensures Numbered(t) && |t.engine.findings| <= MAX_FINDINGS
  {
    hide Reported, Append, Newest;
    ReportedNumbers(s.engine, room, o, now, t.engine, r);
    if r.Some? {
      AppendKeepsNewest(s.history.emitted, r.value);
    } else {
      assert s.history.emitted + [] == s.history.emitted;
    }
  }

  lemma IngestKeepsGrounded(s: History, o: SecurityObservation, r: Option<SecurityFinding>)
    requires AllGrounded(s.emitted, s.seen) && (r.Some? ==> Grounded(r.value, s.seen + [o]))
    ensures AllGrounded(s.emitted + Optional(r), s.seen + [o])
  {
    hide Grounded;
    var emitted := s.emitted + Optional(r);
    forall i | 0 <= i < |emitted| ensures Grounded(emitted[i], s.seen + [o]) {
      if i < |s.emitted| { GroundedLater(s.emitted[i], s.seen, o); }
    }
  }

  lemma StepKeepsInvariant(window: int, s: Tracked, a: Action, t: Tracked, r: Option<SecurityFinding>)
    requires Invariant(s) && Step(window, s, a, t, r)
    ensures Invariant(t)
  {
    var kept := Unexpired(s.engine.active, a.now, window);
    if a.Expire? {
      UnexpiredIsSmaller(s.engine.active, a.now, window);
      ExpiryKeepsKeys(s.engine.active, s.history.periods, s.history.seen, a.now, window);
    } else if a.observation.Valid() {
      var o := a.observation;
      var room :| MakesRoom(kept, o.CorrelationKey(), room) && Reported(s.engine, room, o, a.now, t.engine, r);
      hide Reported, Grounded, AllGrounded, Numbered, KeysOk, MakesRoom, Ingested, PeriodsAfter, Unexpired;
      IngestKeepsKeys(s, o, a.now, room, t.engine, r, window);
      IngestKeepsNumbers(s, room, o, a.now, t, r);
      IngestKeepsGrounded(s.history, o, r);
    }
  }

  // ---- Runs ----

  datatype Event = Event(action: Action, result: Option<SecurityFinding>, after: Tracked)

  function Last(run: seq<Event>): Tracked {
    if |run| == 0 then START else run[|run| - 1].after
  }

  ghost predicate IsRun(window: int, run: seq<Event>) {
    if |run| == 0 then true
    else
      var before, e := run[..|run| - 1], run[|run| - 1];
      IsRun(window, before) && Step(window, Last(before), e.action, e.after, e.result)
  }

  lemma {:induction false} RunKeepsInvariant(window: int, run: seq<Event>)
    requires IsRun(window, run)
    ensures Invariant(Last(run))
  {
    if |run| > 0 {
      var before, e := run[..|run| - 1], run[|run| - 1];
      RunKeepsInvariant(window, before);
      StepKeepsInvariant(window, Last(before), e.action, e.after, e.result);
    } else {
      assert Limits(START.engine) && Numbered(START);
    }
  }

  /** From the moment a key becomes active until it expires or is evicted, its findings rise strictly in
      score and never fall in level, so there are at most a hundred; the limits hold throughout. */
  lemma KeysRiseWhileActive(window: int, run: seq<Event>, key: string)
    requires IsRun(window, run)
    ensures var s := Last(run);
            && |s.engine.active| <= 4096 && s.engine.findings == Newest(s.history.emitted, 2000)
            && (key in s.engine.active ==>
                  key in s.history.periods && Rising(s.history.periods[key]) && |s.history.periods[key]| <= 100)
  {
    RunKeepsInvariant(window, run);
    var s := Last(run);
    if key in s.engine.active {
      assert KeyOk(key, s.engine.active[key], s.history.periods[key], s.history.seen);
      RisingIsShort(s.history.periods[key]);
    }
  }

  // ---- Eviction ----

  /** When 4096 keys are active and another one comes, exactly one of them goes, and none that stays was seen longer
      ago; below that, or for a key that is active, all stay. */
  lemma EvictionTakesTheOldest(active: Active, key: string, room: Active)
    requires MakesRoom(active, key, room)
    ensures key !in active && |active| >= 4096 ==>
              exists gone :: gone in active && room == active - {gone}
                             && forall k :: k in room ==> active[gone].lastSeen <= room[k].lastSeen
    ensures key in active || |active| < 4096 ==> room == active
  {
    if key !in active && |active| >= 4096 {
      var gone :| IsOldest(active, gone) && room == active - {gone};
      assert forall k :: k in room ==> room[k] == active[k];
    }
  }

  // ---- What does not count ----

  /** An observation without a source or evidence, of a confidence outside [0, 1] or of level SAFE changes nothing. */
  lemma UnusableChangesNothing(window: int, s: Tracked, o: SecurityObservation, now: int, t: Tracked,
                               r: Option<SecurityFinding>)
    requires Step(window, s, Ingest(o, now), t, r)
    requires o.sourceId == "" || o.evidence == "" || o.confidence < 0.0 || o.confidence > 1.0
             || o.suggestedLevel == Safe
    ensures t.engine == s.engine && t.history == s.history && r == None
  {}

  /** No finding lacks a source or names an empty one. */
  lemma SourcesAreNamed(f: SecurityFinding, seen: seq<SecurityObservation>)
    requires Grounded(f, seen)
    ensures forall name :: name in f.contributingSources ==> name != ""
  {
    hide DetailsGrounded, SecurityObservation.CorrelationKey;
    forall name | name in f.contributingSources ensures name != "" {
      var i :| 0 <= i < |seen| && Concerns(seen[i], f) && seen[i].sourceId == name;
    }
  }
}
