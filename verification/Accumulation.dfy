/** How evidence about one key adds up over a run (src/security/correlation_engine.cpp). */
module Accumulation {
  import opened Common
  import opened Observation
  import opened Policy
  import opened Names
  import opened Correlation
  import opened CorrelationRuns

  // ---- What has been taken in ----

  datatype Sighting = Sighting(observation: SecurityObservation, at: int)

  /** The last sighting by a source. */
  function Latest(taken: seq<Sighting>, id: string): (r: Option<Sighting>)
    ensures r.Some? ==> r.value in taken && r.value.observation.sourceId == id
  {
    if |taken| == 0 then None
    else
      var last := taken[|taken| - 1];
      if last.observation.sourceId == id then Some(last) else Latest(taken[..|taken| - 1], id)
  }

  /** The same source has been taken in less than half a minute before. */
  predicate Repeats(taken: seq<Sighting>, o: SecurityObservation, now: int) {
    var last := Latest(taken, o.sourceId);
    last.Some? && 0 <= now - last.value.at < 30 * TICKS_PER_SECOND
  }

  predicate IsAbout(a: Action, key: string) {
    a.Ingest? && a.observation.Valid() && a.observation.CorrelationKey() == key
  }

  function Take(taken: seq<Sighting>, key: string, a: Action): seq<Sighting> {
    if IsAbout(a, key) && !Repeats(taken, a.observation, a.now) then taken + [Sighting(a.observation, a.now)] else taken
  }

  /** The observations of a key that count, in the order they came. */
  function TakenIn(key: string, events: seq<Event>): seq<Sighting> {
    if |events| == 0 then [] else Take(TakenIn(key, events[..|events| - 1]), key, events[|events| - 1].action)
  }

  /** The first text that is not empty. */
  function FirstText(texts: seq<string>): string {
    if |texts| == 0 then "" else if texts[0] != "" then texts[0] else FirstText(texts[1..])
  }

  function Paths(taken: seq<Sighting>): (texts: seq<string>)
    ensures |texts| == |taken|
  {
    seq(|taken|, i requires 0 <= i < |taken| => taken[i].observation.filePath)
  }

  function Hashes(taken: seq<Sighting>): (texts: seq<string>)
    ensures |texts| == |taken|
  {
    seq(|taken|, i requires 0 <= i < |taken| => taken[i].observation.sha256)
  }

  function Evidence(taken: seq<Sighting>): (texts: seq<string>)
    ensures |texts| == |taken|
  {
    seq(|taken|, i requires 0 <= i < |taken| => taken[i].observation.evidence)
  }

  // ---- What a key's state says of them ----

  predicate IsSource(source: SourceState, s: Sighting) {
    source == SourceState(s.observation.confidence, s.observation.suggestedLevel, s.observation.deterministic, s.at)
  }

  /** One source state for every source taken in, from its last sighting. */
  ghost predicate HoldsSources(sources: map<string, SourceState>, taken: seq<Sighting>) {
    forall id :: (id in sources <==> Latest(taken, id).Some?)
                 && (id in sources ==> IsSource(sources[id], Latest(taken, id).value))
  }

  ghost predicate Holds(state: ActiveState, taken: seq<Sighting>) {
    && HoldsSources(state.sources, taken)
    && (taken != [] ==> state.lastSeen == taken[|taken| - 1].at)
    && state.filePath == FirstText(Paths(taken)) && state.sha256 == FirstText(Hashes(taken))
    && state.rationale == FirstText(Evidence(taken))
  }

  lemma {:induction false} FirstTextSnoc(texts: seq<string>, last: string)
    ensures FirstText(texts + [last]) == if FirstText(texts) == "" then last else FirstText(texts)
  {
    if |texts| > 0 {
      assert (texts + [last])[1..] == texts[1..] + [last];
      FirstTextSnoc(texts[1..], last);
    } else {
      assert [last][1..] == [];
    }
  }

  lemma TextsSnoc(taken: seq<Sighting>, s: Sighting)
    ensures Paths(taken + [s]) == Paths(taken) + [s.observation.filePath]
    ensures Hashes(taken + [s]) == Hashes(taken) + [s.observation.sha256]
    ensures Evidence(taken + [s]) == Evidence(taken) + [s.observation.evidence]
  {}

  lemma LatestSnoc(taken: seq<Sighting>, s: Sighting, id: string)
    ensures Latest(taken + [s], id) == if s.observation.sourceId == id then Some(s) else Latest(taken, id)
  {
    assert (taken + [s])[..|taken|] == taken;
  }

  /** A duplicate is what repeats. */
  lemma DuplicateRepeats(state: ActiveState, taken: seq<Sighting>, o: SecurityObservation, now: int)
    requires Holds(state, taken)
    ensures IsDuplicate(state, o, now) <==> Repeats(taken, o, now)
  {
    assert o.sourceId in state.sources <==> Latest(taken, o.sourceId).Some?;
    hide Latest, FirstText;
  }

  lemma TouchedHolds(state: ActiveState, taken: seq<Sighting>, o: SecurityObservation, now: int)
    requires Holds(state, taken)
    ensures Holds(Touched(state, o, now), taken + [Sighting(o, now)])
  {
    var s := Sighting(o, now);
    TextsSnoc(taken, s);
    FirstTextSnoc(Paths(taken), o.filePath);
    FirstTextSnoc(Hashes(taken), o.sha256);
    FirstTextSnoc(Evidence(taken), o.evidence);
    hide Latest, FirstText, Paths, Hashes, Evidence;
    forall id
      ensures var sources := Touched(state, o, now).sources;
              && (id in sources <==> Latest(taken + [s], id).Some?)
              && (id in sources ==> IsSource(sources[id], Latest(taken + [s], id).value))
    {
      LatestSnoc(taken, s, id);
    }
  }

  lemma FreshHolds()
    ensures Holds(FRESH_STATE, [])
  {}

  // ---- One step ----

  /** A new key pushes a key out of a full map, and this one is among the oldest. */
  ghost predicate MayEvict(kept: Active, a: Action, key: string) {
    && a.Ingest? && a.observation.Valid() && a.observation.CorrelationKey() !in kept
    && |kept| >= MAX_ACTIVE_KEYS && IsOldest(kept, key)
  }

  /** The action comes within the window of the last sighting, and pushes the key out in no case. */
  ghost predicate Undisturbed(window: int, s: Tracked, a: Action, key: string, taken: seq<Sighting>) {
    && taken != [] && a.now - taken[|taken| - 1].at <= window
    && !MayEvict(Unexpired(s.engine.active, a.now, window), a, key)
  }

  ghost predicate KeyHolds(s: Tracked, key: string, taken: seq<Sighting>) {
    key in s.engine.active && Holds(s.engine.active[key], taken)
  }

  lemma StaysActive(window: int, s: Tracked, a: Action, key: string, taken: seq<Sighting>)
    requires KeyHolds(s, key, taken) && Undisturbed(window, s, a, key, taken)
    ensures var kept := Unexpired(s.engine.active, a.now, window);
            key in kept && kept[key] == s.engine.active[key]
  {
    hide HoldsSources, FirstText, MayEvict;
  }

  /** What Reported leaves of the state it is about: touched, or as it was for a duplicate, but for what was last
      reported. */
  lemma ReportedHolds(s: Engine, room: Active, o: SecurityObservation, now: int, t: Engine, r: Option<SecurityFinding>,
                      state: ActiveState, taken: seq<Sighting>)
    requires Reported(s, room, o, now, t, r) && o.Valid()
    requires state == if o.CorrelationKey() in room then room[o.CorrelationKey()] else FRESH_STATE
    requires Holds(state, taken)
    ensures var key := o.CorrelationKey();
            && key in t.active && Holds(t.active[key], Take(taken, key, Ingest(o, now)))
            && forall k :: k != key ==> (k in t.active <==> k in room) && (k in room ==> t.active[k] == room[k])
  {
    DuplicateRepeats(state, taken, o, now);
    TouchedHolds(state, taken, o, now);
    hide Touched, IsDuplicate, ShouldReport, HoldsSources, Repeats, FirstText, Describes, Append, Paths, Hashes,
         Evidence, SecurityObservation.CorrelationKey;
  }

  lemma StepAccumulates(window: int, s: Tracked, a: Action, t: Tracked, r: Option<SecurityFinding>, key: string,
                        taken: seq<Sighting>)
    requires Step(window, s, a, t, r) && KeyHolds(s, key, taken) && Undisturbed(window, s, a, key, taken)
    ensures KeyHolds(t, key, Take(taken, key, a))
  {
    StaysActive(window, s, a, key, taken);
    var kept := Unexpired(s.engine.active, a.now, window);
    hide Holds, Repeats, Unexpired, PeriodsAfter;
    if a.Ingest? && a.observation.Valid() {
      var o := a.observation;
      var room :| MakesRoom(kept, o.CorrelationKey(), room) && Reported(s.engine, room, o, a.now, t.engine, r);
      hide SecurityObservation.CorrelationKey, Reported;
      assert key in room && room[key] == kept[key];
      var state := if o.CorrelationKey() in room then room[o.CorrelationKey()] else FRESH_STATE;
      if o.CorrelationKey() == key {
        ReportedHolds(s.engine, room, o, a.now, t.engine, r, state, taken);
      } else {
        OthersStay(s.engine, room, o, a.now, t.engine, r);
      }
    }
  }

  lemma OthersStay(s: Engine, room: Active, o: SecurityObservation, now: int, t: Engine, r: Option<SecurityFinding>)
    requires Reported(s, room, o, now, t, r)
    ensures forall k :: k != o.CorrelationKey() ==>
              (k in t.active <==> k in room) && (k in room ==> t.active[k] == room[k])
  {
    hide Touched, IsDuplicate, ShouldReport, Describes, Append, SecurityObservation.CorrelationKey;
  }

  lemma StartAccumulates(window: int, s: Tracked, a: Action, t: Tracked, r: Option<SecurityFinding>, key: string)
    requires Step(window, s, a, t, r) && IsAbout(a, key) && key !in Unexpired(s.engine.active, a.now, window)
    ensures KeyHolds(t, key, Take([], key, a))
  {
    var kept, o := Unexpired(s.engine.active, a.now, window), a.observation;
    FreshHolds();
    hide Holds, Repeats, Unexpired, PeriodsAfter;
    var room :| MakesRoom(kept, key, room) && Reported(s.engine, room, o, a.now, t.engine, r);
    hide SecurityObservation.CorrelationKey, Reported;
    assert key !in room;
    ReportedHolds(s.engine, room, o, a.now, t.engine, r, FRESH_STATE, []);
  }

  // ---- Runs ----

  /** Event a is an observation of a key that is not active, or whose time is up; from then on nothing disturbs it. */
  ghost predicate Gathers(window: int, run: seq<Event>, a: nat, key: string) {
    && a < |run| && IsAbout(run[a].action, key)
    && key !in Unexpired(Last(run[..a]).engine.active, run[a].action.now, window)
    && forall i :: a < i < |run| ==>
         Undisturbed(window, Last(run[..i]), run[i].action, key, TakenIn(key, run[a..i]))
  }

  lemma RunPrefix(window: int, run: seq<Event>)
    requires IsRun(window, run) && |run| > 0
    ensures var n := |run| - 1;
            IsRun(window, run[..n]) && Last(run) == run[n].after
            && Step(window, Last(run[..n]), run[n].action, run[n].after, run[n].result)
  {
    hide Step;
  }

  lemma GathersPrefix(window: int, run: seq<Event>, a: nat, key: string)
    requires Gathers(window, run, a, key) && a + 1 < |run|
    ensures var n := |run| - 1;
            Gathers(window, run[..n], a, key)
            && Undisturbed(window, Last(run[..n]), run[n].action, key, TakenIn(key, run[a..n]))
  {
    hide Undisturbed, TakenIn, IsAbout, Unexpired, Last;
    var n := |run| - 1;
    var before := run[..n];
    assert before[..a] == run[..a];
    forall i | a < i < n
      ensures Undisturbed(window, Last(before[..i]), before[i].action, key, TakenIn(key, before[a..i]))
    {
      assert before[..i] == run[..i] && before[a..i] == run[a..i];
    }
  }

  lemma TakenSnoc(key: string, run: seq<Event>, a: nat)
    requires a < |run|
    ensures var n := |run| - 1; TakenIn(key, run[a..]) == Take(TakenIn(key, run[a..n]), key, run[n].action)
  {
    assert run[a..][..|run| - 1 - a] == run[a..|run| - 1];
    hide Take;
  }

  /** From then on the key is active, and its state holds exactly the sources taken in since, each as it was last
      seen, and the first path, hash and evidence of them that is not empty. */
  lemma {:induction false} SourcesAccumulate(window: int, run: seq<Event>, a: nat, key: string)
    requires IsRun(window, run) && Gathers(window, run, a, key)
    ensures KeyHolds(Last(run), key, TakenIn(key, run[a..]))
  {
    var n := |run| - 1;
    RunPrefix(window, run);
    TakenSnoc(key, run, a);
    hide IsRun, KeyHolds, Step, Take, TakenIn, Undisturbed, Unexpired, IsAbout, Last;
    if a == n {
      assert run[a..n] == [] && run[..a] == run[..n];
      NothingTaken(key);
      StartAccumulates(window, Last(run[..n]), run[n].action, run[n].after, run[n].result, key);
    } else {
      GathersPrefix(window, run, a, key);
      SourcesAccumulate(window, run[..n], a, key);
      assert run[..n][a..] == run[a..n];
      StepAccumulates(window, Last(run[..n]), run[n].action, run[n].after, run[n].result, key, TakenIn(key, run[a..n]));
    }
  }

  lemma NothingTaken(key: string)
    ensures TakenIn(key, []) == []
  {}

  // ---- What a finding says of them ----

  /** All sources taken in, in order, once each. */
  ghost predicate IsListOf(ids: seq<string>, taken: seq<Sighting>) {
    InOrder(ids) && forall id :: id in ids <==> Latest(taken, id).Some?
  }

  /** Half the confidence in percent, rounded half up, of each source as it was last seen. */
  function PointsOf(taken: seq<Sighting>, ids: seq<string>): int {
    if |ids| == 0 then 0
    else
      var last := Latest(taken, ids[0]);
      (if last.Some? then (last.value.observation.confidence * 50.0 + 0.5).Floor else 0) + PointsOf(taken, ids[1..])
  }

  /** With twenty more for two or more sources, and a hundred at most. */
  function ScoreOf(taken: seq<Sighting>, ids: seq<string>): int {
    Min(100, PointsOf(taken, ids) + if |ids| >= 2 then 20 else 0)
  }

  lemma {:induction false} TotalIsPoints(sources: map<string, SourceState>, taken: seq<Sighting>, ids: seq<string>)
    requires InOrder(ids) && forall id :: id in ids <==> id in sources
    requires forall id :: id in sources ==> Latest(taken, id).Some? && IsSource(sources[id], Latest(taken, id).value)
    ensures Total(sources) == PointsOf(taken, ids) && |sources| == |ids|
    decreases |ids|
  {
    if |ids| > 0 {
      var id := ids[0];
      assert id in sources;
      TotalWithout(sources, id);
      Smaller(sources, id);
      RestIs(ids);
      hide Before, InOrder, Latest;
      TotalIsPoints(sources - {id}, taken, ids[1..]);
    } else {
      assert forall id :: id !in sources;
      assert sources == map[];
    }
  }

  lemma ScoreIsSum(sources: map<string, SourceState>, taken: seq<Sighting>, ids: seq<string>)
    requires HoldsSources(sources, taken) && IsListOf(ids, taken)
    ensures Score(sources) == ScoreOf(taken, ids)
  {
    hide InOrder, Latest, Total;
    TotalIsPoints(sources, taken, ids);
  }

  ghost predicate AnyDeterministic(taken: seq<Sighting>) {
    exists id :: Latest(taken, id).Some? && Latest(taken, id).value.observation.deterministic
  }

  lemma DeterministicIs(sources: map<string, SourceState>, taken: seq<Sighting>)
    requires HoldsSources(sources, taken)
    ensures SomeDeterministic(sources) <==> AnyDeterministic(taken)
  {
    hide Latest;
    if SomeDeterministic(sources) {
      var id :| id in sources && sources[id].deterministic;
      assert Latest(taken, id).Some? && Latest(taken, id).value.observation.deterministic;
    }
    if AnyDeterministic(taken) {
      var id :| Latest(taken, id).Some? && Latest(taken, id).value.observation.deterministic;
      assert id in sources;
    }
  }

  /** A finding counts and lists what was taken in. */
  ghost predicate Tells(f: SecurityFinding, key: string, now: int, taken: seq<Sighting>) {
    && f.correlationKey == key && f.timestamp == now
    && IsListOf(f.contributingSources, taken) && f.riskScore == ScoreOf(taken, f.contributingSources)
    && (f.deterministicSignature <==> AnyDeterministic(taken))
    && f.filePath == FirstText(Paths(taken)) && f.sha256 == FirstText(Hashes(taken))
    && f.rationale == FirstText(Evidence(taken))
    && f.level == (if f.riskScore >= 90 then Critical else if f.riskScore >= 75 then High
                   else if f.riskScore >= 50 then Medium else if f.riskScore >= 25 then Low else Safe)
  }

  lemma DescribesTells(f: SecurityFinding, id: nat, key: string, state: ActiveState, now: int, taken: seq<Sighting>)
    requires Describes(f, id, key, state, now) && Holds(state, taken)
    ensures Tells(f, key, now, taken)
  {
    hide InOrder, Latest, FirstText, Paths, Hashes, Evidence, Score, SomeDeterministic, AnyDeterministic;
    assert IsListOf(f.contributingSources, taken);
    ScoreIsSum(state.sources, taken, f.contributingSources);
    DeterministicIs(state.sources, taken);
  }

  lemma ReportedTells(s: Engine, room: Active, o: SecurityObservation, now: int, t: Engine, r: Option<SecurityFinding>,
                      state: ActiveState, taken: seq<Sighting>)
    requires Reported(s, room, o, now, t, r) && o.Valid()
    requires state == if o.CorrelationKey() in room then room[o.CorrelationKey()] else FRESH_STATE
    requires Holds(state, taken)
    ensures var more := Take(taken, o.CorrelationKey(), Ingest(o, now));
            && (r.Some? ==> more == taken + [Sighting(o, now)] && Tells(r.value, o.CorrelationKey(), now, more))
            && (r.Some? <==> !Repeats(taken, o, now) && ShouldReport(Touched(state, o, now)))
  {
    DuplicateRepeats(state, taken, o, now);
    TouchedHolds(state, taken, o, now);
    hide Touched, IsDuplicate, ShouldReport, Holds, Repeats, Describes, Append, SecurityObservation.CorrelationKey,
         Tells;
    if r.Some? {
      DescribesTells(r.value, s.nextFindingId, o.CorrelationKey(), Touched(state, o, now), now,
                     taken + [Sighting(o, now)]);
    }
  }

  /** The score of the last finding, or 0. */
  function LastScore(period: seq<SecurityFinding>): int {
    if period == [] then 0 else period[|period| - 1].riskScore
  }

  lemma ReportsWhenHigher(state: ActiveState, o: SecurityObservation, now: int, period: seq<SecurityFinding>,
                          taken: seq<Sighting>, ids: seq<string>)
    requires Remembers(state, period) && Holds(state, taken) && IsListOf(ids, taken + [Sighting(o, now)])
    ensures ShouldReport(Touched(state, o, now))
            <==> ScoreOf(taken + [Sighting(o, now)], ids) > LastScore(period)
  {
    var touched := Touched(state, o, now);
    TouchedHolds(state, taken, o, now);
    assert touched.lastReportedScore == LastScore(period) && touched.lastReportedLevel == LevelFor(LastScore(period));
    hide Touched, Remembers, IsListOf, InOrder, Latest, FirstText, Score, HoldsSources, LevelFor;
    ScoreIsSum(touched.sources, taken + [Sighting(o, now)], ids);
    var score := Score(touched.sources);
    if score <= LastScore(period) { LevelsRise(score, LastScore(period)); }
  }

  /** The key is active with what was taken in, or starts afresh. */
  ghost predicate Ready(window: int, s: Tracked, a: Action, key: string, taken: seq<Sighting>) {
    || (KeyHolds(s, key, taken) && Undisturbed(window, s, a, key, taken))
    || (taken == [] && key !in Unexpired(s.engine.active, a.now, window))
  }

  /** The findings of a key since it last became active. */
  function PeriodBefore(window: int, s: Tracked, now: int, key: string): seq<SecurityFinding> {
    if key in Unexpired(s.engine.active, now, window) && key in s.history.periods then s.history.periods[key] else []
  }

  lemma StateBefore(window: int, s: Tracked, a: Action, key: string, taken: seq<Sighting>, room: Active)
    returns (state: ActiveState)
    requires Invariant(s) && Ready(window, s, a, key, taken)
    requires MakesRoom(Unexpired(s.engine.active, a.now, window), key, room)
    ensures state == if key in room then room[key] else FRESH_STATE
    ensures Holds(state, taken) && Remembers(state, PeriodBefore(window, s, a.now, key))
  {
    var kept := Unexpired(s.engine.active, a.now, window);
    state := if key in room then room[key] else FRESH_STATE;
    FreshHolds();
    hide Holds, Rising, SourcesSeen, AllGrounded, Numbered, Limits;
    if KeyHolds(s, key, taken) && Undisturbed(window, s, a, key, taken) {
      StaysActive(window, s, a, key, taken);
      assert KeyOk(key, s.engine.active[key], s.history.periods[key], s.history.seen);
    } else {
      assert key !in room;
      assert Remembers(FRESH_STATE, []);
    }
  }

  lemma StepTells(window: int, s: Tracked, a: Action, t: Tracked, r: Option<SecurityFinding>, key: string,
                  taken: seq<Sighting>)
    requires Step(window, s, a, t, r) && IsAbout(a, key) && Invariant(s) && Ready(window, s, a, key, taken)
    ensures var more := Take(taken, key, a);
            && (r.Some? ==> Tells(r.value, key, a.now, more))
            && forall ids :: IsListOf(ids, more) ==>
                 (r.Some? <==> more != taken && ScoreOf(more, ids) > LastScore(PeriodBefore(window, s, a.now, key)))
  {
    var o := a.observation;
    hide Invariant, Ready, Unexpired, PeriodsAfter, PeriodBefore, Tells, IsListOf, Repeats;
    var room :| MakesRoom(Unexpired(s.engine.active, a.now, window), key, room)
                && Reported(s.engine, room, o, a.now, t.engine, r);
    var state := StateBefore(window, s, a, key, taken, room);
    hide Reported, MakesRoom, SecurityObservation.CorrelationKey, ShouldReport, Touched, Holds, Remembers, ScoreOf;
    ReportedTells(s.engine, room, o, a.now, t.engine, r, state, taken);
    assert taken + [Sighting(o, a.now)] != taken;
    forall ids | IsListOf(ids, Take(taken, key, a))
      ensures r.Some? <==> Take(taken, key, a) != taken
                           && ScoreOf(Take(taken, key, a), ids) > LastScore(PeriodBefore(window, s, a.now, key))
    {
      if !Repeats(taken, o, a.now) {
        ReportsWhenHigher(state, o, a.now, PeriodBefore(window, s, a.now, key), taken, ids);
      }
    }
  }

  /** At every observation of a key while it gathers: a finding goes out exactly when the observation counts and the
      score of all that was taken in beats the last finding; and a finding counts and lists exactly that. */
  lemma FindingsTell(window: int, run: seq<Event>, a: nat, key: string)
    requires IsRun(window, run) && Gathers(window, run, a, key) && IsAbout(run[|run| - 1].action, key)
    ensures var n := |run| - 1;
            var e, before, taken := run[n], TakenIn(key, run[a..n]), TakenIn(key, run[a..]);
            && (e.result.Some? ==> Tells(e.result.value, key, e.action.now, taken))
            && forall ids :: IsListOf(ids, taken) ==>
                 (e.result.Some? <==>
                    taken != before
                    && ScoreOf(taken, ids) > LastScore(PeriodBefore(window, Last(run[..n]), e.action.now, key)))
  {
    var n := |run| - 1;
    RunPrefix(window, run);
    TakenSnoc(key, run, a);
    hide Step, Take, TakenIn, Undisturbed, Unexpired, IsAbout, Last, Tells, IsListOf, ScoreOf, KeyHolds, PeriodBefore,
         IsRun, Invariant, LastScore;
    RunKeepsInvariant(window, run[..n]);
    if a == n {
      assert run[a..n] == [] && run[..a] == run[..n];
      NothingTaken(key);
    } else {
      GathersPrefix(window, run, a, key);
      SourcesAccumulate(window, run[..n], a, key);
      assert run[..n][a..] == run[a..n];
    }
    hide Gathers;
    StepTells(window, Last(run[..n]), run[n].action, run[n].after, run[n].result, key, TakenIn(key, run[a..n]));
  }

  // ---- Two sources ----

  function HalfPercent(o: SecurityObservation): int {
    (o.confidence * 50.0 + 0.5).Floor
  }

  lemma OneTaken(key: string, a: Action)
    requires IsAbout(a, key)
    ensures Take([], key, a) == [Sighting(a.observation, a.now)]
    ensures var id := a.observation.sourceId;
            IsListOf([id], Take([], key, a)) && ScoreOf(Take([], key, a), [id]) == HalfPercent(a.observation)
  {
    var s := Sighting(a.observation, a.now);
    assert [] + [s] == [s];
    forall id ensures Latest([s], id) == if s.observation.sourceId == id then Some(s) else None {
      assert [s] == [] + [s];
      LatestSnoc([], s, id);
    }
    assert [a.observation.sourceId][1..] == [];
    HalfPercentBounds(a.observation);
    hide Latest, HalfPercent;
    assert PointsOf([s], [a.observation.sourceId]) == HalfPercent(a.observation) by { OnePoint([s], s, []); }
  }

  lemma HalfPercentBounds(o: SecurityObservation)
    requires o.Valid()
    ensures 0 <= HalfPercent(o) <= 50
  {
    assert 0.0 <= o.confidence * 50.0 <= 50.0;
  }

  lemma OnePoint(taken: seq<Sighting>, s: Sighting, rest: seq<string>)
    requires Latest(taken, s.observation.sourceId) == Some(s)
    ensures PointsOf(taken, [s.observation.sourceId] + rest) == HalfPercent(s.observation) + PointsOf(taken, rest)
  {
    assert ([s.observation.sourceId] + rest)[1..] == rest;
  }

  /** Who was seen last, after two sightings by different sources. */
  lemma LatestOfTwo(s: Sighting, t: Sighting)
    requires s.observation.sourceId != t.observation.sourceId
    ensures forall id :: Latest([s, t], id) ==
              if id == t.observation.sourceId then Some(t) else if id == s.observation.sourceId then Some(s) else None
  {
    assert [s, t] == [s] + [t] && [s] == [] + [s];
    forall id
      ensures Latest([s, t], id) ==
              if id == t.observation.sourceId then Some(t) else if id == s.observation.sourceId then Some(s) else None
    {
      LatestSnoc([], s, id);
      LatestSnoc([s], t, id);
    }
  }

  lemma PointsOfTwo(taken: seq<Sighting>, first: Sighting, second: Sighting)
    requires Latest(taken, first.observation.sourceId) == Some(first)
    requires Latest(taken, second.observation.sourceId) == Some(second)
    ensures PointsOf(taken, [first.observation.sourceId, second.observation.sourceId])
            == HalfPercent(first.observation) + HalfPercent(second.observation)
  {
    var x, y := first.observation.sourceId, second.observation.sourceId;
    hide Latest, HalfPercent, PointsOf;
    OnePoint(taken, first, [y]);
    OnePoint(taken, second, []);
    NoPoints(taken);
    assert [x] + [y] == [x, y] && [y] + [] == [y];
  }

  lemma TwoTaken(key: string, a: Action, b: Action, ids: seq<string>)
    requires IsAbout(a, key) && IsAbout(b, key) && a.observation.sourceId != b.observation.sourceId
    requires var x, y := a.observation.sourceId, b.observation.sourceId; ids == if Before(x, y) then [x, y] else [y, x]
    ensures var taken := Take(Take([], key, a), key, b);
            && taken == [Sighting(a.observation, a.now), Sighting(b.observation, b.now)]
            && IsListOf(ids, taken)
            && ScoreOf(taken, ids) == Min(100, HalfPercent(a.observation) + HalfPercent(b.observation) + 20)
            && (AnyDeterministic(taken) <==> a.observation.deterministic || b.observation.deterministic)
  {
    var s, t := Sighting(a.observation, a.now), Sighting(b.observation, b.now);
    var x, y, taken := s.observation.sourceId, t.observation.sourceId, [s, t];
    OneTaken(key, a);
    LatestOne(s);
    assert [s, t] == [s] + [t];
    assert Take([s], key, b) == taken;
    LatestOfTwo(s, t);
    BeforeIsTotal(x, y);
    assert Latest(taken, x) == Some(s) && Latest(taken, y) == Some(t);
    hide Before, Latest, HalfPercent, Take, IsAbout, PointsOf;
    if ids == [x, y] { PointsOfTwo(taken, s, t); } else { PointsOfTwo(taken, t, s); }
  }

  lemma LatestOne(s: Sighting)
    ensures forall id :: Latest([s], id) == if id == s.observation.sourceId then Some(s) else None
  {
    assert [s] == [] + [s];
    forall id ensures Latest([s], id) == if id == s.observation.sourceId then Some(s) else None {
      LatestSnoc([], s, id);
    }
  }

  lemma NoPoints(taken: seq<Sighting>)
    ensures PointsOf(taken, []) == 0
  {}

  /** Two observations of one key by different sources, the first of which finds the key inactive, while the second
      comes within the window. */
  ghost predicate TwoSources(window: int, run: seq<Event>, key: string) {
    |run| >= 2
    && var a, b := run[|run| - 2].action, run[|run| - 1].action;
    && IsAbout(a, key) && IsAbout(b, key) && a.observation.sourceId != b.observation.sourceId
    && key !in Unexpired(Last(run[..|run| - 2]).engine.active, a.now, window) && b.now - a.now <= window
  }

  lemma FirstPeriod(window: int, s: Tracked, a: Action, t: Tracked, r: Option<SecurityFinding>, key: string)
    requires Step(window, s, a, t, r) && IsAbout(a, key) && key !in Unexpired(s.engine.active, a.now, window)
    requires r.Some? ==> r.value.correlationKey == key
    ensures key in t.history.periods ==> t.history.periods[key] == Optional(r)
  {
    hide Unexpired, Ingested, SecurityObservation.CorrelationKey;
    assert [] + Optional(r) == Optional(r);
  }

  lemma SecondUndisturbed(window: int, t: Tracked, a: Action, b: Action, key: string)
    requires a.Ingest? && IsAbout(b, key) && b.now - a.now <= window
    requires KeyHolds(t, key, [Sighting(a.observation, a.now)])
    ensures Undisturbed(window, t, b, key, [Sighting(a.observation, a.now)])
  {
    hide HoldsSources, FirstText, SecurityObservation.CorrelationKey;
  }

  lemma ListIsUnique(ids: seq<string>, others: seq<string>, taken: seq<Sighting>)
    requires IsListOf(ids, taken) && IsListOf(others, taken)
    ensures ids == others
  {
    hide InOrder, Latest;
    OrderIsUnique(ids, others);
  }

  /** What the first of the two leaves. */
  lemma FirstSource(window: int, run: seq<Event>, key: string)
    requires IsRun(window, run) && |run| > 0
    requires var n := |run| - 1;
             IsAbout(run[n].action, key) && key !in Unexpired(Last(run[..n]).engine.active, run[n].action.now, window)
    ensures var n := |run| - 1;
            var o, now := run[n].action.observation, run[n].action.now;
            && Gathers(window, run, n, key) && TakenIn(key, run[n..]) == [Sighting(o, now)]
            && KeyHolds(Last(run), key, [Sighting(o, now)])
            && (key in Last(run).history.periods ==> LastScore(Last(run).history.periods[key]) <= HalfPercent(o))
  {
    var n := |run| - 1;
    var a := run[n].action;
    RunPrefix(window, run);
    TakenSnoc(key, run, n);
    NothingTaken(key);
    OneTaken(key, a);
    HalfPercentBounds(a.observation);
    assert run[n..n] == [];
    assert Gathers(window, run, n, key);
    hide IsRun, Take, TakenIn, Latest, IsListOf, ScoreOf, HalfPercent, KeyHolds, Holds, Step, Unexpired, IsAbout,
         Gathers;
    SourcesAccumulate(window, run, n, key);
    FindingsTell(window, run, n, key);
    FirstPeriod(window, Last(run[..n]), a, Last(run), run[n].result, key);
    if run[n].result.Some? {
      ListIsUnique(run[n].result.value.contributingSources, [a.observation.sourceId], TakenIn(key, run[n..]));
    }
  }

  lemma TwoGather(window: int, run: seq<Event>, key: string)
    requires IsRun(window, run) && TwoSources(window, run, key)
    requires var n := |run| - 1;
             && TakenIn(key, run[..n][n - 1..]) == [Sighting(run[n - 1].action.observation, run[n - 1].action.now)]
             && Undisturbed(window, Last(run[..n]), run[n].action, key, TakenIn(key, run[..n][n - 1..]))
    ensures var n := |run| - 1;
            && Gathers(window, run, n - 1, key)
            && TakenIn(key, run[n - 1..n]) == [Sighting(run[n - 1].action.observation, run[n - 1].action.now)]
            && TakenIn(key, run[n - 1..]) == Take(TakenIn(key, run[n - 1..n]), key, run[n].action)
  {
    var n := |run| - 1;
    assert run[..n][n - 1..] == run[n - 1..n];
    TakenSnoc(key, run, n - 1);
    hide IsRun, Take, TakenIn, Undisturbed, Unexpired, IsAbout, Last;
  }

  lemma SmallPeriod(window: int, t: Tracked, now: int, key: string, most: nat)
    requires key in t.history.periods ==> LastScore(t.history.periods[key]) <= most
    ensures LastScore(PeriodBefore(window, t, now, key)) <= most
  {
    hide Unexpired;
  }

  lemma FirstOfTwo(window: int, run: seq<Event>, key: string)
    requires IsRun(window, run) && TwoSources(window, run, key)
    ensures var n := |run| - 1;
            var first := [Sighting(run[n - 1].action.observation, run[n - 1].action.now)];
            && Gathers(window, run, n - 1, key)
            && TakenIn(key, run[n - 1..n]) == first && TakenIn(key, run[n - 1..]) == Take(first, key, run[n].action)
            && LastScore(PeriodBefore(window, Last(run[..n]), run[n].action.now, key))
               <= HalfPercent(run[n - 1].action.observation)
  {
    var n := |run| - 1;
    var before, a, b := run[..n], run[n - 1].action, run[n].action;
    RunPrefix(window, run);
    assert before[..n - 1] == run[..n - 1] && before[n - 1] == run[n - 1];
    HalfPercentBounds(a.observation);
    hide Step, IsRun, Unexpired, Latest, KeyHolds, Gathers, TakenIn, Take, IsAbout, Undisturbed, PeriodBefore, Last,
         HalfPercent;
    FirstSource(window, before, key);
    SecondUndisturbed(window, Last(before), a, b, key);
    TwoGather(window, run, key);
    SmallPeriod(window, Last(before), b.now, key, HalfPercent(a.observation));
  }

  /** What a finding says of two sources. */
  lemma TellsOfTwo(f: SecurityFinding, key: string, a: Action, b: Action, ids: seq<string>, taken: seq<Sighting>)
    requires IsAbout(a, key) && IsAbout(b, key) && a.observation.sourceId != b.observation.sourceId
    requires var x, y := a.observation.sourceId, b.observation.sourceId; ids == if Before(x, y) then [x, y] else [y, x]
    requires taken == Take(Take([], key, a), key, b) && Tells(f, key, b.now, taken)
    ensures f.correlationKey == key && f.contributingSources == ids
    ensures f.riskScore == Min(100, HalfPercent(a.observation) + HalfPercent(b.observation) + 20)
    ensures f.level == Critical <==> HalfPercent(a.observation) + HalfPercent(b.observation) >= 70
    ensures f.deterministicSignature <==> a.observation.deterministic || b.observation.deterministic
  {
    TwoTaken(key, a, b, ids);
    hide Before, HalfPercent, IsListOf, ScoreOf, Take, AnyDeterministic, FirstText, IsAbout;
    ListIsUnique(f.contributingSources, ids, taken);
  }

  lemma SecondBeats(key: string, a: Action, b: Action, ids: seq<string>)
    requires IsAbout(a, key) && IsAbout(b, key) && a.observation.sourceId != b.observation.sourceId
    requires var x, y := a.observation.sourceId, b.observation.sourceId; ids == if Before(x, y) then [x, y] else [y, x]
    ensures var taken := Take([Sighting(a.observation, a.now)], key, b);
            IsListOf(ids, taken) && taken != [Sighting(a.observation, a.now)]
            && ScoreOf(taken, ids) > HalfPercent(a.observation)
  {
    OneTaken(key, a);
    TwoTaken(key, a, b, ids);
    HalfPercentBounds(a.observation);
    HalfPercentBounds(b.observation);
    hide Before, HalfPercent, IsListOf, ScoreOf, Take, AnyDeterministic, IsAbout;
  }

  lemma SecondFinds(window: int, run: seq<Event>, key: string, ids: seq<string>)
    requires IsRun(window, run) && TwoSources(window, run, key)
    requires var x, y := run[|run| - 2].action.observation.sourceId, run[|run| - 1].action.observation.sourceId;
             ids == if Before(x, y) then [x, y] else [y, x]
    ensures var n := |run| - 1;
            var taken := Take(Take([], key, run[n - 1].action), key, run[n].action);
            run[n].result.Some? && Tells(run[n].result.value, key, run[n].action.now, taken)
  {
    var n := |run| - 1;
    var a, b := run[n - 1].action, run[n].action;
    assert IsAbout(a, key) && IsAbout(b, key) && a.observation.sourceId != b.observation.sourceId;
    hide Before, HalfPercent, Step, IsRun, Unexpired, Latest, Gathers, IsListOf, ScoreOf, TakenIn, Tells, Take,
         AnyDeterministic, IsAbout, PeriodBefore, Last, LastScore, TwoSources;
    FirstOfTwo(window, run, key);
    FindingsTell(window, run, n - 1, key);
    OneTaken(key, a);
    SecondBeats(key, a, b, ids);
  }

  /** The second observation brings a finding that lists both sources and scores what they have together, so that two
      sources make CRITICAL exactly when they bring seventy points. */
  lemma TwoSourcesCorrelate(window: int, run: seq<Event>, key: string)
    requires IsRun(window, run) && TwoSources(window, run, key)
    ensures var n := |run| - 1;
            var o, p, r := run[n - 1].action.observation, run[n].action.observation, run[n].result;
            && r.Some? && r.value.correlationKey == key
            && r.value.contributingSources == (if Before(o.sourceId, p.sourceId) then [o.sourceId, p.sourceId]
                                               else [p.sourceId, o.sourceId])
            && r.value.riskScore == Min(100, HalfPercent(o) + HalfPercent(p) + 20)
            && (r.value.level == Critical <==> HalfPercent(o) + HalfPercent(p) >= 70)
            && (r.value.deterministicSignature <==> o.deterministic || p.deterministic)
  {
    var n := |run| - 1;
    var a, b := run[n - 1].action, run[n].action;
    var x, y := a.observation.sourceId, b.observation.sourceId;
    var ids := if Before(x, y) then [x, y] else [y, x];
    hide Before, HalfPercent, IsRun, Unexpired, Tells, Take, IsAbout, Last;
    SecondFinds(window, run, key, ids);
    TellsOfTwo(run[n].result.value, key, a, b, ids, Take(Take([], key, a), key, b));
  }

  // ---- Forgetting ----

  /** Once an action comes more than the window after the last sighting, nothing is left of what was taken in: the key
      is not active, or it is with that one new observation only. */
  lemma OldEvidenceIsForgotten(window: int, s: Tracked, a: Action, t: Tracked, r: Option<SecurityFinding>, key: string,
                               taken: seq<Sighting>)
    requires Step(window, s, a, t, r) && KeyHolds(s, key, taken) && taken != []
    requires window >= 0 && a.now - taken[|taken| - 1].at > window && (a.Ingest? ==> a.observation.Valid())
    ensures if IsAbout(a, key) then KeyHolds(t, key, [Sighting(a.observation, a.now)]) else key !in t.engine.active
  {
    var kept := Unexpired(s.engine.active, a.now, window);
    assert key !in kept by { hide HoldsSources, FirstText; }
    if IsAbout(a, key) {
      hide Step, Holds, Unexpired;
      StartAccumulates(window, s, a, t, r, key);
      OneTaken(key, a);
    } else if a.Ingest? {
      var o := a.observation;
      hide Holds, Unexpired, PeriodsAfter;
      var room :| MakesRoom(kept, o.CorrelationKey(), room) && Reported(s.engine, room, o, a.now, t.engine, r);
      hide Reported, SecurityObservation.CorrelationKey;
      OthersStay(s.engine, room, o, a.now, t.engine, r);
      assert key !in room;
    }
  }
}
