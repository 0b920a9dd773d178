/** Correlating observations into findings (src/security/correlation_engine.cpp). */
module Correlation {
  import opened Common
  import opened Observation
  import opened Policy
  import opened Names

  const MAX_ACTIVE_KEYS: nat := 4096
  const MAX_FINDINGS: nat := 2000
  const DUPLICATE_WINDOW: nat := 30 * TICKS_PER_SECOND

  datatype SourceState = SourceState(confidence: real, suggestedLevel: ThreatLevel, deterministic: bool, lastSeen: int)

  datatype ActiveState = ActiveState(
    lastSeen: int,
    sources: map<string, SourceState>,
    filePath: string,
    sha256: string,
    rationale: string,
    lastReportedScore: int,
    lastReportedLevel: ThreatLevel)

  const FRESH_STATE: ActiveState := ActiveState(0, map[], "", "", "", 0, Safe)

  type Active = map<string, ActiveState>

  // ---- Scores ----

  /** std::lround(confidence * 50.0), for confidences that are not negative. */
  function Points(source: SourceState): int {
    (source.confidence * 50.0 + 0.5).Floor
  }

  ghost function Total(sources: map<string, SourceState>): int
    decreases |sources|
  {
    if sources == map[] then 0
    else
      var id :| id in sources;
      assert |sources - {id}| < |sources| by { Smaller(sources, id); }
      Points(sources[id]) + Total(sources - {id})
  }

  lemma Smaller<V>(m: map<string, V>, k: string)
    requires k in m
    ensures |m - {k}| == |m| - 1
  {
    assert (m - {k}).Keys == m.Keys - {k};
    assert |m| == |m.Keys| && |m - {k}| == |(m - {k}).Keys|;
  }

  /** The sum does not depend on the order the hash map is walked in. */
  lemma {:induction false} TotalWithout(sources: map<string, SourceState>, id: string)
    requires id in sources
    ensures Total(sources) == Points(sources[id]) + Total(sources - {id})
    decreases |sources|
  {
    var first :| first in sources && Total(sources) == Points(sources[first]) + Total(sources - {first});
    if first != id {
      Smaller(sources, first);
      Smaller(sources, id);
      TotalWithout(sources - {first}, id);
      TotalWithout(sources - {id}, first);
      assert sources - {first} - {id} == sources - {id} - {first};
    }
  }

  ghost function Score(sources: map<string, SourceState>): int {
    Min(Total(sources) + if |sources| >= 2 then 20 else 0, 100)
  }

  ghost predicate Confident(sources: map<string, SourceState>) {
    forall id :: id in sources ==> 0.0 <= sources[id].confidence <= 1.0
  }

  lemma {:induction false} TotalBounds(sources: map<string, SourceState>)
    requires Confident(sources)
    ensures 0 <= Total(sources) <= 50 * |sources|
    decreases |sources|
  {
    if sources != map[] {
      var id :| id in sources;
      TotalWithout(sources, id);
      Smaller(sources, id);
      TotalBounds(sources - {id});
      assert 0 <= Points(sources[id]) <= 50;
    }
  }

  function LevelFor(score: int): ThreatLevel {
    if score >= 90 then Critical
    else if score >= 75 then High
    else if score >= 50 then Medium
    else if score >= 25 then Low
    else Safe
  }

  /** One source alone never reaches CRITICAL, whatever its confidence. */
  lemma CriticalNeedsTwoSources(sources: map<string, SourceState>)
    requires Confident(sources) && LevelFor(Score(sources)) == Critical
    ensures |sources| >= 2
  {
    TotalBounds(sources);
  }

  ghost predicate SomeDeterministic(sources: map<string, SourceState>) {
    exists id :: id in sources && sources[id].deterministic
  }

  /** score_for */
  method ScoreFor(sources: map<string, SourceState>) returns (score: int)
    ensures score == Score(sources)
  {
    score := 0;
    var rest := sources;
    while rest != map[]
      invariant score + Total(rest) == Total(sources)
      decreases |rest|
    {
      var id :| id in rest;
      TotalWithout(rest, id);
      Smaller(rest, id);
      score := score + Points(rest[id]);
      rest := rest - {id};
    }
    if |sources| >= 2 { score := score + 20; }
    score := Min(score, 100);
  }

  method AnySourceDeterministic(sources: map<string, SourceState>) returns (r: bool)
    ensures r <==> SomeDeterministic(sources)
  {
    var rest := sources.Keys;
    while rest != {}
      invariant rest <= sources.Keys
      invariant forall id :: id in sources && id !in rest ==> !sources[id].deterministic
      decreases |rest|
    {
      var id :| id in rest;
      if sources[id].deterministic { return true; }
      rest := rest - {id};
    }
    return false;
  }

  // ---- One ingest ----

  datatype Engine = Engine(active: Active, findings: seq<SecurityFinding>, nextFindingId: nat)

  predicate HasExpired(state: ActiveState, now: int, window: int) {
    now >= state.lastSeen && now - state.lastSeen > window
  }

  function Unexpired(active: Active, now: int, window: int): Active {
    map key | key in active && !HasExpired(active[key], now, window) :: active[key]
  }

  predicate IsOldest(active: Active, key: string) {
    key in active && forall other :: other in active ==> active[key].lastSeen <= active[other].lastSeen
  }

  /** A full map loses one of its oldest keys; the hash order decides between equally old ones. */
  ghost predicate EvictedOldest(active: Active, rest: Active) {
    if |active| < MAX_ACTIVE_KEYS then rest == active
    else exists key :: IsOldest(active, key) && rest == active - {key}
  }

  predicate IsDuplicate(state: ActiveState, o: SecurityObservation, now: int) {
    o.sourceId in state.sources && 0 <= now - state.sources[o.sourceId].lastSeen < DUPLICATE_WINDOW
  }

  /** What an observation leaves in its key's state, before the state is scored. */
  function Touched(state: ActiveState, o: SecurityObservation, now: int): ActiveState {
    state.(lastSeen := now,
           sources := state.sources[o.sourceId := SourceState(o.confidence, o.suggestedLevel, o.deterministic, now)],
           filePath := if state.filePath == "" then o.filePath else state.filePath,
           sha256 := if state.sha256 == "" then o.sha256 else state.sha256,
           rationale := if state.rationale == "" then o.evidence else state.rationale)
  }

  ghost predicate ShouldReport(state: ActiveState) {
    var score := Score(state.sources);
    score > state.lastReportedScore || LevelFor(score).Rank() > state.lastReportedLevel.Rank()
  }

  /** The names in order, once each. */
  ghost predicate Lists(names: seq<string>, sources: map<string, SourceState>) {
    InOrder(names) && forall id :: id in names <==> id in sources
  }

  /** That leaves no choice, whatever order the hash map is walked in. */
  lemma ListsIsUnique(a: seq<string>, b: seq<string>, sources: map<string, SourceState>)
    requires Lists(a, sources) && Lists(b, sources)
    ensures a == b
  {
    hide InOrder;
    OrderIsUnique(a, b);
  }

  ghost predicate Describes(f: SecurityFinding, id: nat, key: string, state: ActiveState, now: int) {
    && f.id == id && f.timestamp == now && f.correlationKey == key
    && f.riskScore == Score(state.sources) && f.level == LevelFor(Score(state.sources))
    && f.deterministicSignature == SomeDeterministic(state.sources)
    && f.filePath == state.filePath && f.sha256 == state.sha256 && f.rationale == state.rationale
    && Lists(f.contributingSources, state.sources)
  }

  function Append(findings: seq<SecurityFinding>, f: SecurityFinding): seq<SecurityFinding> {
    if |findings| + 1 > MAX_FINDINGS then (findings + [f])[1..] else findings + [f]
  }

  /** A finding goes out, and the key remembers its score and level. */
  ghost predicate Emitted(s: Engine, room: Active, key: string, state: ActiveState, now: int,
                          t: Engine, f: SecurityFinding) {
    && Describes(f, s.nextFindingId, key, state, now)
    && t == Engine(room[key := state.(lastReportedScore := f.riskScore, lastReportedLevel := f.level)],
                   Append(s.findings, f), s.nextFindingId + 1)
  }

  /** The part of ingest that works on the key's own state. `room` is the map after expiry and eviction. */
  ghost predicate Reported(s: Engine, room: Active, o: SecurityObservation, now: int,
                           t: Engine, r: Option<SecurityFinding>) {
    var key := o.CorrelationKey();
    var state := if key in room then room[key] else FRESH_STATE;
    var touched := Touched(state, o, now);
    if IsDuplicate(state, o, now) then r == None && t == s.(active := room[key := state])
    else if !ShouldReport(touched) then r == None && t == s.(active := room[key := touched])
    else r.Some? && Emitted(s, room, key, touched, now, t, r.value)
  }

  ghost predicate MakesRoom(active: Active, key: string, room: Active) {
    if key in active then room == active else EvictedOldest(active, room)
  }

  ghost predicate Ingested(s: Engine, o: SecurityObservation, now: int, window: int,
                           t: Engine, r: Option<SecurityFinding>) {
    if !o.Valid() then t == s && r == None
    else exists room :: MakesRoom(Unexpired(s.active, now, window), o.CorrelationKey(), room)
                        && Reported(s, room, o, now, t, r)
  }

  class CorrelationEngine {
    const policy: LocalSecurityPolicy
    var active: Active
    var findings: seq<SecurityFinding>
    var nextFindingId: nat

    ghost function State(): Engine
      reads this
    {
      Engine(active, findings, nextFindingId)
    }

    constructor (policy: LocalSecurityPolicy)
      ensures this.policy == policy && State() == Engine(map[], [], 1)
    {
      this.policy := policy;
      active, findings, nextFindingId := map[], [], 1;
    }

    method EvictOldest()
      modifies this`active
      ensures EvictedOldest(old(active), active)
    {
      if |active| < MAX_ACTIVE_KEYS { return; }
      var oldest :| oldest in active;
      var rest := active.Keys - {oldest};
      while rest != {}
        invariant active == old(active) && oldest in active && rest <= active.Keys
        invariant forall other :: other in active && other !in rest ==>
                    active[oldest].lastSeen <= active[other].lastSeen
        decreases |rest|
      {
        var key :| key in rest;
        if active[key].lastSeen < active[oldest].lastSeen { oldest := key; }
        rest := rest - {key};
      }
      assert IsOldest(active, oldest);
      active := active - {oldest};
    }

    method Expire(now: int)
      modifies this`active
      ensures active == Unexpired(old(active), now, policy.findingWindow)
    {
      var rest := active.Keys;
      while rest != {}
        invariant rest <= old(active).Keys
        invariant forall key :: key in active <==>
                    (key in old(active) && (key in rest || !HasExpired(old(active)[key], now, policy.findingWindow)))
        invariant forall key :: key in active ==> active[key] == old(active)[key]
        decreases |rest|
      {
        var key :| key in rest;
        if now >= active[key].lastSeen && now - active[key].lastSeen > policy.findingWindow {
          active := active - {key};
        }
        rest := rest - {key};
      }
    }

    method Ingest(o: SecurityObservation, now: int) returns (r: Option<SecurityFinding>)
      modifies this
      ensures Ingested(old(State()), o, now, policy.findingWindow, State(), r)
    {
      if !o.Valid() { return None; }
      var key := o.CorrelationKey();
      Expire(now);
      ghost var unexpired := active;
      if key !in active { EvictOldest(); }
      ghost var room := active;
      assert MakesRoom(unexpired, key, room);
      hide Reported, EvictedOldest, MakesRoom, Unexpired, SecurityObservation.CorrelationKey;
      r := Report(key, o, now);
    }

    /** From the key's state on. */
    method Report(key: string, o: SecurityObservation, now: int) returns (r: Option<SecurityFinding>)
      requires key == o.CorrelationKey()
      modifies this
      ensures Reported(old(State()), old(active), o, now, State(), r)
    {
      hide Score, LevelFor, Describes, Append, Touched, SecurityObservation.CorrelationKey, ThreatLevel.Rank;
      if key !in active { active := active[key := FRESH_STATE]; }
      var state := active[key];
      if o.sourceId in state.sources && now >= state.sources[o.sourceId].lastSeen &&
         now - state.sources[o.sourceId].lastSeen < DUPLICATE_WINDOW {
        assert active == old(active)[key := state];
        return None;
      }
      state := Touched(state, o, now);
      active := active[key := state];
      var score := ScoreFor(state.sources);
      var level := LevelFor(score);
      if score <= state.lastReportedScore && level.Rank() <= state.lastReportedLevel.Rank() { return None; }
      var finding := Emit(key, state, score, level, now);
      r := Some(finding);
      ghost var after := state.(lastReportedScore := finding.riskScore, lastReportedLevel := finding.level);
      assert old(active)[key := state][key := after] == old(active)[key := after];
    }

    method Emit(key: string, state: ActiveState, score: int, level: ThreatLevel, now: int)
      returns (finding: SecurityFinding)
      requires score == Score(state.sources) && level == LevelFor(score)
      modifies this
      ensures Emitted(old(State()), old(active), key, state, now, State(), finding)
    {
      hide Score, LevelFor, SomeDeterministic, Lists;
      var deterministic := AnySourceDeterministic(state.sources);
      var names := SourceNames(state.sources);
      finding := SecurityFinding(nextFindingId, now, level, score, deterministic, key, state.filePath,
                                 state.sha256, state.rationale, names);
      nextFindingId := nextFindingId + 1;
      active := active[key := state.(lastReportedScore := score, lastReportedLevel := level)];
      findings := findings + [finding];
      if |findings| > MAX_FINDINGS { findings := findings[1..]; }
    }

    static method SourceNames(sources: map<string, SourceState>) returns (names: seq<string>)
      ensures Lists(names, sources)
    {
      names := [];
      var rest := sources.Keys;
      while rest != {}
        invariant Distinct(names) && rest <= sources.Keys
        invariant forall id :: id in names <==> id in sources && id !in rest
        decreases |rest|
      {
        var id :| id in rest;
        names := names + [id];
        rest := rest - {id};
      }
      SortedIsInOrder(names);
      names := Sorted(names);
    }
  }
}
