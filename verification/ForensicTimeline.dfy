/** Linking events to causes and collecting them in chains (src/engines/forensic_timeline_engine.cpp). */
module ForensicTimeline {
  import opened Common
  import opened Observation

  const MAX_EVENTS: nat := 5000
  const MAX_CHAINS: nat := 200
  const CAUSAL_WINDOW: nat := 300

  /** KillChainStage by its value; 0 is UNKNOWN, 7 ACTIONS_ON_OBJ. */
  type KillChainStage = s: nat | s < 8

  const UNKNOWN: KillChainStage := 0

  /** What an ingested threat or observation contributes. */
  datatype Report = Report(timestamp: int, stage: KillChainStage, level: ThreatLevel, processId: u32,
        description: string)

  /** `causalParent` is 0 for none. */
  datatype TimelineEvent = TimelineEvent(id: nat, report: Report, causalParent: nat)

  datatype CausalChain = CausalChain(
    chainId: nat,
    eventIds: seq<nat>,
    maxStage: KillChainStage,
    maxLevel: ThreatLevel,
    summary: string)

  function MaxStage(a: KillChainStage, b: KillChainStage): KillChainStage {
    if a < b then b else a
  }

  function MaxLevel(a: ThreatLevel, b: ThreatLevel): ThreatLevel {
    if a.Rank() < b.Rank() then b else a
  }

  /** duration_cast to seconds truncates toward zero. */
  function AgeInSeconds(later: int, earlier: int): int {
    var d := later - earlier;
    if d >= 0 then d / TICKS_PER_SECOND else 0 - (0 - d) / TICKS_PER_SECOND
  }

  // ---- The cause of an event ----

  predicate SameProcess(e: TimelineEvent, r: Report) {
    e.report.processId == r.processId
  }

  predicate TooOld(e: TimelineEvent, r: Report) {
    AgeInSeconds(r.timestamp, e.report.timestamp) > CAUSAL_WINDOW
  }

  /** Going back from the n-th event: the first of the same process, unless one too old comes before. */
  function CauseAmong(events: seq<TimelineEvent>, n: nat, r: Report): nat
    requires n <= |events|
  {
    if n == 0 then 0
    else if SameProcess(events[n - 1], r) then events[n - 1].id
    else if TooOld(events[n - 1], r) then 0
    else CauseAmong(events, n - 1, r)
  }

  function CauseOf(events: seq<TimelineEvent>, r: Report): nat {
    if r.processId == 0 then 0 else CauseAmong(events, |events|, r)
  }

  /** k is the newest event of the process, and no event after it is too old. The event k itself may be of
      any age. */
  predicate IsCause(events: seq<TimelineEvent>, k: nat, r: Report) {
    && r.processId != 0 && k < |events| && SameProcess(events[k], r)
    && forall j :: k < j < |events| ==> !SameProcess(events[j], r) && !TooOld(events[j], r)
  }

  lemma {:induction false} CauseAmongIsExact(events: seq<TimelineEvent>, n: nat, r: Report, k: nat)
    requires n <= |events| && forall i :: 0 <= i < |events| ==> events[i].id > 0
    requires forall j :: n <= j < |events| ==> !SameProcess(events[j], r) && !TooOld(events[j], r)
    requires r.processId != 0
    ensures IsCause(events, k, r) ==> CauseAmong(events, n, r) == events[k].id
    ensures CauseAmong(events, n, r) != 0 ==>
              exists c :: 0 <= c < |events| && IsCause(events, c, r) && events[c].id == CauseAmong(events, n, r)
  {
    hide SameProcess, TooOld;
    if n > 0 {
      if SameProcess(events[n - 1], r) {
        assert IsCause(events, n - 1, r);
      } else if !TooOld(events[n - 1], r) {
        CauseAmongIsExact(events, n - 1, r, k);
      }
    }
  }

  /** An event's parent is exactly its cause among the events still held. */
  lemma CauseIsExact(events: seq<TimelineEvent>, r: Report, k: nat)
    requires forall i :: 0 <= i < |events| ==> events[i].id > 0
    ensures IsCause(events, k, r) ==> CauseOf(events, r) == events[k].id
    ensures CauseOf(events, r) != 0 ==>
              exists c :: 0 <= c < |events| && IsCause(events, c, r) && events[c].id == CauseOf(events, r)
  {
    if r.processId != 0 { CauseAmongIsExact(events, |events|, r, k); }
  }

  // ---- One ingest ----

  /** `all` and `gone` are histories: every event ever, and the chains dropped so far. */
  datatype Timeline = Timeline(
    nextId: nat,
    nextChainId: nat,
    events: seq<TimelineEvent>,
    chains: seq<CausalChain>,
    all: seq<TimelineEvent>,
    gone: seq<CausalChain>)

  const EMPTY: Timeline := Timeline(1, 1, [], [], [], [])

  function Dropped<T>(s: seq<T>, n: nat): seq<T> {
    if |s| <= n then [] else s[..|s| - n]
  }

  /** The first chain that holds the event, or the length. */
  function ChainOf(chains: seq<CausalChain>, id: nat): (i: nat)
    ensures i <= |chains| && (i < |chains| ==> id in chains[i].eventIds)
    ensures forall k :: 0 <= k < i ==> id !in chains[k].eventIds
  {
    FirstWhere(chains, (c: CausalChain) => id in c.eventIds)
  }

  function Extended(c: CausalChain, e: TimelineEvent): CausalChain {
    c.(eventIds := c.eventIds + [e.id], maxStage := MaxStage(c.maxStage, e.report.stage),
       maxLevel := MaxLevel(c.maxLevel, e.report.level))
  }

  function StageName(stage: KillChainStage): string {
    ["Unknown", "Reconnaissance", "Weaponization", "Delivery", "Exploitation", "Installation",
     "Command & Control", "Actions on Objectives"][stage]
  }

  function NewChain(chainId: nat, e: TimelineEvent): CausalChain {
    CausalChain(chainId, [e.id], e.report.stage, e.report.level,
                StageName(e.report.stage) + ": " + e.report.description)
  }

  predicate Notable(r: Report) {
    r.level.Rank() >= Medium.Rank() || r.stage != UNKNOWN
  }

  function WithChains(s: Timeline, e: TimelineEvent): Timeline {
    var i := ChainOf(s.chains, e.causalParent);
    if e.causalParent != 0 && i < |s.chains| then s.(chains := s.chains[i := Extended(s.chains[i], e)])
    else if Notable(e.report) then
      var chains := s.chains + [NewChain(s.nextChainId, e)];
      s.(nextChainId := s.nextChainId + 1, chains := Newest(chains, MAX_CHAINS),
         gone := s.gone + Dropped(chains, MAX_CHAINS))
    else s
  }

  function Ingested(s: Timeline, r: Report): Timeline {
    var e := TimelineEvent(s.nextId, r, CauseOf(s.events, r));
    WithChains(s.(nextId := s.nextId + 1, events := Newest(s.events + [e], MAX_EVENTS), all := s.all + [e]), e)
  }

  class ForensicTimelineEngine {
    var nextId: nat
    var nextChainId: nat
    var events: seq<TimelineEvent>
    var chains: seq<CausalChain>
    ghost var all: seq<TimelineEvent>
    ghost var gone: seq<CausalChain>

    ghost function State(): Timeline
      reads this
    {
      Timeline(nextId, nextChainId, events, chains, all, gone)
    }

    constructor ()
      ensures State() == EMPTY
    {
      nextId, nextChainId, events, chains, all, gone := 1, 1, [], [], [], [];
    }

    /** ingest_threat and ingest_observation, from the event they build. */
    method Ingest(r: Report)
      requires forall i :: 0 <= i < |events| ==> events[i].id < nextId
      modifies this
      ensures State() == Ingested(old(State()), r)
    {
      var id := nextId;
      nextId := nextId + 1;
      var parent := LinkCausal(id, r);
      var e := TimelineEvent(id, r, parent);
      events := events + [e];
      all := all + [e];
      while |events| > MAX_EVENTS
        invariant Newest(events, MAX_EVENTS) == Newest(old(events) + [e], MAX_EVENTS)
        invariant State() == old(State()).(nextId := id + 1, all := old(all) + [e], events := events)
      {
        events := events[1..];
      }
      UpdateChains(e);
    }

    method LinkCausal(id: nat, r: Report) returns (parent: nat)
      requires forall i :: 0 <= i < |events| ==> events[i].id < id
      ensures parent == CauseOf(events, r)
    {
      if r.processId == 0 { return 0; }
      var n: nat := |events|;
      while n > 0
        invariant n <= |events| && CauseAmong(events, n, r) == CauseOf(events, r)
      {
        var e := events[n - 1];
        if e.report.processId == r.processId && e.id != id { return e.id; }
        if AgeInSeconds(r.timestamp, e.report.timestamp) > CAUSAL_WINDOW { return 0; }
        n := n - 1;
      }
      return 0;
    }

    /** The chain the nested loops stop at. */
    method FindChain(id: nat) returns (i: nat)
      ensures i == ChainOf(chains, id)
    {
      i := 0;
      while i < |chains|
        invariant i <= |chains| && forall k :: 0 <= k < i ==> id !in chains[k].eventIds
      {
        var ids := chains[i].eventIds;
        for k := 0 to |ids|
          invariant id !in ids[..k]
        {
          if ids[k] == id { return; }
        }
        assert ids[..|ids|] == ids;
        i := i + 1;
      }
    }

    method UpdateChains(e: TimelineEvent)
      modifies this`chains, this`nextChainId, this`gone
      ensures State() == WithChains(old(State()), e)
    {
      if e.causalParent != 0 {
        var i := FindChain(e.causalParent);
        if i < |chains| {
          var c := chains[i];
          chains := chains[i := c.(eventIds := c.eventIds + [e.id],
                                   maxStage := MaxStage(c.maxStage, e.report.stage),
                                   maxLevel := MaxLevel(c.maxLevel, e.report.level))];
          return;
        }
      }
      if e.report.level.Rank() >= Medium.Rank() || e.report.stage != UNKNOWN {
        var c := NewChain(nextChainId, e);
        nextChainId := nextChainId + 1;
        chains := chains + [c];
        TrimChains();
      }
    }

    /** Drops the oldest chains beyond the limit. */
    method TrimChains()
      modifies this`chains, this`gone
      ensures chains == Newest(old(chains), MAX_CHAINS) && gone == old(gone) + Dropped(old(chains), MAX_CHAINS)
    {
      gone := gone + Dropped(chains, MAX_CHAINS);
      while |chains| > MAX_CHAINS
        invariant Newest(chains, MAX_CHAINS) == Newest(old(chains), MAX_CHAINS)
        invariant gone == old(gone) + Dropped(old(chains), MAX_CHAINS)
      {
        chains := chains[1..];
      }
    }
  }

  // ---- What every chain is like ----

  function EventOf(all: seq<TimelineEvent>, id: nat): TimelineEvent
    requires 1 <= id <= |all|
  {
    all[id - 1]
  }

  predicate Known(all: seq<TimelineEvent>, ids: seq<nat>) {
    forall i :: 0 <= i < |ids| ==> 1 <= ids[i] <= |all|
  }

  predicate OneProcess(all: seq<TimelineEvent>, ids: seq<nat>)
    requires Known(all, ids)
  {
    forall i :: 0 <= i < |ids| ==> EventOf(all, ids[i]).report.processId == EventOf(all, ids[0]).report.processId
  }

  /** Upper bounds that some member attains. */
  predicate Maxima(all: seq<TimelineEvent>, ids: seq<nat>, stage: KillChainStage, level: ThreatLevel)
    requires Known(all, ids)
  {
    && (forall i :: 0 <= i < |ids| ==> EventOf(all, ids[i]).report.stage <= stage)
    && (exists i :: 0 <= i < |ids| && EventOf(all, ids[i]).report.stage == stage)
    && (forall i :: 0 <= i < |ids| ==> EventOf(all, ids[i]).report.level.Rank() <= level.Rank())
    && (exists i :: 0 <= i < |ids| && EventOf(all, ids[i]).report.level == level)
  }

  /** Every member but the first was caused by an earlier one. */
  predicate Connected(all: seq<TimelineEvent>, ids: seq<nat>)
    requires Known(all, ids)
  {
    forall i :: 0 < i < |ids| ==> EventOf(all, ids[i]).causalParent in ids[..i]
  }

  predicate ChainOk(all: seq<TimelineEvent>, c: CausalChain) {
    && c.eventIds != [] && Known(all, c.eventIds) && AscendingIds(c.eventIds)
    && OneProcess(all, c.eventIds) && Maxima(all, c.eventIds, c.maxStage, c.maxLevel) && Connected(all, c.eventIds)
  }

  predicate ChainsOk(all: seq<TimelineEvent>, chains: seq<CausalChain>) {
    forall i :: 0 <= i < |chains| ==> ChainOk(all, chains[i])
  }

  predicate Disjoint(a: CausalChain, b: CausalChain) {
    forall id :: id in a.eventIds ==> id !in b.eventIds
  }

  predicate AllDisjoint(chains: seq<CausalChain>) {
    forall i, j :: 0 <= i < j < |chains| ==> Disjoint(chains[i], chains[j])
  }

  /** A parent is an earlier event of the same process. */
  predicate ParentOk(all: seq<TimelineEvent>, i: nat)
    requires i < |all|
  {
    var p := all[i].causalParent;
    p <= i && (p != 0 ==> EventOf(all, p).report.processId == all[i].report.processId)
  }

  predicate EventsOk(s: Timeline) {
    && s.nextId == |s.all| + 1 && s.events == Newest(s.all, MAX_EVENTS)
    && (forall i :: 0 <= i < |s.all| ==> s.all[i].id == i + 1)
    && (forall i :: 0 <= i < |s.all| ==> ParentOk(s.all, i))
  }

  /** All chains ever started, the dropped ones first. */
  function EveryChain(s: Timeline): seq<CausalChain> {
    s.gone + s.chains
  }

  predicate Invariant(s: Timeline) {
    && EventsOk(s) && |s.chains| <= MAX_CHAINS
    && ChainsOk(s.all, EveryChain(s)) && AllDisjoint(EveryChain(s))
  }

  lemma ChainLater(all: seq<TimelineEvent>, e: TimelineEvent, c: CausalChain)
    requires ChainOk(all, c)
    ensures ChainOk(all + [e], c)
  {
    var ids := c.eventIds;
    assert forall i :: 0 <= i < |ids| ==> EventOf(all + [e], ids[i]) == EventOf(all, ids[i]);
    hide EventOf;
  }

  lemma ExtendedIsOk(all: seq<TimelineEvent>, e: TimelineEvent, c: CausalChain)
    requires ChainOk(all, c) && e.id == |all| + 1
    requires e.causalParent in c.eventIds
    requires 1 <= e.causalParent <= |all| && EventOf(all, e.causalParent).report.processId == e.report.processId
    ensures ChainOk(all + [e], Extended(c, e))
  {
    ChainLater(all, e, c);
    var more := all + [e];
    assert EventOf(more, e.id) == e && EventOf(more, e.causalParent) == EventOf(all, e.causalParent);
    ExtendedMaxima(more, c.eventIds, e, c.maxStage, c.maxLevel);
    assert Known(all, c.eventIds);
    hide EventOf, Maxima;
    ExtendedKeepsProcess(more, c.eventIds, e);
    ExtendedStaysConnected(more, c.eventIds, e);
  }

  lemma ExtendedKeepsProcess(all: seq<TimelineEvent>, ids: seq<nat>, e: TimelineEvent)
    requires 1 <= e.id <= |all| && EventOf(all, e.id) == e && Known(all, ids) && Known(all, ids + [e.id])
    requires OneProcess(all, ids) && e.causalParent in ids
    requires EventOf(all, e.causalParent).report.processId == e.report.processId
    ensures OneProcess(all, ids + [e.id])
  {
    hide EventOf;
    var more := ids + [e.id];
    var k :| 0 <= k < |ids| && ids[k] == e.causalParent;
    assert EventOf(all, ids[k]).report.processId == EventOf(all, ids[0]).report.processId;
    assert more[|ids|] == e.id && forall i :: 0 <= i < |ids| ==> more[i] == ids[i];
  }

  lemma ExtendedStaysConnected(all: seq<TimelineEvent>, ids: seq<nat>, e: TimelineEvent)
    requires 1 <= e.id <= |all| && EventOf(all, e.id) == e && Known(all, ids) && Known(all, ids + [e.id])
    requires Connected(all, ids) && e.causalParent in ids
    ensures Connected(all, ids + [e.id])
  {
    hide EventOf;
    var more := ids + [e.id];
    forall i | 0 < i < |more| ensures EventOf(all, more[i]).causalParent in more[..i] {
      if i < |ids| {
        assert more[i] == ids[i] && more[..i] == ids[..i];
      } else {
        assert more[i] == e.id && more[..i] == ids;
      }
    }
  }

  lemma ExtendedMaxima(all: seq<TimelineEvent>, ids: seq<nat>, e: TimelineEvent, stage: KillChainStage,
        level: ThreatLevel)
    requires 1 <= e.id <= |all| && EventOf(all, e.id) == e
    requires Known(all, ids) && Maxima(all, ids, stage, level)
    ensures Known(all, ids + [e.id])
    ensures Maxima(all, ids + [e.id], MaxStage(stage, e.report.stage), MaxLevel(level, e.report.level))
  {
    var more := ids + [e.id];
    hide EventOf, Maxima;
    assert more[|ids|] == e.id && forall i :: 0 <= i < |ids| ==> more[i] == ids[i];
    MaximaBounds(all, ids, stage, level);
    var a, b := Attained(all, ids, stage, level);
    assert EventOf(all, more[a]).report.stage == stage && EventOf(all, more[b]).report.level == level;
    assert EventOf(all, more[|ids|]) == e;
    ToMaxima(all, more, MaxStage(stage, e.report.stage), MaxLevel(level, e.report.level),
             if stage < e.report.stage then |ids| else a, if level.Rank() < e.report.level.Rank() then |ids| else b);
  }

  lemma MaximaBounds(all: seq<TimelineEvent>, ids: seq<nat>, stage: KillChainStage, level: ThreatLevel)
    requires Known(all, ids) && Maxima(all, ids, stage, level)
    ensures forall i :: 0 <= i < |ids| ==> EventOf(all, ids[i]).report.stage <= stage
    ensures forall i :: 0 <= i < |ids| ==> EventOf(all, ids[i]).report.level.Rank() <= level.Rank()
  {}

  lemma Attained(all: seq<TimelineEvent>, ids: seq<nat>, stage: KillChainStage, level: ThreatLevel)
    returns (a: nat, b: nat)
    requires Known(all, ids) && Maxima(all, ids, stage, level)
    ensures a < |ids| && EventOf(all, ids[a]).report.stage == stage
    ensures b < |ids| && EventOf(all, ids[b]).report.level == level
  {
    a :| 0 <= a < |ids| && EventOf(all, ids[a]).report.stage == stage;
    b :| 0 <= b < |ids| && EventOf(all, ids[b]).report.level == level;
  }

  lemma ToMaxima(all: seq<TimelineEvent>, ids: seq<nat>, stage: KillChainStage, level: ThreatLevel, a: nat, b: nat)
    requires Known(all, ids)
    requires forall i :: 0 <= i < |ids| ==> EventOf(all, ids[i]).report.stage <= stage
    requires forall i :: 0 <= i < |ids| ==> EventOf(all, ids[i]).report.level.Rank() <= level.Rank()
    requires a < |ids| && EventOf(all, ids[a]).report.stage == stage
    requires b < |ids| && EventOf(all, ids[b]).report.level == level
    ensures Maxima(all, ids, stage, level)
  {}

  lemma NewIsOk(all: seq<TimelineEvent>, e: TimelineEvent, chainId: nat)
    requires e.id == |all| + 1
    ensures ChainOk(all + [e], NewChain(chainId, e))
  {
    assert EventOf(all + [e], e.id) == e;
    ToMaxima(all + [e], [e.id], e.report.stage, e.report.level, 0, 0);
  }

  lemma DroppedNewest<T>(s: seq<T>, n: nat)
    ensures Dropped(s, n) + Newest(s, n) == s
  {}

  /** e is the event its id names. */
  predicate Held(all: seq<TimelineEvent>, e: TimelineEvent) {
    1 <= e.id <= |all| && EventOf(all, e.id) == e
  }

  lemma HeldEvent(s: Timeline, i: nat)
    requires EventsOk(s) && i < |s.events|
    ensures Held(s.all, s.events[i])
  {
    hide ParentOk;
    var k := |s.all| - |s.events| + i;
    assert s.events[i] == s.all[k];
    assert s.all[k].id == k + 1;
  }

  /** The parent that link_causal finds is an earlier event of the same process. */
  lemma CauseIsEarlier(s: Timeline, r: Report)
    requires EventsOk(s)
    ensures var p := CauseOf(s.events, r);
            p <= |s.all| && (p != 0 ==> EventOf(s.all, p).report.processId == r.processId)
  {
    forall i | 0 <= i < |s.events| ensures Held(s.all, s.events[i]) { HeldEvent(s, i); }
    hide CauseOf, EventsOk, EventOf;
    CauseIsExact(s.events, r, 0);
    if CauseOf(s.events, r) != 0 {
      var c :| 0 <= c < |s.events| && IsCause(s.events, c, r) && s.events[c].id == CauseOf(s.events, r);
    }
  }

  lemma EventsStayOk(s: Timeline, r: Report)
    requires EventsOk(s)
    ensures EventsOk(Ingested(s, r))
  {
    CauseIsEarlier(s, r);
    var e := TimelineEvent(s.nextId, r, CauseOf(s.events, r));
    NewestSnoc(s.all, MAX_EVENTS, e);
    var more := s.all + [e];
    hide CauseOf, Newest, WithChains;
    forall i | 0 <= i < |more| ensures ParentOk(more, i) {
      if i < |s.all| { assert ParentOk(s.all, i); }
    }
    ChainsOnly(s.(nextId := s.nextId + 1, events := Newest(s.events + [e], MAX_EVENTS), all := more), e);
  }

  lemma ChainsOnly(s: Timeline, e: TimelineEvent)
    ensures var t := WithChains(s, e); t.nextId == s.nextId && t.events == s.events && t.all == s.all
  {}

  /** Chains never name an event that has not happened. */
  lemma NotYetIn(all: seq<TimelineEvent>, c: CausalChain, id: nat)
    requires ChainOk(all, c) && id > |all|
    ensures id !in c.eventIds
  {}

  /** A chain that a new event joins stays apart from the others. */
  lemma ExtendedStaysDisjoint(all: seq<TimelineEvent>, chains: seq<CausalChain>, k: nat, e: TimelineEvent)
    requires ChainsOk(all, chains) && AllDisjoint(chains) && k < |chains| && e.id == |all| + 1
    ensures AllDisjoint(chains[k := Extended(chains[k], e)])
  {
    var after := chains[k := Extended(chains[k], e)];
    forall i, j | 0 <= i < j < |after| ensures Disjoint(after[i], after[j]) {
      assert Disjoint(chains[i], chains[j]);
      NotYetIn(all, chains[i], e.id);
      NotYetIn(all, chains[j], e.id);
    }
  }

  lemma NewStaysDisjoint(all: seq<TimelineEvent>, chains: seq<CausalChain>, e: TimelineEvent, chainId: nat)
    requires ChainsOk(all, chains) && AllDisjoint(chains) && e.id == |all| + 1
    ensures AllDisjoint(chains + [NewChain(chainId, e)])
  {
    var after := chains + [NewChain(chainId, e)];
    forall i, j | 0 <= i < j < |after| ensures Disjoint(after[i], after[j]) {
      if j == |chains| { NotYetIn(all, chains[i], e.id); }
    }
  }

  /** What an ingest does to the list of all chains: one grows, or one is added, or nothing. */
  lemma EveryChainAfter(s: Timeline, e: TimelineEvent)
    ensures var i := ChainOf(s.chains, e.causalParent);
            var k := |s.gone| + i;
            var before, after := EveryChain(s), EveryChain(WithChains(s, e));
            if e.causalParent != 0 && i < |s.chains| then after == before[k := Extended(before[k], e)]
            else if Notable(e.report) then after == before + [NewChain(s.nextChainId, e)]
            else after == before
    ensures |s.chains| <= MAX_CHAINS ==> |WithChains(s, e).chains| <= MAX_CHAINS
  {
    hide Extended, NewChain, Notable;
    var grown := s.chains + [NewChain(s.nextChainId, e)];
    DroppedNewest(grown, MAX_CHAINS);
    assert s.gone + grown == s.gone + s.chains + [NewChain(s.nextChainId, e)];
    assert s.gone + Dropped(grown, MAX_CHAINS) + Newest(grown, MAX_CHAINS)
        == s.gone + (Dropped(grown, MAX_CHAINS) + Newest(grown, MAX_CHAINS));
  }

  lemma ChainsStayOk(s: Timeline, e: TimelineEvent, t: Timeline)
    requires ChainsOk(s.all, EveryChain(s)) && AllDisjoint(EveryChain(s)) && e.id == |s.all| + 1
    requires var p := e.causalParent;
             p <= |s.all| && (p != 0 ==> EventOf(s.all, p).report.processId == e.report.processId)
    requires EveryChain(t) == EveryChain(WithChains(s, e))
    ensures ChainsOk(s.all + [e], EveryChain(t)) && AllDisjoint(EveryChain(t))
  {
    EveryChainAfter(s, e);
    var before, after := EveryChain(s), EveryChain(t);
    var i := ChainOf(s.chains, e.causalParent);
    var k := |s.gone| + i;
    hide ChainOk, Extended, NewChain, WithChains, EventOf, Disjoint;
    if e.causalParent != 0 && i < |s.chains| {
      assert before[k] == s.chains[i];
      ExtendedStaysDisjoint(s.all, before, k, e);
      ExtendedIsOk(s.all, e, before[k]);
    } else {
      NewStaysDisjoint(s.all, before, e, s.nextChainId);
      NewIsOk(s.all, e, s.nextChainId);
    }
    forall j | 0 <= j < |after| ensures ChainOk(s.all + [e], after[j]) {
      if j < |before| { ChainLater(s.all, e, before[j]); }
    }
  }

  lemma IngestKeepsInvariant(s: Timeline, r: Report)
    requires Invariant(s)
    ensures Invariant(Ingested(s, r))
  {
    EventsStayOk(s, r);
    CauseIsEarlier(s, r);
    var e := TimelineEvent(s.nextId, r, CauseOf(s.events, r));
    var u := s.(nextId := s.nextId + 1, events := Newest(s.events + [e], MAX_EVENTS), all := s.all + [e]);
    var t := Ingested(s, r);
    assert t == WithChains(u, e);
    ChainsOnly(u, e);
    EveryChainAfter(s, e);
    EveryChainAfter(u, e);
    hide CauseOf, Newest, WithChains, EventsOk, ChainsOk, AllDisjoint, Extended, NewChain, Notable, ChainOf;
    ChainsStayOk(s, e, t);
  }

  // ---- Runs ----

  function Run(reports: seq<Report>): Timeline {
    if |reports| == 0 then EMPTY else Ingested(Run(reports[..|reports| - 1]), reports[|reports| - 1])
  }

  lemma {:induction false} RunKeepsInvariant(reports: seq<Report>)
    ensures Invariant(Run(reports))
  {
    if |reports| > 0 {
      RunKeepsInvariant(reports[..|reports| - 1]);
      IngestKeepsInvariant(Run(reports[..|reports| - 1]), reports[|reports| - 1]);
    }
  }

  /** After any number of reports, evicted events and dropped chains included: every chain's ids ascend, its
      events are of one process and its maxima are theirs, every event but its first was caused by an
      earlier one in it; no event is in two chains; and each parent comes before its child. */
  lemma ChainsAreSound(reports: seq<Report>)
    ensures var s := Run(reports);
            && (forall i :: 0 <= i < |EveryChain(s)| ==> ChainOk(s.all, EveryChain(s)[i]))
            && (forall i, j :: 0 <= i < j < |EveryChain(s)| ==> Disjoint(EveryChain(s)[i], EveryChain(s)[j]))
            && (forall i :: 0 <= i < |s.all| ==> s.all[i].causalParent < s.all[i].id)
            && |s.events| <= 5000 && |s.chains| <= 200
  {
    RunKeepsInvariant(reports);
    var s := Run(reports);
    assert forall i :: 0 <= i < |s.all| ==> ParentOk(s.all, i) && s.all[i].id == i + 1;
    hide EveryChain, ChainOk, Disjoint, Run;
  }
}
