/** From observation to vault: what holds in every state the pipeline, its approvals and the quarantine can
    reach together. */
module PipelineRuns {
  import opened Common
  import opened Observation
  import opened Policy
  import Correlation
  import opened CorrelationRuns
  import opened SecurityPipeline
  import Ledger
  import Quarantine
  import QuarantineRuns

  datatype Event =
    | Process(observation: SecurityObservation, now: int)
    | Decide(findingId: nat, target: CandidateApprovalState)
    | Execute(findingId: nat, now: int, faults: Quarantine.Faults)
    | RestoreOrShred(op: QuarantineRuns.Op)

  datatype Decision = Decision(findingId: nat, outcome: CandidateApprovalState)

  /** `raised` holds every candidate as it was made, `decisions` every change of an approval state. */
  datatype Whole = Whole(
    tracked: Tracked,
    candidates: seq<RemediationCandidate>,
    vault: Quarantine.State,
    raised: seq<RemediationCandidate>,
    decisions: seq<Decision>)

  /** The executor has a policy of its own, and may have loaded records of earlier processes. */
  datatype Setup = Setup(policy: LocalSecurityPolicy, executor: Quarantine.Config, loaded: nat)

  ghost predicate Starts(setup: Setup, s: Whole) {
    && s.tracked == START && s.candidates == [] && s.raised == [] && s.decisions == []
    && |s.vault.ledger| == setup.loaded
  }

  function DecisionsAfter(s: Whole, findingId: nat, target: CandidateApprovalState): seq<Decision> {
    if Transition(s.candidates, findingId, target).1 != s.candidates then s.decisions + [Decision(findingId, target)]
    else s.decisions
  }

  ghost predicate Processed(setup: Setup, s: Whole, o: SecurityObservation, now: int, t: Whole,
        r: Option<SecurityFinding>) {
    && CorrelationRuns.Step(setup.policy.findingWindow, s.tracked, Ingest(o, now), t.tracked, r)
    && var c := Candidate(r, setup.policy);
       t == s.(tracked := t.tracked, candidates := Pushed(s.candidates, c),
               raised := if c.Some? then s.raised + [c.value] else s.raised)
  }

  ghost predicate Next(setup: Setup, s: Whole, e: Event, t: Whole) {
    match e
    case Process(o, now) => exists r :: Processed(setup, s, o, now, t, r)
    case Decide(id, target) =>
      && target != PendingApproval
      && t == s.(candidates := Transition(s.candidates, id, target).1, decisions := DecisionsAfter(s, id, target))
    case Execute(id, now, f) => t == s.(vault := AfterExecute(setup.executor, s.candidates, s.vault, id, now, f).1)
    case RestoreOrShred(op) => !op.DoQuarantine? && t == s.(vault := QuarantineRuns.Step(setup.executor, s.vault, op).1)
  }

  // ---- Candidates ----

  /** A candidate stands on a CRITICAL finding of at least two sources, one of them deterministic, about a
      path that is neither empty nor protected. The path, and the hash if there is one, were observed. */
  ghost predicate WellFounded(policy: LocalSecurityPolicy, c: RemediationCandidate, f: SecurityFinding,
                              seen: seq<SecurityObservation>) {
    && f.id == c.findingId && f.level == Critical && f.riskScore >= policy.criticalThreshold
    && f.deterministicSignature && DetailsGrounded(f, seen)
    && (exists a, b :: a in f.contributingSources && b in f.contributingSources && a != b)
    && (exists i :: 0 <= i < |seen| && Concerns(seen[i], f) && seen[i].deterministic)
    && c.targetPath == f.filePath && c.expectedSha256 == f.sha256
    && c.targetPath != "" && !IsProtected(c.targetPath, policy)
  }

  ghost predicate Founded(policy: LocalSecurityPolicy, s: Tracked, c: RemediationCandidate) {
    exists i :: 0 <= i < |s.history.emitted| && WellFounded(policy, c, s.history.emitted[i], s.history.seen)
  }

  ghost predicate AllFounded(policy: LocalSecurityPolicy, s: Tracked, raised: seq<RemediationCandidate>) {
    forall i :: 0 <= i < |raised| ==> Founded(policy, s, raised[i])
  }

  /** What a finding must be like to become a candidate. */
  ghost predicate Deserves(policy: LocalSecurityPolicy, f: SecurityFinding) {
    && f.deterministicSignature && f.level == Critical && f.riskScore >= policy.criticalThreshold
    && f.filePath != "" && !IsProtected(f.filePath, policy)
  }

  function CandidateOf(f: SecurityFinding): RemediationCandidate {
    RemediationCandidate(f.id, QuarantineCandidate, PendingApproval, f.filePath, f.sha256, f.rationale)
  }

  ghost predicate AllRaised(policy: LocalSecurityPolicy, emitted: seq<SecurityFinding>,
                            raised: seq<RemediationCandidate>) {
    forall i :: 0 <= i < |emitted| && Deserves(policy, emitted[i]) ==> CandidateOf(emitted[i]) in raised
  }

  predicate IdsAscend(cs: seq<RemediationCandidate>, below: nat) {
    && (forall i, j :: 0 <= i < j < |cs| ==> cs[i].findingId < cs[j].findingId)
    && (forall i :: 0 <= i < |cs| ==> cs[i].findingId < below)
  }

  /** A candidate is its original, but for its approval state. */
  predicate SameButState(c: RemediationCandidate, original: RemediationCandidate) {
    c == original.(approvalState := c.approvalState)
  }

  predicate SameButStates(cs: seq<RemediationCandidate>, originals: seq<RemediationCandidate>) {
    |cs| == |originals| && forall i :: 0 <= i < |cs| ==> SameButState(cs[i], originals[i])
  }

  // ---- Decisions ----

  predicate DecidedOnce(decisions: seq<Decision>) {
    forall i, j :: 0 <= i < j < |decisions| ==> decisions[i].findingId != decisions[j].findingId
  }

  /** A candidate's state is the decision on it, and pending while there is none. */
  ghost predicate StateIsDecision(c: RemediationCandidate, decisions: seq<Decision>) {
    if c.approvalState == PendingApproval then
      forall i :: 0 <= i < |decisions| ==> decisions[i].findingId != c.findingId
    else Decision(c.findingId, c.approvalState) in decisions
  }

  ghost predicate StatesAreDecisions(cs: seq<RemediationCandidate>, decisions: seq<Decision>) {
    forall i :: 0 <= i < |cs| ==> StateIsDecision(cs[i], decisions)
  }

  predicate DecisionsBelow(decisions: seq<Decision>, below: nat) {
    forall i :: 0 <= i < |decisions| ==> decisions[i].findingId < below
  }

  // ---- The vault ----

  predicate IsApproved(r: Ledger.QuarantineRecord, decisions: seq<Decision>) {
    Decision(r.findingId, Approved) in decisions
  }

  /** The records made since the start. */
  ghost predicate VaultApproved(vault: Quarantine.State, loaded: nat, decisions: seq<Decision>) {
    forall i :: loaded <= i < |vault.ledger| ==> IsApproved(vault.ledger[i], decisions)
  }

  ghost predicate Invariant(setup: Setup, s: Whole) {
    && CorrelationRuns.Invariant(s.tracked)
    && AllFounded(setup.policy, s.tracked, s.raised)
    && AllRaised(setup.policy, s.tracked.history.emitted, s.raised)
    && IdsAscend(s.raised, s.tracked.engine.nextFindingId)
    && SameButStates(s.candidates, Newest(s.raised, MAX_CANDIDATES))
    && DecidedOnce(s.decisions) && DecisionsBelow(s.decisions, s.tracked.engine.nextFindingId)
    && StatesAreDecisions(s.candidates, s.decisions)
    && VaultApproved(s.vault, setup.loaded, s.decisions)
  }

  // ---- Processing ----

  lemma FoundedLater(policy: LocalSecurityPolicy, s: Tracked, t: Tracked, c: RemediationCandidate)
    requires Founded(policy, s, c)
    requires s.history.emitted <= t.history.emitted && s.history.seen <= t.history.seen
    ensures Founded(policy, t, c)
  {
    var i :| 0 <= i < |s.history.emitted| && WellFounded(policy, c, s.history.emitted[i], s.history.seen);
    var f := s.history.emitted[i];
    assert t.history.emitted[i] == f;
    var k :| 0 <= k < |s.history.seen| && Concerns(s.history.seen[k], f) && s.history.seen[k].deterministic;
    assert t.history.seen[k] == s.history.seen[k];
    DetailsStay(f, s.history.seen, t.history.seen);
    hide DetailsGrounded;
    assert WellFounded(policy, c, t.history.emitted[i], t.history.seen);
  }

  lemma {:induction false} DetailsStay(f: SecurityFinding, seen: seq<SecurityObservation>,
                                       more: seq<SecurityObservation>)
    requires DetailsGrounded(f, seen) && seen <= more
    ensures DetailsGrounded(f, more)
    decreases |more|
  {
    if |seen| < |more| {
      var before := more[..|more| - 1];
      DetailsStay(f, seen, before);
      DetailsGroundedLater(f, before, more[|more| - 1]);
      assert before + [more[|more| - 1]] == more;
    } else {
      assert seen == more;
    }
  }

  lemma HistoryGrows(window: int, s: Tracked, o: SecurityObservation, now: int, t: Tracked, r: Option<SecurityFinding>)
    requires CorrelationRuns.Step(window, s, Ingest(o, now), t, r)
    ensures t.history.emitted == s.history.emitted + Optional(r) && s.history.seen <= t.history.seen
  {
    hide Correlation.MakesRoom, Correlation.Reported, PeriodsAfter;
    if !o.Valid() { assert s.history.emitted + [] == s.history.emitted; }
  }

  lemma NewCandidateIsFounded(policy: LocalSecurityPolicy, t: Tracked, f: SecurityFinding, c: RemediationCandidate)
    requires CorrelationRuns.Invariant(t) && |t.history.emitted| > 0 && t.history.emitted[|t.history.emitted| - 1] == f
    requires CandidateFor(f, policy) == Some(c)
    ensures Founded(policy, t, c)
  {
    assert Grounded(f, t.history.seen);
    assert WellFounded(policy, c, t.history.emitted[|t.history.emitted| - 1], t.history.seen);
  }

  lemma PushNewest(raised: seq<RemediationCandidate>, cs: seq<RemediationCandidate>, c: RemediationCandidate)
    requires SameButStates(cs, Newest(raised, MAX_CANDIDATES))
    ensures SameButStates(Pushed(cs, Some(c)), Newest(raised + [c], MAX_CANDIDATES))
  {
    if |raised| >= MAX_CANDIDATES {
      var more := raised + [c];
      assert forall i :: 0 <= i < MAX_CANDIDATES - 1 ==>
               Newest(more, MAX_CANDIDATES)[i] == Newest(raised, MAX_CANDIDATES)[i + 1];
    }
  }

  lemma ProcessKeepsFounded(setup: Setup, s: Whole, t: Whole, r: Option<SecurityFinding>)
    requires AllFounded(setup.policy, s.tracked, s.raised) && CorrelationRuns.Invariant(t.tracked)
    requires s.tracked.history.seen <= t.tracked.history.seen
    requires t.tracked.history.emitted == s.tracked.history.emitted + Optional(r)
    requires var c := Candidate(r, setup.policy); t.raised == if c.Some? then s.raised + [c.value] else s.raised
    ensures AllFounded(setup.policy, t.tracked, t.raised)
  {
    hide CorrelationRuns.Invariant, Founded, Policy.Decide;
    forall i | 0 <= i < |t.raised| ensures Founded(setup.policy, t.tracked, t.raised[i]) {
      if i < |s.raised| {
        FoundedLater(setup.policy, s.tracked, t.tracked, s.raised[i]);
      } else {
        NewCandidateIsFounded(setup.policy, t.tracked, r.value, t.raised[i]);
      }
    }
  }

  lemma DeservesIsDecided(policy: LocalSecurityPolicy, f: SecurityFinding)
    ensures CandidateFor(f, policy) == if Deserves(policy, f) then Some(CandidateOf(f)) else None
  {}

  lemma ProcessRaises(setup: Setup, s: Whole, t: Whole, r: Option<SecurityFinding>)
    requires AllRaised(setup.policy, s.tracked.history.emitted, s.raised)
    requires t.tracked.history.emitted == s.tracked.history.emitted + Optional(r)
    requires var c := Candidate(r, setup.policy); t.raised == if c.Some? then s.raised + [c.value] else s.raised
    ensures AllRaised(setup.policy, t.tracked.history.emitted, t.raised)
  {
    if r.Some? { DeservesIsDecided(setup.policy, r.value); }
    hide Deserves, CandidateOf, CandidateFor;
    var emitted := t.tracked.history.emitted;
    forall i | 0 <= i < |emitted| && Deserves(setup.policy, emitted[i]) ensures CandidateOf(emitted[i]) in t.raised {
      if i < |s.tracked.history.emitted| { assert emitted[i] == s.tracked.history.emitted[i]; }
    }
  }

  /** Finding ids are handed out one by one. */
  lemma EmittedIds(s: Tracked, t: Tracked, r: Option<SecurityFinding>)
    requires CorrelationRuns.Invariant(s) && CorrelationRuns.Invariant(t)
    requires t.history.emitted == s.history.emitted + Optional(r)
    ensures t.engine.nextFindingId == s.engine.nextFindingId + |Optional(r)|
    ensures r.Some? ==> r.value.id == s.engine.nextFindingId
  {
    hide Limits, KeysOk, AllGrounded, Newest;
    if r.Some? { assert t.history.emitted[|s.history.emitted|] == r.value; }
  }

  lemma ProcessKeepsIds(setup: Setup, s: Whole, t: Whole, r: Option<SecurityFinding>)
    requires IdsAscend(s.raised, s.tracked.engine.nextFindingId)
    requires DecisionsBelow(s.decisions, s.tracked.engine.nextFindingId) && t.decisions == s.decisions
    requires t.tracked.engine.nextFindingId == s.tracked.engine.nextFindingId + |Optional(r)|
    requires r.Some? ==> r.value.id == s.tracked.engine.nextFindingId
    requires var c := Candidate(r, setup.policy); t.raised == if c.Some? then s.raised + [c.value] else s.raised
    ensures IdsAscend(t.raised, t.tracked.engine.nextFindingId)
    ensures DecisionsBelow(t.decisions, t.tracked.engine.nextFindingId)
  {
    hide Policy.Decide;
  }

  lemma ProcessKeepsCandidates(setup: Setup, s: Whole, t: Whole, r: Option<SecurityFinding>)
    requires SameButStates(s.candidates, Newest(s.raised, MAX_CANDIDATES))
    requires StatesAreDecisions(s.candidates, s.decisions)
    requires DecisionsBelow(s.decisions, s.tracked.engine.nextFindingId) && t.decisions == s.decisions
    requires r.Some? ==> r.value.id == s.tracked.engine.nextFindingId
    requires var c := Candidate(r, setup.policy);
             && t.candidates == Pushed(s.candidates, c)
             && t.raised == if c.Some? then s.raised + [c.value] else s.raised
    ensures SameButStates(t.candidates, Newest(t.raised, MAX_CANDIDATES))
    ensures StatesAreDecisions(t.candidates, t.decisions)
  {
    hide Newest, SameButStates, StatesAreDecisions, DecisionsBelow, StateIsDecision, Policy.Decide;
    var c := Candidate(r, setup.policy);
    if c.Some? {
      PushNewest(s.raised, s.candidates, c.value);
      NewIsUndecided(c.value, s.decisions);
      PushedStates(s.candidates, c.value, s.decisions);
    }
  }

  lemma ProcessKeepsInvariant(setup: Setup, s: Whole, o: SecurityObservation, now: int, t: Whole,
        r: Option<SecurityFinding>)
    requires Invariant(setup, s) && Processed(setup, s, o, now, t, r)
    ensures Invariant(setup, t)
  {
    var window := setup.policy.findingWindow;
    hide CorrelationRuns.Invariant, CorrelationRuns.Step, AllFounded, AllRaised, IdsAscend, SameButStates, DecidedOnce,
         DecisionsBelow, StatesAreDecisions, VaultApproved, Newest, Candidate, Pushed;
    CorrelationRuns.StepKeepsInvariant(window, s.tracked, Ingest(o, now), t.tracked, r);
    HistoryGrows(window, s.tracked, o, now, t.tracked, r);
    EmittedIds(s.tracked, t.tracked, r);
    ProcessKeepsFounded(setup, s, t, r);
    ProcessRaises(setup, s, t, r);
    ProcessKeepsIds(setup, s, t, r);
    ProcessKeepsCandidates(setup, s, t, r);
  }

  lemma NewIsUndecided(c: RemediationCandidate, decisions: seq<Decision>)
    requires c.approvalState == PendingApproval && DecisionsBelow(decisions, c.findingId)
    ensures StateIsDecision(c, decisions)
  {}

  lemma PushedStates(cs: seq<RemediationCandidate>, c: RemediationCandidate, decisions: seq<Decision>)
    requires StatesAreDecisions(cs, decisions) && StateIsDecision(c, decisions)
    ensures StatesAreDecisions(Pushed(cs, Some(c)), decisions)
  {
    hide StateIsDecision;
  }

  // ---- Deciding ----

  lemma CandidateIds(s: Whole, below: nat)
    requires IdsAscend(s.raised, below) && SameButStates(s.candidates, Newest(s.raised, MAX_CANDIDATES))
    ensures IdsAscend(s.candidates, below)
  {
    var newest := Newest(s.raised, MAX_CANDIDATES);
    assert forall i :: 0 <= i < |newest| ==> newest[i].findingId == s.raised[|s.raised| - |newest| + i].findingId;
    forall i | 0 <= i < |newest| ensures s.candidates[i].findingId == newest[i].findingId {
      assert SameButState(s.candidates[i], newest[i]);
    }
    hide Newest, SameButStates, SameButState;
  }

  lemma DecideKeepsStates(cs: seq<RemediationCandidate>, decisions: seq<Decision>, i: nat,
        target: CandidateApprovalState,
                          below: nat)
    requires i < |cs| && cs[i].approvalState == PendingApproval && target != PendingApproval
    requires IdsAscend(cs, below) && StatesAreDecisions(cs, decisions) && DecidedOnce(decisions)
    ensures var more := decisions + [Decision(cs[i].findingId, target)];
            DecidedOnce(more) && StatesAreDecisions(cs[i := cs[i].(approvalState := target)], more)
  {
    var more := decisions + [Decision(cs[i].findingId, target)];
    assert StateIsDecision(cs[i], decisions);
    assert more[|decisions|] == Decision(cs[i].findingId, target);
    var after := cs[i := cs[i].(approvalState := target)];
    forall k | 0 <= k < |after| ensures StateIsDecision(after[k], more) {
      assert k != i ==> StateIsDecision(cs[k], decisions) && cs[k].findingId != cs[i].findingId;
    }
  }

  lemma DecideKeepsInvariant(setup: Setup, s: Whole, id: nat, target: CandidateApprovalState, t: Whole)
    requires Invariant(setup, s) && Next(setup, s, Decide(id, target), t)
    ensures Invariant(setup, t)
  {
    var below := s.tracked.engine.nextFindingId;
    var i := IndexOf(s.candidates, id);
    hide CorrelationRuns.Invariant, Founded, Newest;
    if t.candidates != s.candidates {
      CandidateIds(s, below);
      var after := s.candidates[i].(approvalState := target);
      assert t.candidates == s.candidates[i := after] && t.decisions == s.decisions + [Decision(id, target)];
      DecideKeepsStates(s.candidates, s.decisions, i, target, below);
      assert SameButState(s.candidates[i], Newest(s.raised, MAX_CANDIDATES)[i]);
    }
  }

  // ---- Executing ----

  lemma ExecuteKeepsApproved(cfg: Quarantine.Config, candidates: seq<RemediationCandidate>, vault: Quarantine.State,
                             loaded: nat, decisions: seq<Decision>, id: nat, now: int, f: Quarantine.Faults)
    requires StatesAreDecisions(candidates, decisions) && VaultApproved(vault, loaded, decisions)
    ensures VaultApproved(AfterExecute(cfg, candidates, vault, id, now, f).1, loaded, decisions)
  {
    var i := IndexOf(candidates, id);
    if i < |candidates| {
      assert StateIsDecision(candidates[i], decisions);
      hide Quarantine.AfterMove, Quarantine.Moves, Quarantine.VaultPath, Ledger.LedgerLine, Quarantine.Appended;
      var after := AfterExecute(cfg, candidates, vault, id, now, f).1;
      if after.ledger != vault.ledger {
        assert candidates[i].approvalState == Approved;
        assert IsApproved(after.ledger[|vault.ledger|], decisions);
      }
    }
  }

  lemma VaultOpKeepsApproved(cfg: Quarantine.Config, vault: Quarantine.State, op: QuarantineRuns.Op, loaded: nat,
        decisions: seq<Decision>)
    requires VaultApproved(vault, loaded, decisions) && !op.DoQuarantine?
    ensures VaultApproved(QuarantineRuns.Step(cfg, vault, op).1, loaded, decisions)
  {
    hide Quarantine.AfterMoveBack, Quarantine.AfterErase, Quarantine.Rewritten, Quarantine.CanRestore,
         Quarantine.MovesBack;
  }

  // ---- Runs ----

  lemma NextKeepsInvariant(setup: Setup, s: Whole, e: Event, t: Whole)
    requires Invariant(setup, s) && Next(setup, s, e, t)
    ensures Invariant(setup, t)
  {
    match e
    case Process(o, now) =>
      var r :| Processed(setup, s, o, now, t, r);
      ProcessKeepsInvariant(setup, s, o, now, t, r);
    case Decide(id, target) => DecideKeepsInvariant(setup, s, id, target, t);
    case Execute(id, now, f) =>
      hide CorrelationRuns.Invariant, Founded, Newest, AfterExecute, StatesAreDecisions;
      ExecuteKeepsApproved(setup.executor, s.candidates, s.vault, setup.loaded, s.decisions, id, now, f);
    case RestoreOrShred(op) =>
      hide CorrelationRuns.Invariant, Founded, Newest, QuarantineRuns.Step, StatesAreDecisions;
      VaultOpKeepsApproved(setup.executor, s.vault, op, setup.loaded, s.decisions);
  }

  ghost predicate IsRun(setup: Setup, events: seq<Event>, states: seq<Whole>) {
    && |states| == |events| + 1 && Starts(setup, states[0])
    && forall i :: 0 <= i < |events| ==> Next(setup, states[i], events[i], states[i + 1])
  }

  lemma StartIsSound(setup: Setup, s: Whole)
    requires Starts(setup, s)
    ensures Invariant(setup, s)
  {
    assert CorrelationRuns.Invariant(START) by { CorrelationRuns.RunKeepsInvariant(0, []); }
    hide CorrelationRuns.Invariant;
  }

  lemma {:induction false} EveryStateIsSound(setup: Setup, events: seq<Event>, states: seq<Whole>, i: nat)
    requires IsRun(setup, events, states) && i < |states|
    ensures Invariant(setup, states[i])
  {
    hide Next, Invariant, Starts;
    if i > 0 {
      EveryStateIsSound(setup, events, states, i - 1);
      assert Next(setup, states[i - 1], events[i - 1], states[i - 1 + 1]);
      NextKeepsInvariant(setup, states[i - 1], events[i - 1], states[i]);
    } else {
      StartIsSound(setup, states[0]);
    }
  }

  lemma CandidateIsFounded(setup: Setup, s: Whole, k: nat)
    requires AllFounded(setup.policy, s.tracked, s.raised)
    requires SameButStates(s.candidates, Newest(s.raised, MAX_CANDIDATES))
    requires k < |s.candidates|
    ensures Founded(setup.policy, s.tracked, s.candidates[k])
  {
    var newest := Newest(s.raised, MAX_CANDIDATES);
    var original := newest[k];
    assert SameButState(s.candidates[k], original) && original == s.raised[|s.raised| - |newest| + k];
    assert Founded(setup.policy, s.tracked, original);
    hide AllFounded, SameButStates, Newest;
    FoundedInAnyState(setup.policy, s.tracked, s.candidates[k], original);
  }

  lemma FoundedInAnyState(policy: LocalSecurityPolicy, s: Tracked, c: RemediationCandidate,
                          original: RemediationCandidate)
    requires SameButState(c, original) && Founded(policy, s, original)
    ensures Founded(policy, s, c)
  {
    hide DetailsGrounded, Concerns, IsProtected;
    var f :| 0 <= f < |s.history.emitted| && WellFounded(policy, original, s.history.emitted[f], s.history.seen);
    assert WellFounded(policy, c, s.history.emitted[f], s.history.seen);
  }

  /** In every reachable state each candidate came from a CRITICAL finding with two distinct sources, one of
      them deterministic, and a path that is neither empty nor protected; and their finding ids ascend. */
  lemma CandidatesAreFounded(setup: Setup, events: seq<Event>, states: seq<Whole>, i: nat, k: nat)
    requires IsRun(setup, events, states) && i < |states| && k < |states[i].candidates|
    ensures Founded(setup.policy, states[i].tracked, states[i].candidates[k])
    ensures forall j :: 0 <= j < k ==> states[i].candidates[j].findingId < states[i].candidates[k].findingId
  {
    EveryStateIsSound(setup, events, states, i);
    var s := states[i];
    hide IsRun, Founded, CorrelationRuns.Invariant, AllFounded, SameButStates;
    CandidateIds(s, s.tracked.engine.nextFindingId);
    CandidateIsFounded(setup, s, k);
  }

  /** And the other way round: a finding that was emitted has a candidate with its id exactly when it is deterministic,
      CRITICAL, at the threshold or above it, and about a path that is neither empty nor protected. Among the newest
      2000, it is still listed. */
  lemma CandidatesAreComplete(setup: Setup, events: seq<Event>, states: seq<Whole>, i: nat, k: nat)
    requires IsRun(setup, events, states) && i < |states| && k < |states[i].tracked.history.emitted|
    ensures var s, f := states[i], states[i].tracked.history.emitted[k];
            && ((exists c :: c in s.raised && c.findingId == f.id) <==> Deserves(setup.policy, f))
            && (Deserves(setup.policy, f) ==> CandidateOf(f) in s.raised)
            && SameButStates(s.candidates, Newest(s.raised, 2000))
  {
    EveryStateIsSound(setup, events, states, i);
    var s := states[i];
    hide IsRun, SameButStates, CorrelationRuns.Invariant, AllFounded, AllRaised, Newest, Deserves, CandidateOf;
    RaisedExactly(setup.policy, s.tracked, s.raised, k);
  }

  lemma RaisedExactly(policy: LocalSecurityPolicy, s: Tracked, raised: seq<RemediationCandidate>, k: nat)
    requires CorrelationRuns.Invariant(s) && AllFounded(policy, s, raised)
    requires AllRaised(policy, s.history.emitted, raised)
    requires k < |s.history.emitted|
    ensures var f := s.history.emitted[k];
            && ((exists c :: c in raised && c.findingId == f.id) <==> Deserves(policy, f))
            && (Deserves(policy, f) ==> CandidateOf(f) in raised)
  {
    var f := s.history.emitted[k];
    hide CorrelationRuns.Invariant, Founded, Deserves;
    assert Deserves(policy, f) ==> CandidateOf(f) in raised && CandidateOf(f).findingId == f.id;
    forall c | c in raised && c.findingId == f.id ensures Deserves(policy, f) {
      var j :| 0 <= j < |raised| && raised[j] == c;
      assert Founded(policy, s, raised[j]);
      FoundedDeserves(policy, s, c, k);
    }
  }

  /** Ids tell findings apart. */
  lemma FoundedDeserves(policy: LocalSecurityPolicy, s: Tracked, c: RemediationCandidate, k: nat)
    requires CorrelationRuns.Invariant(s) && Founded(policy, s, c)
    requires k < |s.history.emitted| && s.history.emitted[k].id == c.findingId
    ensures Deserves(policy, s.history.emitted[k])
  {
    hide Limits, KeysOk, AllGrounded, DetailsGrounded, Concerns;
    var emitted := s.history.emitted;
    var i :| 0 <= i < |emitted| && WellFounded(policy, c, emitted[i], s.history.seen);
    assert emitted[i].id == i + 1 && emitted[k].id == k + 1;
  }

  /** A candidate leaves PENDING_APPROVAL at most once over the whole run. */
  lemma DecidedAtMostOnce(setup: Setup, events: seq<Event>, states: seq<Whole>, i: nat, a: nat, b: nat)
    requires IsRun(setup, events, states) && i < |states|
    requires a < |states[i].decisions| && b < |states[i].decisions| && a != b
    ensures states[i].decisions[a].findingId != states[i].decisions[b].findingId
  {
    EveryStateIsSound(setup, events, states, i);
  }

  lemma ExecuteNeedsApproval(cfg: Quarantine.Config, candidates: seq<RemediationCandidate>, vault: Quarantine.State,
                             decisions: seq<Decision>, id: nat, now: int, f: Quarantine.Faults)
    requires StatesAreDecisions(candidates, decisions)
    requires AfterExecute(cfg, candidates, vault, id, now, f).1 != vault
    ensures Decision(id, Approved) in decisions
  {
    hide Quarantine.AfterMove, Quarantine.Moves, Quarantine.VaultPath, Ledger.LedgerLine, Quarantine.Appended;
    var i := IndexOf(candidates, id);
    assert i < |candidates| && candidates[i].approvalState == Approved;
    assert StateIsDecision(candidates[i], decisions);
  }

  /** The manager touches the vault, its ledger or any file only for a finding approved before. That covers
      a failed move, which may leave a copy in the vault without a record. */
  lemma VaultOnlyAfterApproval(setup: Setup, events: seq<Event>, states: seq<Whole>, i: nat)
    requires IsRun(setup, events, states) && i < |events| && events[i].Execute?
    requires states[i + 1].vault != states[i].vault
    ensures Decision(events[i].findingId, Approved) in states[i].decisions
    ensures Decision(events[i].findingId, Rejected) !in states[i].decisions
  {
    EveryStateIsSound(setup, events, states, i);
    var s, e := states[i], events[i];
    assert Next(setup, s, e, states[i + 1]);
    hide IsRun, CorrelationRuns.Invariant, AfterExecute, StatesAreDecisions, DecidedOnce;
    ExecuteNeedsApproval(setup.executor, s.candidates, s.vault, s.decisions, e.findingId, e.now, e.faults);
    OneOutcome(s.decisions, e.findingId);
  }

  /** One new record, for the candidate's path and finding, with the hash the file had. */
  ghost predicate EntersAs(cfg: Quarantine.Config, c: RemediationCandidate, before: Quarantine.State,
        after: Quarantine.State) {
    && c.approvalState == Approved && !IsProtected(c.targetPath, cfg.policy)
    && |after.ledger| == |before.ledger| + 1 && before.ledger <= after.ledger
    && var r := after.ledger[|before.ledger|];
       && r.findingId == c.findingId && r.originalPath == c.targetPath
       && c.targetPath in before.files && before.files[c.targetPath].File?
       && r.sha256 == cfg.hash(before.files[c.targetPath].bytes)
       && (c.expectedSha256 != "" ==> r.sha256 == c.expectedSha256)
  }

  lemma ExecuteEnters(cfg: Quarantine.Config, candidates: seq<RemediationCandidate>, vault: Quarantine.State,
                      id: nat, now: int, f: Quarantine.Faults)
    requires AfterExecute(cfg, candidates, vault, id, now, f).1.ledger != vault.ledger
    ensures var k := IndexOf(candidates, id);
            k < |candidates| && EntersAs(cfg, candidates[k], vault, AfterExecute(cfg, candidates, vault, id, now, f).1)
  {
    hide Quarantine.AfterMove, Quarantine.Moves, Quarantine.VaultPath, Ledger.LedgerLine, Quarantine.Appended,
         IsProtected;
  }

  /** And it is the file of an approved candidate that is founded in that very sense: the whole way from a
      few observations to a file in the vault. */
  lemma VaultedFileIsFounded(setup: Setup, events: seq<Event>, states: seq<Whole>, i: nat)
    requires IsRun(setup, events, states) && i < |events| && events[i].Execute?
    requires states[i + 1].vault.ledger != states[i].vault.ledger
    ensures var s := states[i]; var k := IndexOf(s.candidates, events[i].findingId);
            && k < |s.candidates| && Founded(setup.policy, s.tracked, s.candidates[k])
            && EntersAs(setup.executor, s.candidates[k], s.vault, states[i + 1].vault)
  {
    EveryStateIsSound(setup, events, states, i);
    var s, e := states[i], events[i];
    assert Next(setup, s, e, states[i + 1]);
    hide IsRun, EntersAs, CorrelationRuns.Invariant, AllFounded, SameButStates, Founded, AfterExecute;
    ExecuteEnters(setup.executor, s.candidates, s.vault, e.findingId, e.now, e.faults);
    CandidateIsFounded(setup, s, IndexOf(s.candidates, e.findingId));
  }

  lemma OneOutcome(decisions: seq<Decision>, findingId: nat)
    requires DecidedOnce(decisions) && Decision(findingId, Approved) in decisions
    ensures Decision(findingId, Rejected) !in decisions
  {
    var a :| 0 <= a < |decisions| && decisions[a] == Decision(findingId, Approved);
    forall b | 0 <= b < |decisions| ensures decisions[b] != Decision(findingId, Rejected) {
      if a != b { assert decisions[a].findingId != decisions[b].findingId; }
    }
  }
}
