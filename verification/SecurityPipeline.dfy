/** From observations to remediation candidates and their approval (src/security/security_pipeline.cpp), and
    the calls of the engine manager that act on them (src/engine_manager.cpp). */
module SecurityPipeline {
  import opened Common
  import opened Observation
  import opened Policy
  import opened Correlation
  import Quarantine

  const MAX_CANDIDATES: nat := 2000

  function Pushed(candidates: seq<RemediationCandidate>, c: Option<RemediationCandidate>): seq<RemediationCandidate> {
    if c.None? then candidates
    else if |candidates| + 1 > MAX_CANDIDATES then (candidates + [c.value])[1..]
    else candidates + [c.value]
  }

  function Candidate(finding: Option<SecurityFinding>, policy: LocalSecurityPolicy): Option<RemediationCandidate> {
    if finding.None? then None else CandidateFor(finding.value, policy)
  }

  /** The first candidate for a finding, or the length. */
  function IndexOf(candidates: seq<RemediationCandidate>, findingId: nat): (i: nat)
    ensures i <= |candidates| && (i < |candidates| ==> candidates[i].findingId == findingId)
    ensures forall k :: 0 <= k < i ==> candidates[k].findingId != findingId
  {
    FirstWhere(candidates, (c: RemediationCandidate) => c.findingId == findingId)
  }

  /** A pending candidate takes on the target state; the same decision again is accepted, the opposite one
      refused. */
  function Transition(candidates: seq<RemediationCandidate>, findingId: nat, target: CandidateApprovalState)
    : (ErrorCode, seq<RemediationCandidate>)
  {
    var i := IndexOf(candidates, findingId);
    if i == |candidates| then (ErrNotFound, candidates)
    else if candidates[i].approvalState == target then (OK, candidates)
    else if candidates[i].approvalState != PendingApproval then (ErrInvalidTransition, candidates)
    else (OK, candidates[i := candidates[i].(approvalState := target)])
  }

  /** A decision that was taken stays: the same one again answers OK and changes nothing, the opposite one is refused
      and changes nothing; and what nobody raised is not found. */
  lemma DecisionStays(candidates: seq<RemediationCandidate>, findingId: nat, target: CandidateApprovalState,
                      other: CandidateApprovalState)
    requires target != PendingApproval && other != PendingApproval && other != target
    ensures var (code, after) := Transition(candidates, findingId, target);
            && (code == OK ==> Transition(after, findingId, target) == (OK, after)
                               && Transition(after, findingId, other) == (ErrInvalidTransition, after))
            && (code != OK ==> after == candidates)
            && (code == ErrNotFound <==> forall i :: 0 <= i < |candidates| ==> candidates[i].findingId != findingId)
  {
    var i := IndexOf(candidates, findingId);
    if i < |candidates| {
      var after := candidates[i := candidates[i].(approvalState := target)];
      assert after[i].findingId == findingId && forall k :: 0 <= k < i ==> after[k] == candidates[k];
    }
  }

  function AfterExecute(cfg: Quarantine.Config, candidates: seq<RemediationCandidate>, vault: Quarantine.State,
                        findingId: nat, now: int, f: Quarantine.Faults): (ErrorCode, Quarantine.State) {
    var i := IndexOf(candidates, findingId);
    if i == |candidates| then (ErrNotFound, vault)
    else Quarantine.AfterQuarantine(cfg, vault, candidates[i], now, f)
  }

  class SecurityPipeline {
    const policy: LocalSecurityPolicy
    const correlation: CorrelationEngine
    var candidates: seq<RemediationCandidate>

    constructor (policy: LocalSecurityPolicy)
      ensures this.policy == policy && correlation.policy == policy && fresh(correlation)
      ensures correlation.State() == Engine(map[], [], 1) && candidates == []
    {
      this.policy := policy;
      correlation := new CorrelationEngine(policy);
      candidates := [];
    }

    method Process(o: SecurityObservation, now: int) returns (ghost finding: Option<SecurityFinding>)
      modifies this`candidates, correlation
      ensures Ingested(old(correlation.State()), o, now, correlation.policy.findingWindow, correlation.State(), finding)
      ensures candidates == Pushed(old(candidates), Candidate(finding, policy))
    {
      var f := correlation.Ingest(o, now);
      finding := f;
      if f.None? { return; }
      var candidate := CandidateFor(f.value, policy);
      if candidate.None? { return; }
      candidates := candidates + [candidate.value];
      if |candidates| > MAX_CANDIDATES { candidates := candidates[1..]; }
    }

    method Find(findingId: nat) returns (i: nat)
      ensures i == IndexOf(candidates, findingId)
    {
      i := 0;
      while i < |candidates|
        invariant i <= |candidates| && forall k :: 0 <= k < i ==> candidates[k].findingId != findingId
      {
        if candidates[i].findingId == findingId { return; }
        i := i + 1;
      }
    }

    method TransitionCandidate(findingId: nat, target: CandidateApprovalState) returns (code: ErrorCode)
      modifies this`candidates
      ensures (code, candidates) == Transition(old(candidates), findingId, target)
    {
      var i := Find(findingId);
      if i == |candidates| { return ErrNotFound; }
      if candidates[i].approvalState == target { return OK; }
      if candidates[i].approvalState != PendingApproval { return ErrInvalidTransition; }
      candidates := candidates[i := candidates[i].(approvalState := target)];
      return OK;
    }

    /** execute_quarantine of the manager. */
    method ExecuteQuarantine(executor: Quarantine.QuarantineExecutor, findingId: nat, now: int, f: Quarantine.Faults)
      returns (code: ErrorCode)
      requires executor.disk as object != this && executor as object != this
      modifies executor, executor.disk
      ensures (code, executor.Contents()) ==
              AfterExecute(executor.cfg, candidates, old(executor.Contents()), findingId, now, f)
    {
      var i := Find(findingId);
      if i == |candidates| { return ErrNotFound; }
      code := executor.Quarantine(candidates[i], now, f);
    }
  }
}
