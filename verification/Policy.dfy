/** Which findings may become remediation candidates (src/security/policy.cpp). */
module Policy {
  import opened Common
  import opened Observation

  datatype ResponseAction = ReportOnly | QuarantineCandidate

  datatype CandidateApprovalState = PendingApproval | Approved | Rejected

  datatype SecurityFinding = SecurityFinding(
    id: nat,
    timestamp: int,
    level: ThreatLevel,
    riskScore: int,
    deterministicSignature: bool,
    correlationKey: string,
    filePath: string,
    sha256: string,
    rationale: string,
    contributingSources: seq<string>)

  datatype RemediationCandidate = RemediationCandidate(
    findingId: nat,
    requestedAction: ResponseAction,
    approvalState: CandidateApprovalState,
    targetPath: string,
    expectedSha256: string,
    rationale: string)

  datatype LocalSecurityPolicy = LocalSecurityPolicy(
    criticalThreshold: nat,
    findingWindow: int,
    protectedPathPrefixes: seq<string>)

  /** Prefixes count up to letter case and the direction of the slashes. */
  predicate StartsWith(path: string, prefix: string) {
    Normalize(prefix) <= Normalize(path)
  }

  predicate IsProtected(path: string, policy: LocalSecurityPolicy) {
    exists i :: 0 <= i < |policy.protectedPathPrefixes| && StartsWith(path, policy.protectedPathPrefixes[i])
  }

  method PathStartsWith(path: string, prefix: string) returns (r: bool)
    ensures r <==> StartsWith(path, prefix)
  {
    if |path| < |prefix| { return false; }
    for i := 0 to |prefix|
      invariant Normalize(prefix)[..i] == Normalize(path)[..i]
    {
      var pathChar := if path[i] == '\\' then '/' else AsciiLower(path[i]);
      var prefixChar := if prefix[i] == '\\' then '/' else AsciiLower(prefix[i]);
      if pathChar != prefixChar {
        assert Normalize(path)[i] != Normalize(prefix)[i];
        return false;
      }
    }
    return true;
  }

  method IsProtectedPath(path: string, policy: LocalSecurityPolicy) returns (r: bool)
    ensures r <==> IsProtected(path, policy)
  {
    var prefixes := policy.protectedPathPrefixes;
    for i := 0 to |prefixes|
      invariant forall k :: 0 <= k < i ==> !StartsWith(path, prefixes[k])
    {
      var found := PathStartsWith(path, prefixes[i]);
      if found { return true; }
    }
    return false;
  }

  /** A protected directory protects everything below it, however the path is spelled. */
  lemma ProtectionCoversSubtree(path: string, below: string, respelled: string, policy: LocalSecurityPolicy)
    requires IsProtected(path, policy) && Normalize(respelled) == Normalize(path + below)
    ensures IsProtected(respelled, policy)
  {
    var i :| 0 <= i < |policy.protectedPathPrefixes| && StartsWith(path, policy.protectedPathPrefixes[i]);
    assert Normalize(path + below)[..|path|] == Normalize(path);
    assert StartsWith(respelled, policy.protectedPathPrefixes[i]);
  }

  function Decide(finding: SecurityFinding, policy: LocalSecurityPolicy): ResponseAction {
    if !finding.deterministicSignature || finding.level != Critical ||
       finding.riskScore < policy.criticalThreshold || finding.filePath == "" ||
       IsProtected(finding.filePath, policy)
    then ReportOnly
    else QuarantineCandidate
  }

  function CandidateFor(finding: SecurityFinding, policy: LocalSecurityPolicy): (c: Option<RemediationCandidate>)
    ensures c.Some? ==>
              && finding.level == Critical && finding.deterministicSignature
              && c.value.approvalState == PendingApproval && c.value.findingId == finding.id
              && c.value.targetPath != "" && !IsProtected(c.value.targetPath, policy)
  {
    if Decide(finding, policy) != QuarantineCandidate then None
    else Some(RemediationCandidate(finding.id, QuarantineCandidate, PendingApproval, finding.filePath,
                                   finding.sha256, finding.rationale))
  }
}
