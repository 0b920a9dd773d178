/** What an engine reports to the pipeline (include/gcad/security/observation.hpp). */
module Observation {
  import opened Common
  import opened Decimal

  datatype ThreatLevel = Safe | Low | Medium | High | Critical {
    /** The order the enumeration values are compared in. */
    function Rank(): (r: nat)
      ensures r <= 4
    {
      match this case Safe => 0 case Low => 1 case Medium => 2 case High => 3 case Critical => 4
    }
  }

  const OBSERVATION_KINDS: nat := 15

  type ObservationKind = k: nat | k < OBSERVATION_KINDS

  /** `timestamp` counts clock ticks; `kind` is the enumeration value. */
  datatype SecurityObservation = SecurityObservation(
    sourceId: string,
    kind: ObservationKind,
    timestamp: int,
    suggestedLevel: ThreatLevel,
    confidence: real,
    deterministic: bool,
    processId: u32,
    processName: string,
    filePath: string,
    sha256: string,
    evidence: string)
  {
    predicate Valid() {
      && sourceId != "" && evidence != ""
      && 0.0 <= confidence <= 1.0
      && suggestedLevel != Safe
    }

    function Identity(): string {
      if sha256 != "" then Normalize(sha256)
      else if filePath != "" then Normalize(filePath)
      else if processId != 0 then "pid:" + ToString(processId)
      else Normalize(processName)
    }

    function CorrelationKey(): string {
      ToString(kind) + ":" + Identity()
    }
  }

  function AsciiLower(c: char): char {
    if 'A' <= c <= 'Z' then c - 'A' + 'a' else c
  }

  /** Backslashes to slashes, letters to lower case. */
  function NormalizeChar(c: char): char {
    if c == '\\' then '/' else AsciiLower(c)
  }

  function Normalize(s: string): (t: string)
    ensures |t| == |s| && forall i :: 0 <= i < |s| ==> t[i] == NormalizeChar(s[i])
  {
    seq(|s|, i requires 0 <= i < |s| => NormalizeChar(s[i]))
  }

  /** Observations of different kinds never correlate, whatever they name: the kind can be read off the
      key, because digits hold no colon. */
  lemma KeyTellsKind(a: SecurityObservation, b: SecurityObservation)
    requires a.CorrelationKey() == b.CorrelationKey()
    ensures a.kind == b.kind && a.Identity() == b.Identity()
  {
    var x, y := ToString(a.kind), ToString(b.kind);
    var k := a.CorrelationKey();
    assert k[|x|] == ':' && k[|y|] == ':';
    assert forall i :: 0 <= i < |x| ==> k[i] == x[i];
    assert forall i :: 0 <= i < |y| ==> k[i] == y[i];
    assert |x| == |y|;
    assert x == k[..|x|] == y;
    ToStringInjective(a.kind, b.kind);
    assert a.Identity() == k[|x| + 1..] == b.Identity();
  }

  /** Spelling a hash or path in another case, or with the other slash, does not split a key. */
  lemma KeyIgnoresSpelling(a: SecurityObservation, b: SecurityObservation)
    requires a.kind == b.kind && Normalize(a.sha256) == Normalize(b.sha256)
    requires Normalize(a.filePath) == Normalize(b.filePath) && Normalize(a.processName) == Normalize(b.processName)
    requires a.processId == b.processId
    ensures a.CorrelationKey() == b.CorrelationKey()
  {
    assert |Normalize(a.sha256)| == |a.sha256| && |Normalize(b.sha256)| == |b.sha256|;
    assert |Normalize(a.filePath)| == |a.filePath| && |Normalize(b.filePath)| == |b.filePath|;
  }

  /** Two spellings of one character: the same, letters of either case, or slashes of either direction. */
  predicate SameSpelling(c: char, d: char) {
    || c == d
    || ('a' <= c <= 'z' && d as int == c as int - 32) || ('a' <= d <= 'z' && c as int == d as int - 32)
    || (c == '/' && d == '\\') || (c == '\\' && d == '/')
  }

  /** Normalisation identifies exactly the spellings of one text. */
  lemma NormalizeMeans(s: string, t: string)
    ensures Normalize(s) == Normalize(t)
            <==> |s| == |t| && forall i :: 0 <= i < |s| ==> SameSpelling(s[i], t[i])
  {
    if |s| == |t| {
      forall i | 0 <= i < |s| ensures Normalize(s)[i] == Normalize(t)[i] <==> SameSpelling(s[i], t[i]) {}
    } else {
      assert |Normalize(s)| != |Normalize(t)|;
    }
  }

  lemma KeyIsKindAndIdentity(a: SecurityObservation, b: SecurityObservation)
    ensures a.CorrelationKey() == b.CorrelationKey() <==> a.kind == b.kind && a.Identity() == b.Identity()
  {
    if a.CorrelationKey() == b.CorrelationKey() { KeyTellsKind(a, b); }
  }

  /** Observations with a hash correlate exactly when kind and hash agree, whatever else they name. */
  lemma HashDecides(a: SecurityObservation, b: SecurityObservation)
    requires a.sha256 != "" && b.sha256 != ""
    ensures a.CorrelationKey() == b.CorrelationKey() <==> a.kind == b.kind && Normalize(a.sha256) == Normalize(b.sha256)
  {
    KeyIsKindAndIdentity(a, b);
  }

  /** Those with a path but no hash, exactly when kind and path agree. */
  lemma PathDecides(a: SecurityObservation, b: SecurityObservation)
    requires a.sha256 == "" && b.sha256 == "" && a.filePath != "" && b.filePath != ""
    ensures a.CorrelationKey() == b.CorrelationKey()
            <==> a.kind == b.kind && Normalize(a.filePath) == Normalize(b.filePath)
  {
    KeyIsKindAndIdentity(a, b);
  }

  /** Those with neither, exactly when kind and process id agree. */
  lemma ProcessDecides(a: SecurityObservation, b: SecurityObservation)
    requires a.sha256 == "" && b.sha256 == "" && a.filePath == "" && b.filePath == ""
    requires a.processId != 0 && b.processId != 0
    ensures a.CorrelationKey() == b.CorrelationKey() <==> a.kind == b.kind && a.processId == b.processId
  {
    KeyIsKindAndIdentity(a, b);
    if a.Identity() == b.Identity() {
      var s, t := ToString(a.processId), ToString(b.processId);
      assert ("pid:" + s)[4..] == s && ("pid:" + t)[4..] == t;
      ToStringInjective(a.processId, b.processId);
    }
  }

  /** And those with no process id either, exactly when kind and process name agree. */
  lemma NameDecides(a: SecurityObservation, b: SecurityObservation)
    requires a.sha256 == "" && b.sha256 == "" && a.filePath == "" && b.filePath == ""
    requires a.processId == 0 && b.processId == 0
    ensures a.CorrelationKey() == b.CorrelationKey()
            <==> a.kind == b.kind && Normalize(a.processName) == Normalize(b.processName)
  {
    KeyIsKindAndIdentity(a, b);
  }
}
