/** Which events are in a chain (src/engines/forensic_timeline_engine.cpp). */
module TimelineCoverage {
  import opened Common
  import opened Observation
  import opened ForensicTimeline

  /** A known stage, or a level of at least MEDIUM. */
  predicate Due(r: Report) {
    r.stage != 0 || r.level in {Medium, High, Critical}
  }

  ghost predicate InSome(chains: seq<CausalChain>, id: nat) {
    exists k :: 0 <= k < |chains| && id in chains[k].eventIds
  }

  /** Every event that is due is in a chain. */
  ghost predicate Covered(all: seq<TimelineEvent>, chains: seq<CausalChain>) {
    forall i :: 0 <= i < |all| && Due(all[i].report) ==> InSome(chains, i + 1)
  }

  predicate StartsDue(all: seq<TimelineEvent>, c: CausalChain) {
    c.eventIds != [] && 1 <= c.eventIds[0] <= |all| && Due(all[c.eventIds[0] - 1].report)
  }

  /** Every chain began with such an event. */
  ghost predicate AllStartDue(all: seq<TimelineEvent>, chains: seq<CausalChain>) {
    forall k :: 0 <= k < |chains| ==> StartsDue(all, chains[k])
  }

  /** A chain grows or one is added, so nothing leaves a chain; and the event is in one if it is due. */
  lemma StaysIn(s: Timeline, e: TimelineEvent, id: nat)
    requires InSome(EveryChain(s), id)
    ensures InSome(EveryChain(WithChains(s, e)), id)
  {
    EveryChainAfter(s, e);
    var before, after := EveryChain(s), EveryChain(WithChains(s, e));
    var k :| 0 <= k < |before| && id in before[k].eventIds;
    hide WithChains, EveryChain, Notable, NewChain;
    assert id in after[k].eventIds;
  }

  lemma ComesIn(s: Timeline, e: TimelineEvent)
    requires Due(e.report)
    ensures InSome(EveryChain(WithChains(s, e)), e.id)
  {
    EveryChainAfter(s, e);
    var before, after := EveryChain(s), EveryChain(WithChains(s, e));
    var i := ChainOf(s.chains, e.causalParent);
    if e.causalParent != 0 && i < |s.chains| {
      hide WithChains;
      assert e.id in after[|s.gone| + i].eventIds;
    } else {
      hide WithChains;
      assert e.id in after[|before|].eventIds;
    }
  }

  lemma StartsStayDue(s: Timeline, e: TimelineEvent)
    requires AllStartDue(s.all, EveryChain(s)) && e.id == |s.all| + 1
    ensures AllStartDue(s.all + [e], EveryChain(WithChains(s, e)))
  {
    EveryChainAfter(s, e);
    var before, after := EveryChain(s), EveryChain(WithChains(s, e));
    hide WithChains;
    forall k | 0 <= k < |after| ensures StartsDue(s.all + [e], after[k]) {
      if k < |before| {
        assert StartsDue(s.all, before[k]);
        assert after[k].eventIds[0] == before[k].eventIds[0];
      } else {
        assert after[k].eventIds == [e.id] && (s.all + [e])[e.id - 1] == e;
        assert e.report.level.Rank() >= 2 || e.report.stage != 0;
      }
    }
  }

  lemma CoversMore(s: Timeline, e: TimelineEvent)
    requires Covered(s.all, EveryChain(s)) && e.id == |s.all| + 1
    ensures Covered(s.all + [e], EveryChain(WithChains(s, e)))
  {
    hide WithChains, EveryChain, Due, InSome;
    var all := s.all + [e];
    forall i | 0 <= i < |all| && Due(all[i].report) ensures InSome(EveryChain(WithChains(s, e)), i + 1) {
      if i < |s.all| {
        assert all[i] == s.all[i];
        StaysIn(s, e, i + 1);
      } else {
        ComesIn(s, e);
      }
    }
  }

  /** An ingest is one event more, and the chains that go with it. */
  lemma IngestIs(s: Timeline, r: Report)
    requires Invariant(s)
    ensures var e := TimelineEvent(s.nextId, r, CauseOf(s.events, r));
            && e.id == |s.all| + 1 && Ingested(s, r).all == s.all + [e]
            && EveryChain(Ingested(s, r)) == EveryChain(WithChains(s, e))
  {
    var e := TimelineEvent(s.nextId, r, CauseOf(s.events, r));
    OneMoreEvent(s, r);
    SameChains(s, s.(nextId := s.nextId + 1, events := Newest(s.events + [e], MAX_EVENTS), all := s.all + [e]), e);
    hide WithChains, EveryChain, CauseOf, Newest;
  }

  lemma IngestCovers(s: Timeline, r: Report)
    requires Invariant(s) && Covered(s.all, EveryChain(s)) && AllStartDue(s.all, EveryChain(s))
    ensures var t := Ingested(s, r); Covered(t.all, EveryChain(t)) && AllStartDue(t.all, EveryChain(t))
  {
    hide *;
    var e := TimelineEvent(s.nextId, r, CauseOf(s.events, r));
    IngestIs(s, r);
    StartsStayDue(s, e);
    CoversMore(s, e);
  }

  /** The chains do not depend on what else has been updated. */
  lemma SameChains(s: Timeline, u: Timeline, e: TimelineEvent)
    requires u.chains == s.chains && u.gone == s.gone && u.nextChainId == s.nextChainId
    ensures EveryChain(WithChains(u, e)) == EveryChain(WithChains(s, e)) && EveryChain(u) == EveryChain(s)
  {}

  lemma {:induction false} RunCovers(reports: seq<Report>)
    ensures var s := Run(reports); Covered(s.all, EveryChain(s)) && AllStartDue(s.all, EveryChain(s))
  {
    if |reports| > 0 {
      var before := reports[..|reports| - 1];
      RunCovers(before);
      RunKeepsInvariant(before);
      IngestCovers(Run(before), reports[|reports| - 1]);
    }
  }

  lemma OneMoreEvent(s: Timeline, r: Report)
    ensures Ingested(s, r).all == s.all + [TimelineEvent(s.nextId, r, CauseOf(s.events, r))]
  {
    var e := TimelineEvent(s.nextId, r, CauseOf(s.events, r));
    ChainsOnly(s.(nextId := s.nextId + 1, events := Newest(s.events + [e], MAX_EVENTS), all := s.all + [e]), e);
    hide WithChains, CauseOf, Newest;
  }

  lemma {:induction false} RunHoldsReports(reports: seq<Report>)
    ensures |Run(reports).all| == |reports|
    ensures forall i :: 0 <= i < |reports| ==> Run(reports).all[i].report == reports[i]
  {
    hide Ingested, CauseOf;
    if |reports| > 0 {
      var n := |reports| - 1;
      RunHoldsReports(reports[..n]);
      OneMoreEvent(Run(reports[..n]), reports[n]);
    }
  }

  /** After any number of reports: every event with a known stage or a level of MEDIUM, HIGH or CRITICAL is in exactly
      one chain, dropped ones included, and every chain began with such an event. */
  lemma DueEventsAreInOneChain(reports: seq<Report>, i: nat)
    requires i < |reports|
    ensures var chains := EveryChain(Run(reports));
            && (reports[i].stage != 0 || reports[i].level in {Medium, High, Critical} ==>
                  exists k :: 0 <= k < |chains| && i + 1 in chains[k].eventIds
                              && forall j :: 0 <= j < |chains| && j != k ==> i + 1 !in chains[j].eventIds)
            && forall k :: 0 <= k < |chains| ==>
                 && chains[k].eventIds != [] && 1 <= chains[k].eventIds[0] <= |reports|
                 && var first := reports[chains[k].eventIds[0] - 1];
                    first.stage != 0 || first.level in {Medium, High, Critical}
  {
    RunCovers(reports);
    RunHoldsReports(reports);
    ChainsAreSound(reports);
    var s := Run(reports);
    var chains := EveryChain(s);
    hide EveryChain, Run, ChainOk;
    if Due(reports[i]) {
      assert s.all[i].report == reports[i];
      var k :| 0 <= k < |chains| && i + 1 in chains[k].eventIds;
      forall j | 0 <= j < |chains| && j != k ensures i + 1 !in chains[j].eventIds {
        assert Disjoint(chains[if j < k then j else k], chains[if j < k then k else j]);
      }
    }
    forall k | 0 <= k < |chains| ensures StartsDue(s.all, chains[k]) {}
  }

  // ---- Numbers and summaries ----

  predicate SummaryOk(all: seq<TimelineEvent>, c: CausalChain) {
    && c.eventIds != [] && 1 <= c.eventIds[0] <= |all|
    && var first := all[c.eventIds[0] - 1].report;
       c.summary == StageName(first.stage) + ": " + first.description
  }

  /** Chains are numbered 1, 2, 3, ..., and each is summed up by its first event. */
  ghost predicate Labelled(s: Timeline) {
    && s.nextChainId == |EveryChain(s)| + 1
    && forall k :: 0 <= k < |EveryChain(s)| ==> EveryChain(s)[k].chainId == k + 1 && SummaryOk(s.all, EveryChain(s)[k])
  }

  lemma NextChainIdAfter(s: Timeline, e: TimelineEvent)
    ensures var before, after := EveryChain(s), EveryChain(WithChains(s, e));
            |after| - |before| == WithChains(s, e).nextChainId - s.nextChainId
  {
    EveryChainAfter(s, e);
    hide Notable, Extended, NewChain, Newest, Dropped;
  }

  lemma LabelsAfter(s: Timeline, e: TimelineEvent)
    requires Labelled(s) && e.id == |s.all| + 1
    ensures Labelled(WithChains(s, e).(all := s.all + [e]))
  {
    EveryChainAfter(s, e);
    NextChainIdAfter(s, e);
    var before, after, all := EveryChain(s), EveryChain(WithChains(s, e)), s.all + [e];
    assert EveryChain(WithChains(s, e).(all := all)) == after;
    hide WithChains, StageName;
    forall k | 0 <= k < |after| ensures after[k].chainId == k + 1 && SummaryOk(all, after[k]) {
      if k < |before| {
        assert SummaryOk(s.all, before[k]) && after[k].eventIds[0] == before[k].eventIds[0];
        assert all[before[k].eventIds[0] - 1] == s.all[before[k].eventIds[0] - 1];
      } else {
        assert after[k] == NewChain(s.nextChainId, e) && all[e.id - 1] == e;
      }
    }
  }

  /** After any number of reports. */
  lemma {:induction false} ChainsAreLabelled(reports: seq<Report>)
    ensures Labelled(Run(reports))
  {
    if |reports| > 0 {
      var n := |reports| - 1;
      var s, r := Run(reports[..n]), reports[n];
      ChainsAreLabelled(reports[..n]);
      RunKeepsInvariant(reports[..n]);
      var e := TimelineEvent(s.nextId, r, CauseOf(s.events, r));
      var u := s.(nextId := s.nextId + 1, events := Newest(s.events + [e], MAX_EVENTS), all := s.all + [e]);
      assert Run(reports) == WithChains(u, e) && e.id == |s.all| + 1;
      LabelsAfter(s, e);
      LabelsDependOnChains(s, u, e);
    }
  }

  lemma LabelsDependOnChains(s: Timeline, u: Timeline, e: TimelineEvent)
    requires u.chains == s.chains && u.gone == s.gone && u.nextChainId == s.nextChainId
    requires Labelled(WithChains(s, e).(all := u.all))
    ensures Labelled(WithChains(u, e))
  {
    hide SummaryOk, Newest, Dropped, Extended, NewChain, Notable;
  }

  // ---- The causal window ----

  /** An event breaks the search for a cause exactly when it is 301 seconds old or more. */
  lemma TooOldMeans(e: TimelineEvent, r: Report)
    ensures TooOld(e, r) <==> r.timestamp - e.report.timestamp >= 301 * 10_000_000
  {}

  // ---- What is held ----

  /** The newest 5000 events and the newest 200 chains are held, no more and no fewer. */
  lemma {:induction false} NewestAreHeld(reports: seq<Report>)
    ensures var s := Run(reports); s.events == Newest(s.all, 5000) && s.chains == Newest(EveryChain(s), 200)
  {
    if |reports| > 0 {
      var n := |reports| - 1;
      var s, r := Run(reports[..n]), reports[n];
      NewestAreHeld(reports[..n]);
      RunKeepsInvariant(reports);
      var e := TimelineEvent(s.nextId, r, CauseOf(s.events, r));
      var u := s.(nextId := s.nextId + 1, events := Newest(s.events + [e], MAX_EVENTS), all := s.all + [e]);
      assert Run(reports) == WithChains(u, e) && EveryChain(u) == EveryChain(s);
      hide Invariant, CauseOf, Run;
      ChainsHeld(u, e);
    }
  }

  lemma ChainsHeld(u: Timeline, e: TimelineEvent)
    requires u.chains == Newest(EveryChain(u), 200)
    ensures WithChains(u, e).chains == Newest(EveryChain(WithChains(u, e)), 200)
  {
    var t := WithChains(u, e);
    var i := ChainOf(u.chains, e.causalParent);
    if e.causalParent != 0 && i < |u.chains| {
      EndsWith(u.gone, t.chains);
    } else if Notable(e.report) {
      var grown := u.chains + [NewChain(u.nextChainId, e)];
      DroppedNewest(grown, 200);
      assert EveryChain(t) == u.gone + grown;
      NewestOfEnd(u.gone, grown);
      hide NewChain;
    }
  }

  lemma EndsWith(gone: seq<CausalChain>, chains: seq<CausalChain>)
    requires |chains| <= 200 && (gone == [] || |chains| == 200)
    ensures Newest(gone + chains, 200) == chains
  {}

  lemma NewestOfEnd(gone: seq<CausalChain>, grown: seq<CausalChain>)
    requires gone == [] || |grown| >= 200
    ensures Newest(gone + grown, 200) == Newest(grown, 200)
  {
    assert gone == [] ==> gone + grown == grown;
  }
}
