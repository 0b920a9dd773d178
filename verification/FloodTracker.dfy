/** The per-source call tracker behind flood detection (src/engines/etg_ri_engine.cpp). */
module FloodTracker {
  import opened Common

  const FLOOD_THRESH: nat := 500
  const FLOOD_WINDOW: nat := 1_000_000_000   // one second in steady_clock ticks
  const PRUNE_ABOVE: nat := 512

  datatype Call = Call(source: u32, time: int)

  predicate Recent(t: int, now: int) {
    now - t <= FLOOD_WINDOW
  }

  /** The times of one source's calls, oldest first. */
  ghost function TimesOf(history: seq<Call>, source: u32): seq<int> {
    if |history| == 0 then []
    else
      var last := history[|history| - 1];
      TimesOf(history[..|history| - 1], source) + if last.source == source then [last.time] else []
  }

  /** How many of the times lie in the window that ends now. */
  ghost function CountRecent(times: seq<int>, now: int): nat {
    if |times| == 0 then 0
    else CountRecent(times[..|times| - 1], now) + if Recent(times[|times| - 1], now) then 1 else 0
  }

  ghost predicate Sorted(times: seq<int>) {
    forall i, j :: 0 <= i < j < |times| ==> times[i] <= times[j]
  }

  ghost predicate NoneRecent(times: seq<int>, now: int) {
    forall i :: 0 <= i < |times| ==> !Recent(times[i], now)
  }

  /** What is kept of a full list of times: a suffix, before which nothing is recent any more. */
  ghost predicate KeepsRecent(all: seq<int>, kept: seq<int>, now: int) {
    |kept| <= |all| && all[|all| - |kept|..] == kept && NoneRecent(all[..|all| - |kept|], now)
  }

  lemma {:induction false} CountSuffix(gone: seq<int>, kept: seq<int>, now: int)
    requires NoneRecent(gone, now) && forall i :: 0 <= i < |kept| ==> Recent(kept[i], now)
    ensures CountRecent(gone + kept, now) == |kept|
  {
    var all := gone + kept;
    if |kept| > 0 {
      CountSuffix(gone, kept[..|kept| - 1], now);
      assert all[..|all| - 1] == gone + kept[..|kept| - 1];
    } else if |gone| > 0 {
      CountSuffix(gone[..|gone| - 1], [], now);
      assert all == gone && gone[..|gone| - 1] + [] == gone[..|gone| - 1];
    }
  }

  /** Of a sorted list of times, counting the recent ones is counting what an expiry from the front
      leaves over. */
  lemma KeptIsCount(all: seq<int>, kept: seq<int>, now: int)
    requires KeepsRecent(all, kept, now) && Sorted(all)
    requires |kept| > 0 ==> Recent(kept[0], now)
    ensures CountRecent(all, now) == |kept|
  {
    var n := |all| - |kept|;
    forall i | 0 <= i < |kept| ensures Recent(kept[i], now) {
      assert all[n..][i] == all[n + i] && all[n..][0] == all[n];
    }
    CountSuffix(all[..n], kept, now);
    assert all == all[..n] + kept;
  }

  /** A call appends to its own source's times and to no other's. */
  lemma TimesOfSnoc(history: seq<Call>, call: Call, source: u32)
    ensures call.source == source ==> TimesOf(history + [call], source) == TimesOf(history, source) + [call.time]
    ensures call.source != source ==> TimesOf(history + [call], source) == TimesOf(history, source)
  {
    assert (history + [call])[..|history|] == history;
  }

  /** Calls come at non-decreasing times, none later than the clock. */
  ghost predicate InOrder(history: seq<Call>, clock: int) {
    && (forall i, j :: 0 <= i < j < |history| ==> history[i].time <= history[j].time)
    && (forall i :: 0 <= i < |history| ==> history[i].time <= clock)
  }

  lemma {:induction false} TimesAreSorted(history: seq<Call>, source: u32, clock: int)
    requires InOrder(history, clock)
    ensures Sorted(TimesOf(history, source))
    ensures forall i :: 0 <= i < |TimesOf(history, source)| ==> TimesOf(history, source)[i] <= clock
  {
    if |history| > 0 {
      TimesAreSorted(history[..|history| - 1], source, history[|history| - 1].time);
    }
  }

  class FloodTracker {
    var connTracker: map<u32, seq<int>>
    ghost var history: seq<Call>
    ghost var clock: int   // time of the latest call

    /** The full list of a source's call times, and what is stored of it. */
    ghost predicate Tracks(source: u32)
      reads this
    {
      KeepsRecent(TimesOf(history, source), if source in connTracker then connTracker[source] else [], clock)
    }

    ghost predicate Valid()
      reads this
    {
      && (forall source: u32 :: Tracks(source))
      && InOrder(history, clock)
    }

    constructor (now: int)
      ensures Valid() && history == [] && clock == now
    {
      connTracker := map[];
      history := [];
      clock := now;
    }

    /** Drops times from the front as long as they are older than the window. */
    static method DropExpired(times: seq<int>, now: int, ghost all: seq<int>) returns (r: seq<int>)
      requires KeepsRecent(all, times, now)
      ensures KeepsRecent(all, r, now)
      ensures |r| > 0 ==> Recent(r[0], now)
    {
      r := times;
      while |r| > 0 && now - r[0] > FLOOD_WINDOW
        invariant KeepsRecent(all, r, now)
      {
        assert all[|all| - |r|] == r[0];
        r := r[1..];
      }
    }

    /** The periodic sweep over all sources: expired times go, and so do keys left empty. */
    method PruneAll(now: int)
      requires Valid() && clock <= now
      modifies this`connTracker, this`clock
      ensures Valid() && clock == now
    {
      AdvanceClock(now);
      var todo := connTracker.Keys;
      while todo != {}
        invariant Valid() && clock == now && todo <= connTracker.Keys
        decreases todo
      {
        var source :| source in todo;
        label before:
        assert Tracks(source);
        var times := DropExpired(connTracker[source], now, TimesOf(history, source));
        todo := todo - {source};
        if |times| == 0 {
          connTracker := connTracker - {source};
        } else {
          connTracker := connTracker[source := times];
        }
        forall s: u32 ensures Tracks(s) {
          assert old@before(Tracks(s));
          if s == source && |times| == 0 { assert times == []; }
        }
      }
    }

    /** Time passing never makes an expired entry recent again. */
    ghost method AdvanceClock(now: int)
      requires Valid() && clock <= now
      modifies this`clock
      ensures Valid() && clock == now
    {
      clock := now;
      forall s: u32 ensures Tracks(s) { assert old(Tracks(s)); }
    }

    /** The answer counts the whole call history, although most of it has been pruned. */
    method IsFlood(source: u32, now: int) returns (flood: bool)
      requires Valid() && clock <= now
      modifies this
      ensures Valid() && clock == now && history == old(history) + [Call(source, now)]
      ensures flood <==> CountRecent(TimesOf(history, source), now) > FLOOD_THRESH
    {
      hide TimesOf, CountRecent, NoneRecent;
      if |connTracker| > PRUNE_ABOVE { PruneAll(now); }
      AdvanceClock(now);
      var times := (if source in connTracker then connTracker[source] else []) + [now];
      label before:
      assert Tracks(source);
      Append(Call(source, now));
      ghost var all := TimesOf(history, source);
      times := DropExpired(times, now, all);
      connTracker := connTracker[source := times];
      forall s: u32 ensures Tracks(s) {
        assert old@before(Tracks(s));
        TimesOfSnoc(old@before(history), Call(source, now), s);
      }
      TimesAreSorted(history, source, now);
      KeptIsCount(all, times, now);
      flood := |times| > FLOOD_THRESH;
    }

    /** Records a call in the history; its source's stored times then need that time appended. */
    ghost method Append(call: Call)
      requires Valid() && call.time == clock
      modifies this`history
      ensures history == old(history) + [call] && InOrder(history, clock)
      ensures KeepsRecent(TimesOf(history, call.source),
                          (if call.source in connTracker then connTracker[call.source] else []) + [call.time], clock)
    {
      ghost var kept := if call.source in connTracker then connTracker[call.source] else [];
      ghost var past := TimesOf(history, call.source);
      assert Tracks(call.source);
      TimesOfSnoc(history, call, call.source);
      history := history + [call];
      ghost var all := TimesOf(history, call.source);
      assert all == past + [call.time];
      assert all[|all| - |kept + [call.time]|..] == kept + [call.time];
      assert all[..|all| - |kept + [call.time]|] == past[..|past| - |kept|];
    }
  }

  /** What call i of a run has to be answered: the count of its source's calls so far in its window. */
  ghost predicate IsFloodAt(calls: seq<Call>, i: nat)
    requires i < |calls|
  {
    CountRecent(TimesOf(calls[..i + 1], calls[i].source), calls[i].time) > FLOOD_THRESH
  }

  /** Any run of calls at non-decreasing times: every answer counts the history up to that call. */
  method RunCalls(calls: seq<Call>) returns (answers: seq<bool>)
    requires forall i, j :: 0 <= i < j < |calls| ==> calls[i].time <= calls[j].time
    ensures |answers| == |calls|
    ensures forall i :: 0 <= i < |calls| ==> (answers[i] <==> IsFloodAt(calls, i))
  {
    hide IsFloodAt;
    answers := [];
    if |calls| == 0 { return; }
    var tracker := new FloodTracker(calls[0].time);
    for i := 0 to |calls|
      invariant tracker.Valid() && fresh(tracker) && tracker.history == calls[..i] && |answers| == i
      invariant tracker.clock <= calls[if i < |calls| then i else i - 1].time
      invariant forall k :: 0 <= k < i ==> (answers[k] <==> IsFloodAt(calls, k))
    {
      var flood := AnswerCall(tracker, calls, i);
      answers := answers + [flood];
    }
  }

  method AnswerCall(tracker: FloodTracker, calls: seq<Call>, i: nat) returns (flood: bool)
    requires i < |calls| && forall j :: i < j < |calls| ==> calls[i].time <= calls[j].time
    requires tracker.Valid() && tracker.history == calls[..i] && tracker.clock <= calls[i].time
    modifies tracker
    ensures tracker.Valid() && tracker.history == calls[..i + 1] && tracker.clock == calls[i].time
    ensures flood <==> IsFloodAt(calls, i)
  {
    hide TimesOf, CountRecent;
    flood := tracker.IsFlood(calls[i].source, calls[i].time);
    assert calls[..i + 1] == calls[..i] + [calls[i]];
  }

  // ---- What is counted ----

  /** The calls of a source among the first n that came within one second before now. */
  ghost function CallsWithin(calls: seq<Call>, n: nat, source: u32, now: int): set<nat>
    requires n <= |calls|
  {
    set j: nat | j < n && calls[j].source == source && now - calls[j].time <= 1_000_000_000
  }

  lemma CountSnoc(times: seq<int>, t: int, now: int)
    ensures CountRecent(times + [t], now) == CountRecent(times, now) + if now - t <= 1_000_000_000 then 1 else 0
  {
    assert (times + [t])[..|times|] == times;
  }

  lemma WithinSnoc(calls: seq<Call>, n: nat, source: u32, now: int)
    requires n < |calls|
    ensures |CallsWithin(calls, n + 1, source, now)| == |CallsWithin(calls, n, source, now)|
              + if calls[n].source == source && now - calls[n].time <= 1_000_000_000 then 1 else 0
  {
    var before, after := CallsWithin(calls, n, source, now), CallsWithin(calls, n + 1, source, now);
    var counts := calls[n].source == source && now - calls[n].time <= 1_000_000_000;
    forall j: nat ensures j in after <==> j in before || (counts && j == n) {}
    assert n !in before;
    hide CallsWithin;
    assert after == if counts then before + {n} else before;
  }

  lemma {:induction false} CountIsCalls(calls: seq<Call>, n: nat, source: u32, now: int)
    requires n <= |calls|
    ensures CountRecent(TimesOf(calls[..n], source), now) == |CallsWithin(calls, n, source, now)|
  {
    if n > 0 {
      var before := calls[..n - 1];
      assert calls[..n] == before + [calls[n - 1]];
      hide CountRecent, TimesOf, CallsWithin;
      CountIsCalls(calls, n - 1, source, now);
      TimesOfSnoc(before, calls[n - 1], source);
      CountSnoc(TimesOf(before, source), calls[n - 1].time, now);
      WithinSnoc(calls, n - 1, source, now);
    } else {
      assert CallsWithin(calls, 0, source, now) == {};
    }
  }

  /** A call is answered with a flood exactly when more than 500 calls of its source, itself included, came within the
      second before it. */
  lemma FloodMeans(calls: seq<Call>, i: nat)
    requires i < |calls|
    ensures IsFloodAt(calls, i) <==> |CallsWithin(calls, i + 1, calls[i].source, calls[i].time)| > 500
  {
    CountIsCalls(calls, i + 1, calls[i].source, calls[i].time);
  }
}
