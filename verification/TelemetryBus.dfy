/** The bounded queue between the engines and the worker (src/security/telemetry_bus.cpp). */
module TelemetryBus {
  import opened Common
  import opened Observation

  datatype PublishResult = Accepted | DroppedFull | RejectedInvalid | Closed

  datatype TelemetryMetrics = TelemetryMetrics(accepted: nat, droppedFull: nat, rejectedInvalid: nat,
        rejectedClosed: nat)
  {
    function Total(): nat {
      accepted + droppedFull + rejectedInvalid + rejectedClosed
    }

    /** The counter that belongs to a result. */
    function Of(r: PublishResult): nat {
      match r
      case Accepted => accepted
      case DroppedFull => droppedFull
      case RejectedInvalid => rejectedInvalid
      case Closed => rejectedClosed
    }

    function Count(r: PublishResult): TelemetryMetrics {
      match r
      case Accepted => this.(accepted := accepted + 1)
      case DroppedFull => this.(droppedFull := droppedFull + 1)
      case RejectedInvalid => this.(rejectedInvalid := rejectedInvalid + 1)
      case Closed => this.(rejectedClosed := rejectedClosed + 1)
    }
  }

  /** The state of a bus. */
  datatype Bus = Bus(capacity: nat, queue: seq<SecurityObservation>, closed: bool, metrics: TelemetryMetrics) {
    /** What a publish answers: an invalid observation is refused before anything else is looked at. */
    function Answer(o: SecurityObservation): PublishResult {
      if !o.Valid() then RejectedInvalid
      else if closed then Closed
      else if |queue| >= capacity then DroppedFull
      else Accepted
    }

    function Publish(o: SecurityObservation): Bus {
      this.(queue := if Answer(o) == Accepted then queue + [o] else queue, metrics := metrics.Count(Answer(o)))
    }

    function Pop(): Bus {
      if |queue| == 0 then this else this.(queue := queue[1..])
    }
  }

  /** Every publish on the bus raises the counter of its answer by one, and no other. */
  lemma PublishRaisesOneCounter(bus: Bus, o: SecurityObservation, r: PublishResult)
    ensures var after := bus.Publish(o).metrics;
            && after.Total() == bus.metrics.Total() + 1
            && after.Of(r) == bus.metrics.Of(r) + if r == bus.Answer(o) then 1 else 0
  {}

  function PublishAll(bus: Bus, os: seq<SecurityObservation>): Bus {
    if |os| == 0 then bus else PublishAll(bus, os[..|os| - 1]).Publish(os[|os| - 1])
  }

  /** An open bus takes valid observations in their order until it holds as many as its capacity, and drops every one
      after that. */
  lemma {:induction false} FillsToCapacity(bus: Bus, os: seq<SecurityObservation>)
    requires !bus.closed && bus.queue == [] && bus.metrics == TelemetryMetrics(0, 0, 0, 0)
    requires forall i :: 0 <= i < |os| ==> os[i].Valid()
    ensures var t := PublishAll(bus, os); var n := Min(|os|, bus.capacity);
            t == Bus(bus.capacity, os[..n], false, TelemetryMetrics(n, |os| - n, 0, 0))
  {
    if |os| > 0 {
      var before, last := os[..|os| - 1], os[|os| - 1];
      FillsToCapacity(bus, before);
      if |before| < bus.capacity {
        assert before[..|before|] == before && os[..|os|] == before + [last];
      } else {
        assert before[..bus.capacity] == os[..bus.capacity];
      }
    }
  }

  /** Whatever is not valid is refused as such, by a closed bus as well, and a closed bus refuses all the rest. */
  lemma RefusalsInOrder(bus: Bus, o: SecurityObservation)
    ensures !o.Valid() ==> bus.Answer(o) == RejectedInvalid
    ensures o.Valid() && bus.closed ==> bus.Answer(o) == Closed
    ensures bus.Answer(o) != Accepted ==> bus.Publish(o).queue == bus.queue
  {}

  class TelemetryBus {
    const capacity: nat
    var queue: seq<SecurityObservation>
    var closed: bool
    var metrics: TelemetryMetrics

    ghost function State(): Bus
      reads this
    {
      Bus(capacity, queue, closed, metrics)
    }

    constructor (capacity: nat)
      ensures State() == Bus(if capacity == 0 then 1 else capacity, [], false, TelemetryMetrics(0, 0, 0, 0))
    {
      this.capacity := Max(1, capacity);
      queue := [];
      closed := false;
      metrics := TelemetryMetrics(0, 0, 0, 0);
    }

    method Publish(o: SecurityObservation) returns (r: PublishResult)
      modifies this
      ensures r == old(State()).Answer(o) && State() == old(State()).Publish(o)
    {
      if !o.Valid() {
        metrics := metrics.(rejectedInvalid := metrics.rejectedInvalid + 1);
        return RejectedInvalid;
      }
      if closed {
        metrics := metrics.(rejectedClosed := metrics.rejectedClosed + 1);
        return Closed;
      }
      if |queue| >= capacity {
        metrics := metrics.(droppedFull := metrics.droppedFull + 1);
        return DroppedFull;
      }
      queue := queue + [o];
      metrics := metrics.(accepted := metrics.accepted + 1);
      return Accepted;
    }

    /** Also wait_pop, once its wait has ended: by then the queue holds something, the bus is closed, or
        the time is up. */
    method TryPop() returns (popped: Option<SecurityObservation>)
      modifies this`queue
      ensures State() == old(State()).Pop()
      ensures popped == if old(queue) == [] then None else Some(old(queue)[0])
    {
      if |queue| == 0 { return None; }
      popped := Some(queue[0]);
      queue := queue[1..];
    }

    method Close()
      modifies this`closed
      ensures State() == old(State()).(closed := true)
    {
      closed := true;
    }
  }
}
