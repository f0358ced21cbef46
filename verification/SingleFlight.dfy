// Concurrent callers share one call in flight.
module SingleFlight {
  import opened Prelude

  // One call of the wrapped function, and what it settled with: a value or a failure.
  class Flight<T> {
    var outcome: Option<T>

    constructor ()
      ensures outcome == None
    {
      outcome := None;
    }
  }

  class SingleFlight<T> {
    var inFlight: Option<Flight<T>>
    ghost var started: seq<Flight<T>>

    /** Of all the calls ever started, the one in flight is the only one not settled. */
    ghost predicate Valid()
      reads this, started
    {
      && (forall f :: f in started ==> (f.outcome.None? <==> inFlight == Some(f)))
      && (inFlight.Some? ==> inFlight.value in started)
    }

    constructor ()
      ensures Valid() && started == []
    {
      inFlight := None;
      started := [];
    }

    /** Joins the call in flight; starts one only if there is none. */
    method Call() returns (f: Flight<T>)
      requires Valid()
      modifies this
      ensures Valid() && inFlight == Some(f)
      ensures old(inFlight).Some? ==> f == old(inFlight).value && started == old(started)
      ensures old(inFlight).None? ==> fresh(f) && started == old(started) + [f]
    {
      if inFlight.None? {
        f := new Flight<T>();
        inFlight := Some(f);
        started := started + [f];
      }
      f := inFlight.value;
    }

    /** Everyone who joined gets this outcome, and the next call starts afresh. */
    method Settle(outcome: T)
      requires Valid() && inFlight.Some?
      modifies this`inFlight, inFlight.value
      ensures Valid() && inFlight.None? && started == old(started)
      ensures old(inFlight).value.outcome == Some(outcome)
      ensures forall f :: f in started && f != old(inFlight).value ==> f.outcome == old(f.outcome)
    {
      inFlight.value.outcome := Some(outcome);
      inFlight := None;
    }
  }

  /** Any number of concurrent callers start one call, and all of them get its outcome. */
  method ShareOne<T>(flights: SingleFlight<T>, callers: nat, outcome: T) returns (joined: seq<Flight<T>>)
    requires flights.Valid() && flights.inFlight.None?
    modifies flights
    ensures flights.Valid() && flights.inFlight.None? && |joined| == callers
    ensures |flights.started| == |old(flights.started)| + if callers > 0 then 1 else 0
    ensures forall f :: f in joined ==> f.outcome == Some(outcome)
  {
    joined := [];
    for i := 0 to callers
      invariant flights.Valid() && |joined| == i
      invariant i == 0 ==> flights.inFlight.None? && flights.started == old(flights.started)
      invariant i > 0 ==> flights.inFlight.Some? && fresh(flights.inFlight.value)
                          && flights.started == old(flights.started) + [flights.inFlight.value]
      invariant forall f :: f in joined ==> flights.inFlight == Some(f)
    {
      var f := flights.Call();
      joined := joined + [f];
    }
    if callers > 0 { flights.Settle(outcome); }
  }
}
