/** The pairing state machine: one left-to-right pass over the events of one
    (driver, plate) group with a single pending-departure slot.

    Idle --departure--> Awaiting            (no record)
    Awaiting --departure--> Awaiting        (the pending departure is replaced, no record)
    Awaiting --arrival--> Idle              (a complete trip)
    Idle --arrival--> Idle                  (an orphan arrival)
    any state --other kind--> same state    (no record)
    Awaiting at the end of the group        (an open trip) */
module Pairing {
  import opened Records

  /** The state of one pass: the pending departure and the records emitted so far. */
  datatype Machine = Machine(pending: Option<Event>, trips: seq<Trip>, orphans: seq<Orphan>)

  /** What one group yields. */
  datatype Outcome = Outcome(trips: seq<Trip>, orphans: seq<Orphan>)

  const Idle: Machine := Machine(None, [], [])

  /** The trip record for departure dep met by arrival arr, in the group of key. */
  function CompleteTrip(key: GroupKey, dep: Event, arr: Event): (t: Trip)
    ensures t.status == Complete && WellFormed(t) && FromDeparture(t, key, dep)
    ensures t.arrivalTime == Some(arr.time) && t.endKm == Some(arr.km)
  {
    Trip(key.driver, key.plate, dep.model, dep.time, Some(arr.time), dep.km, Some(arr.km),
         Some(if arr.km > dep.km then arr.km - dep.km else 0), Some(arr.time - dep.time),
         dep.purpose, Complete)
  }

  /** The trip record for departure dep still pending at the end of the group of key. */
  function OpenTrip(key: GroupKey, dep: Event): (t: Trip)
    ensures t.status == Open && WellFormed(t) && FromDeparture(t, key, dep)
  {
    Trip(key.driver, key.plate, dep.model, dep.time, None, dep.km, None, None, None, dep.purpose, Open)
  }

  /** The orphan record for arrival arr in the group of key. */
  function OrphanOf(key: GroupKey, arr: Event): (o: Orphan)
    ensures o.driver == key.driver && o.plate == key.plate
    ensures o.model == arr.model && o.arrivalTime == arr.time && o.km == arr.km
  {
    Orphan(key.driver, key.plate, arr.model, arr.time, arr.km)
  }

  lemma KindsDiffer()
    ensures Departure != Arrival
  {
  }

  /** One event of the pass. */
  function Step(key: GroupKey, m: Machine, e: Event): (m': Machine)
    ensures m.trips <= m'.trips && m.orphans <= m'.orphans
    ensures |m'.trips| + |m'.orphans| == |m.trips| + |m.orphans| + (if IsArrival(e) then 1 else 0)
    ensures IsDeparture(e) ==> m'.pending == Some(e) && m'.trips == m.trips && m'.orphans == m.orphans
    ensures IsArrival(e) ==> m'.pending == None
    ensures !IsKnown(e) ==> m' == m
  {
    KindsDiffer();
    if IsDeparture(e) then m.(pending := Some(e))
    else if IsArrival(e) then
      if m.pending.Some? then Machine(None, m.trips + [CompleteTrip(key, m.pending.value, e)], m.orphans)
      else m.(orphans := m.orphans + [OrphanOf(key, e)])
    else m
  }

  /** The pass over es from state m, left to right. Every arrival emits exactly one
      record; nothing already emitted is changed. */
  function Run(key: GroupKey, m: Machine, es: seq<Event>): (r: Machine)
    ensures m.trips <= r.trips && m.orphans <= r.orphans
    ensures |r.trips| + |r.orphans| == |m.trips| + |m.orphans| + CountKind(es, Arrival)
  {
    if es == [] then m else Step(key, Run(key, m, es[..|es| - 1]), es[|es| - 1])
  }

  /** The records of one group: the records of the pass, then an open trip if a departure
      is still pending at the end. */
  function Reconcile(key: GroupKey, group: seq<Event>): (o: Outcome)
    ensures forall t | t in o.trips :: t.driver == key.driver && t.plate == key.plate
    ensures forall r | r in o.orphans :: r.driver == key.driver && r.plate == key.plate
    ensures forall i | 0 <= i < |o.trips| - 1 :: o.trips[i].status == Complete
  {
    var m := Run(key, Idle, group);
    RunTrips(key, group);
    Outcome(m.trips + (if m.pending.Some? then [OpenTrip(key, m.pending.value)] else []), m.orphans)
  }

  lemma RunSnoc(key: GroupKey, m: Machine, g: seq<Event>, p: nat)
    requires p < |g|
    ensures Run(key, m, g[..p + 1]) == Step(key, Run(key, m, g[..p]), g[p])
  {
    assert g[..p + 1][..p] == g[..p];
  }

  /** No event strictly between positions i and j of g has a known kind. */
  predicate Adjacent(g: seq<Event>, i: int, j: int)
    requires 0 <= i <= j <= |g|
  {
    forall k | i < k < j :: !IsKnown(g[k])
  }

  /** No departure among the first j events of g is followed by nothing but
      unknown-kind events up to position j. */
  predicate NothingPending(g: seq<Event>, j: int)
    requires 0 <= j <= |g|
  {
    forall i | 0 <= i < j && IsDeparture(g[i]) :: !Adjacent(g, i, j)
  }

  /** Slot holds the last known-kind event among the first p events of g if that event
      is a departure, and is empty otherwise. */
  ghost predicate SlotAfter(g: seq<Event>, p: int, slot: Option<Event>)
    requires 0 <= p <= |g|
  {
    (forall i | 0 <= i < p && IsDeparture(g[i]) && Adjacent(g, i, p) :: slot == Some(g[i])) &&
    (slot.Some? ==> exists i | 0 <= i < p :: IsDeparture(g[i]) && Adjacent(g, i, p) && slot == Some(g[i]))
  }

  /** An event of known kind leaves the slot holding it if it is a departure, empty otherwise. */
  lemma SlotAtKnown(g: seq<Event>, q: nat)
    requires q < |g| && IsKnown(g[q])
    ensures SlotAfter(g, q + 1, if IsDeparture(g[q]) then Some(g[q]) else None)
  {
    var p := q + 1;
    assert forall i | 0 <= i < q :: !Adjacent(g, i, p);
  }

  /** An event of any other kind leaves the slot as it was. */
  lemma SlotThroughUnknown(g: seq<Event>, q: nat, slot: Option<Event>)
    requires q < |g| && !IsKnown(g[q]) && SlotAfter(g, q, slot)
    ensures SlotAfter(g, q + 1, slot)
  {
    forall i | 0 <= i < q + 1 && IsDeparture(g[i]) && Adjacent(g, i, q + 1) ensures slot == Some(g[i]) {
      assert i < q && Adjacent(g, i, q);
    }
    if slot.Some? {
      var i :| 0 <= i < q && IsDeparture(g[i]) && Adjacent(g, i, q) && slot == Some(g[i]);
      assert Adjacent(g, i, q + 1);
    }
  }

  /** The pending slot is the latest departure not yet followed by an event of known kind. */
  lemma {:induction false} PendingSlot(key: GroupKey, g: seq<Event>, p: nat)
    requires p <= |g|
    ensures SlotAfter(g, p, Run(key, Idle, g[..p]).pending)
  {
    if p > 0 {
      var q := p - 1;
      PendingSlot(key, g, q);
      RunSnoc(key, Idle, g, q);
      if IsKnown(g[q]) {
        KindsDiffer();
        SlotAtKnown(g, q);
      } else {
        SlotThroughUnknown(g, q, Run(key, Idle, g[..q]).pending);
      }
    }
  }

  /** Every trip emitted so far is complete, well formed and carries the group's key. */
  lemma {:induction false} RunTrips(key: GroupKey, es: seq<Event>)
    ensures forall t | t in Run(key, Idle, es).trips ::
      t.status == Complete && WellFormed(t) && t.driver == key.driver && t.plate == key.plate
    ensures forall o | o in Run(key, Idle, es).orphans :: o.driver == key.driver && o.plate == key.plate
  {
    if es != [] {
      RunTrips(key, es[..|es| - 1]);
    }
  }

  /** The complete trips emitted by the first p events are exactly the pairs of a
      departure and an arrival with only unknown-kind events between them. */
  lemma {:induction false} CompleteTripsArePairs(key: GroupKey, g: seq<Event>, p: nat)
    requires p <= |g|
    ensures forall t | t in Run(key, Idle, g[..p]).trips ::
      exists i, j | 0 <= i < j < p ::
        IsDeparture(g[i]) && IsArrival(g[j]) && Adjacent(g, i, j) && t == CompleteTrip(key, g[i], g[j])
    ensures forall i, j | 0 <= i < j < p && IsDeparture(g[i]) && IsArrival(g[j]) && Adjacent(g, i, j) ::
      CompleteTrip(key, g[i], g[j]) in Run(key, Idle, g[..p]).trips
  {
    if p > 0 {
      var q := p - 1;
      CompleteTripsArePairs(key, g, q);
      PendingSlot(key, g, q);
      RunSnoc(key, Idle, g, q);
      var m := Run(key, Idle, g[..q]);
      var m' := Run(key, Idle, g[..p]);
      var x := g[q];
      assert m'.trips[..|m.trips|] == m.trips;
      forall t | t in m.trips ensures t in m'.trips {
        var k :| 0 <= k < |m.trips| && m.trips[k] == t;
        assert m'.trips[k] == t;
      }
      if IsArrival(x) && m.pending.Some? {
        var i :| 0 <= i < q && IsDeparture(g[i]) && Adjacent(g, i, q) && m.pending == Some(g[i]);
        assert m'.trips == m.trips + [CompleteTrip(key, g[i], x)];
        forall t | t in m'.trips
          ensures exists i, j | 0 <= i < j < p ::
            IsDeparture(g[i]) && IsArrival(g[j]) && Adjacent(g, i, j) && t == CompleteTrip(key, g[i], g[j])
        {
          if t !in m.trips {
            assert t == CompleteTrip(key, g[i], g[q]);
          }
        }
      } else {
        assert m'.trips == m.trips;
      }
      forall i, j | 0 <= i < j < p && IsDeparture(g[i]) && IsArrival(g[j]) && Adjacent(g, i, j)
        ensures CompleteTrip(key, g[i], g[j]) in m'.trips
      {
        if j == q {
          assert m.pending == Some(g[i]);
          assert m'.trips == m.trips + [CompleteTrip(key, g[i], g[j])];
        }
      }
    }
  }

  /** The orphans emitted by the first p events are exactly the arrivals at which no
      departure is pending. */
  lemma {:induction false} OrphansAreUnpairedArrivals(key: GroupKey, g: seq<Event>, p: nat)
    requires p <= |g|
    ensures forall o | o in Run(key, Idle, g[..p]).orphans ::
      exists j | 0 <= j < p :: IsArrival(g[j]) && NothingPending(g, j) && o == OrphanOf(key, g[j])
    ensures forall j | 0 <= j < p && IsArrival(g[j]) && NothingPending(g, j) ::
      OrphanOf(key, g[j]) in Run(key, Idle, g[..p]).orphans
  {
    if p > 0 {
      var q := p - 1;
      OrphansAreUnpairedArrivals(key, g, q);
      PendingSlot(key, g, q);
      RunSnoc(key, Idle, g, q);
      var m := Run(key, Idle, g[..q]);
      var m' := Run(key, Idle, g[..p]);
      var x := g[q];
      assert m'.orphans[..|m.orphans|] == m.orphans;
      forall o | o in m.orphans ensures o in m'.orphans {
        var k :| 0 <= k < |m.orphans| && m.orphans[k] == o;
        assert m'.orphans[k] == o;
      }
      if IsArrival(x) && m.pending.None? {
        assert NothingPending(g, q);
        assert m'.orphans == m.orphans + [OrphanOf(key, x)];
        forall o | o in m'.orphans
          ensures exists j | 0 <= j < p :: IsArrival(g[j]) && NothingPending(g, j) && o == OrphanOf(key, g[j])
        {
          if o !in m.orphans {
            assert o == OrphanOf(key, g[q]);
          }
        }
      } else {
        assert m'.orphans == m.orphans;
      }
      forall j | 0 <= j < p && IsArrival(g[j]) && NothingPending(g, j)
        ensures OrphanOf(key, g[j]) in m'.orphans
      {
        if j == q {
          assert m.pending.None?;
        }
      }
    }
  }

  /** No departure is followed by another departure with only unknown-kind events between. */
  predicate NoDoubleDeparture(g: seq<Event>)
  {
    forall i, j | 0 <= i < j < |g| && IsDeparture(g[i]) && IsDeparture(g[j]) :: !Adjacent(g, i, j)
  }

  /** Each departure yields at most one trip record, counting the pending one; exactly one
      when no departure is superseded. */
  lemma {:induction false} DepartureAccounting(key: GroupKey, g: seq<Event>, p: nat)
    requires p <= |g|
    ensures var m := Run(key, Idle, g[..p]);
      |m.trips| + (if m.pending.Some? then 1 else 0) <= CountKind(g[..p], Departure)
    ensures var m := Run(key, Idle, g[..p]);
      NoDoubleDeparture(g) ==> |m.trips| + (if m.pending.Some? then 1 else 0) == CountKind(g[..p], Departure)
  {
    if p > 0 {
      var q := p - 1;
      DepartureAccounting(key, g, q);
      DepartureStep(key, g, q);
    }
  }

  lemma DepartureStep(key: GroupKey, g: seq<Event>, q: nat)
    requires q < |g|
    ensures var m, m' := Run(key, Idle, g[..q]), Run(key, Idle, g[..q + 1]);
      |m'.trips| + (if m'.pending.Some? then 1 else 0) <=
      |m.trips| + (if m.pending.Some? then 1 else 0) + (if IsDeparture(g[q]) then 1 else 0)
    ensures var m, m' := Run(key, Idle, g[..q]), Run(key, Idle, g[..q + 1]);
      NoDoubleDeparture(g) ==>
      |m'.trips| + (if m'.pending.Some? then 1 else 0) ==
      |m.trips| + (if m.pending.Some? then 1 else 0) + (if IsDeparture(g[q]) then 1 else 0)
    ensures CountKind(g[..q + 1], Departure) == CountKind(g[..q], Departure) + (if IsDeparture(g[q]) then 1 else 0)
  {
    KindsDiffer();
    PendingSlot(key, g, q);
    RunSnoc(key, Idle, g, q);
    assert g[..q + 1][..q] == g[..q];
    var m := Run(key, Idle, g[..q]);
    assert NoDoubleDeparture(g) && IsDeparture(g[q]) ==> m.pending.None?;
  }

  lemma {:induction false} CountAllComplete(ts: seq<Trip>)
    requires forall t | t in ts :: t.status == Complete
    ensures CountStatus(ts, Complete) == |ts|
    ensures CountStatus(ts, Open) == 0
  {
    if ts != [] {
      CountAllComplete(ts[..|ts| - 1]);
    }
  }

  /** Counting the records of one group: every arrival yields exactly one complete trip or
      one orphan; every departure at most one trip, exactly one when none is superseded;
      at most one trip is open. */
  lemma ReconcileAccounting(key: GroupKey, g: seq<Event>)
    ensures CountStatus(Reconcile(key, g).trips, Complete) + |Reconcile(key, g).orphans| == CountKind(g, Arrival)
    ensures CountStatus(Reconcile(key, g).trips, Open) <= 1
    ensures |Reconcile(key, g).trips| <= CountKind(g, Departure)
    ensures NoDoubleDeparture(g) ==> |Reconcile(key, g).trips| == CountKind(g, Departure)
  {
    var m := Run(key, Idle, g);
    var pend := if m.pending.Some? then 1 else 0;
    var open := if m.pending.Some? then [OpenTrip(key, m.pending.value)] else [];
    assert CountStatus(m.trips, Complete) == |m.trips| && CountStatus(m.trips, Open) == 0 by {
      RunTrips(key, g);
      CountAllComplete(m.trips);
    }
    assert CountStatus(open, Complete) == 0 && CountStatus(open, Open) == |open| == pend by {
      if open != [] {
        assert open[..0] == [];
      }
    }
    assert |m.trips| + pend <= CountKind(g, Departure) &&
           (NoDoubleDeparture(g) ==> |m.trips| + pend == CountKind(g, Departure)) by {
      assert g[..|g|] == g;
      DepartureAccounting(key, g, |g|);
    }
    CountStatusAppend(m.trips, open, Complete);
    CountStatusAppend(m.trips, open, Open);
  }

  /** The shape of one group's records: every trip is well formed and carries the group's
      key and the fields of one of the group's departures; an open trip, if any, is the
      last trip, and there is one exactly when the group's last known-kind event is a
      departure, from which it is built. */
  lemma ReconcileShape(key: GroupKey, g: seq<Event>)
    ensures forall t | t in Reconcile(key, g).trips ::
      WellFormed(t) && exists i | 0 <= i < |g| :: IsDeparture(g[i]) && FromDeparture(t, key, g[i])
    ensures forall o | o in Reconcile(key, g).orphans ::
      o.driver == key.driver && o.plate == key.plate &&
      exists j | 0 <= j < |g| :: IsArrival(g[j]) && o.model == g[j].model && o.arrivalTime == g[j].time && o.km == g[j].km
    ensures forall i | 0 <= i < |Reconcile(key, g).trips| && Reconcile(key, g).trips[i].status == Open ::
      i == |Reconcile(key, g).trips| - 1
    ensures forall i | 0 <= i < |g| && IsDeparture(g[i]) && Adjacent(g, i, |g|) ::
      Reconcile(key, g).trips != [] && Reconcile(key, g).trips[|Reconcile(key, g).trips| - 1] == OpenTrip(key, g[i])
    ensures NothingPending(g, |g|) ==> forall t | t in Reconcile(key, g).trips :: t.status == Complete
  {
    var m := Run(key, Idle, g);
    var trips := Reconcile(key, g).trips;
    assert g[..|g|] == g;
    RunTrips(key, g);
    PendingSlot(key, g, |g|);
    CompleteTripsArePairs(key, g, |g|);
    OrphansAreUnpairedArrivals(key, g, |g|);
    forall t | t in trips
      ensures WellFormed(t) && exists i | 0 <= i < |g| :: IsDeparture(g[i]) && FromDeparture(t, key, g[i])
    {
      if t in m.trips {
        var i, j :| 0 <= i < j < |g| && IsDeparture(g[i]) && IsArrival(g[j]) && Adjacent(g, i, j) &&
                    t == CompleteTrip(key, g[i], g[j]);
      } else {
        var i :| 0 <= i < |g| && IsDeparture(g[i]) && Adjacent(g, i, |g|) && m.pending == Some(g[i]);
        assert t == OpenTrip(key, g[i]);
      }
    }
    assert forall k | 0 <= k < |m.trips| :: trips[k] == m.trips[k];
  }

  /** Events of any kind other than the two known ones change nothing and emit nothing. */
  lemma {:induction false} RunKnownOnly(key: GroupKey, m: Machine, es: seq<Event>)
    ensures Run(key, m, es) == Run(key, m, KnownOnly(es))
  {
    if es != [] {
      var init, x := es[..|es| - 1], es[|es| - 1];
      RunKnownOnly(key, m, init);
      assert Run(key, m, es) == Step(key, Run(key, m, init), x);
      var k := KnownOnly(init);
      if IsKnown(x) {
        assert KnownOnly(es) == k + [x];
        assert (k + [x])[..|k|] == k;
        assert Run(key, m, k + [x]) == Step(key, Run(key, m, k), x);
      } else {
        assert KnownOnly(es) == k;
      }
    }
  }

  lemma ReconcileIgnoresUnknownKinds(key: GroupKey, g: seq<Event>)
    ensures Reconcile(key, g) == Reconcile(key, KnownOnly(g))
  {
    RunKnownOnly(key, Idle, g);
  }

  lemma {:induction false} RunAppend(key: GroupKey, m: Machine, a: seq<Event>, b: seq<Event>)
    ensures Run(key, m, a + b) == Run(key, Run(key, m, a), b)
    decreases |b|
  {
    if b == [] {
      assert a + b == a;
    } else {
      assert (a + b)[..|a + b| - 1] == a + b[..|b| - 1];
      RunAppend(key, m, a, b[..|b| - 1]);
    }
  }

  lemma {:induction false} RunWithoutArrivals(key: GroupKey, m: Machine, u: seq<Event>)
    requires forall e | e in u :: !IsArrival(e)
    ensures Run(key, m, u).trips == m.trips && Run(key, m, u).orphans == m.orphans
  {
    if u != [] {
      RunWithoutArrivals(key, m, u[..|u| - 1]);
    }
  }

  /** A departure followed by another departure before any arrival leaves no trace: the
      group yields the same records with or without it. */
  lemma SupersededDepartureLeavesNoTrace(key: GroupKey, a: seq<Event>, d1: Event, u: seq<Event>,
                                         d2: Event, b: seq<Event>)
    requires IsDeparture(d1) && IsDeparture(d2)
    requires forall e | e in u :: !IsArrival(e)
    ensures Reconcile(key, a + [d1] + u + [d2] + b) == Reconcile(key, a + u + [d2] + b)
  {
    var M := Run(key, Idle, a);
    var X := a + [d1] + u + [d2];
    var Y := a + u + [d2];
    RunAppend(key, Idle, X, b);
    RunAppend(key, Idle, Y, b);
    assert X[..|X| - 1] == a + [d1] + u;
    assert Y[..|Y| - 1] == a + u;
    RunAppend(key, Idle, a + [d1], u);
    RunAppend(key, Idle, a, u);
    assert (a + [d1])[..|a|] == a;
    RunWithoutArrivals(key, M.(pending := Some(d1)), u);
    RunWithoutArrivals(key, M, u);
    assert Run(key, Idle, X) == Machine(Some(d2), M.trips, M.orphans);
    assert Run(key, Idle, Y) == Machine(Some(d2), M.trips, M.orphans);
  }

  /** On a group ordered by timestamp, nothing emitted or pending after a prefix is later
      than the last event of the prefix, and no trip departs after the pending departure. */
  lemma {:induction false} RunTimeBounds(key: GroupKey, g: seq<Event>, p: nat)
    requires TimeSorted(g) && p <= |g|
    ensures var m := Run(key, Idle, g[..p]);
      p > 0 ==> (forall t | t in m.trips :: t.departureTime <= g[p - 1].time) &&
                (forall o | o in m.orphans :: o.arrivalTime <= g[p - 1].time)
    ensures var m := Run(key, Idle, g[..p]);
      m.pending.Some? ==> p > 0 && m.pending.value.time <= g[p - 1].time &&
                          forall t | t in m.trips :: t.departureTime <= m.pending.value.time
  {
    if p > 0 {
      var q := p - 1;
      RunTimeBounds(key, g, q);
      RunSnoc(key, Idle, g, q);
      if q > 0 {
        assert g[q - 1].time <= g[q].time;
      }
    }
  }

  /** On a group ordered by timestamp, the records come out in time order and no complete
      trip has a negative duration. */
  lemma {:induction false} TimeOrderedRun(key: GroupKey, g: seq<Event>, p: nat)
    requires TimeSorted(g) && p <= |g|
    ensures var m := Run(key, Idle, g[..p]);
      (forall a, b | 0 <= a < b < |m.trips| :: m.trips[a].departureTime <= m.trips[b].departureTime) &&
      (forall a, b | 0 <= a < b < |m.orphans| :: m.orphans[a].arrivalTime <= m.orphans[b].arrivalTime) &&
      (forall t | t in m.trips :: t.duration.Some? && t.duration.value >= 0)
  {
    RunTrips(key, g[..p]);
    if p > 0 {
      var q := p - 1;
      TimeOrderedRun(key, g, q);
      RunTimeBounds(key, g, q);
      RunSnoc(key, Idle, g, q);
      var m := Run(key, Idle, g[..q]);
      var x := g[q];
      if q > 0 {
        assert g[q - 1].time <= x.time;
      }
      if IsArrival(x) && m.pending.Some? {
        TripsStayOrdered(m.trips, CompleteTrip(key, m.pending.value, x));
      } else if IsArrival(x) {
        OrphansStayOrdered(m.orphans, OrphanOf(key, x));
      }
    }
  }

  /** Appending a trip that departs no earlier than every trip so far keeps departure order. */
  lemma TripsStayOrdered(ts: seq<Trip>, t: Trip)
    requires forall a, b | 0 <= a < b < |ts| :: ts[a].departureTime <= ts[b].departureTime
    requires forall u | u in ts :: u.departureTime <= t.departureTime
    ensures var r := ts + [t];
      forall a, b | 0 <= a < b < |r| :: r[a].departureTime <= r[b].departureTime
  {
    var r := ts + [t];
    forall a, b | 0 <= a < b < |r| ensures r[a].departureTime <= r[b].departureTime {
      if b == |ts| {
        assert r[a] in ts;
      } else {
        assert r[a] == ts[a] && r[b] == ts[b];
      }
    }
  }

  /** Appending an orphan that arrives no earlier than every orphan so far keeps arrival order. */
  lemma OrphansStayOrdered(os: seq<Orphan>, o: Orphan)
    requires forall a, b | 0 <= a < b < |os| :: os[a].arrivalTime <= os[b].arrivalTime
    requires forall u | u in os :: u.arrivalTime <= o.arrivalTime
    ensures var r := os + [o];
      forall a, b | 0 <= a < b < |r| :: r[a].arrivalTime <= r[b].arrivalTime
  {
    var r := os + [o];
    forall a, b | 0 <= a < b < |r| ensures r[a].arrivalTime <= r[b].arrivalTime {
      if b == |os| {
        assert r[a] in os;
      } else {
        assert r[a] == os[a] && r[b] == os[b];
      }
    }
  }

  /** On a group ordered by timestamp, trips come out in departure order, orphans in
      arrival order, and every complete trip has a duration of zero or more minutes. */
  lemma ReconcileInTimeOrder(key: GroupKey, g: seq<Event>)
    requires TimeSorted(g)
    ensures var ts := Reconcile(key, g).trips;
      forall a, b | 0 <= a < b < |ts| :: ts[a].departureTime <= ts[b].departureTime
    ensures var os := Reconcile(key, g).orphans;
      forall a, b | 0 <= a < b < |os| :: os[a].arrivalTime <= os[b].arrivalTime
    ensures forall t | t in Reconcile(key, g).trips && t.status == Complete :: t.duration.Some? && t.duration.value >= 0
  {
    assert g[..|g|] == g;
    TimeOrderedRun(key, g, |g|);
    RunTimeBounds(key, g, |g|);
    var m := Run(key, Idle, g);
    var ts := Reconcile(key, g).trips;
    if m.pending.Some? {
      TripsStayOrdered(m.trips, OpenTrip(key, m.pending.value));
    }
  }
}
