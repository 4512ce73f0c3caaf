/** Worked examples of one group (driver "Ana", plate "ABC123"). */
module Scenarios {
  import opened Records
  import opened Pairing

  const Key: GroupKey := GroupKey("Ana", "ABC123")

  function Ev(time: int, kind: string, km: int, purpose: Option<string>): (e: Event)
  {
    Event(time, "ana@example.com", "Ana", "ABC123", "Gol", kind, km, purpose)
  }

  /** The pass over a group of two events is two steps from the idle state. */
  lemma TwoEvents(x: Event, y: Event)
    ensures Run(Key, Idle, [x, y]) == Step(Key, Step(Key, Idle, x), y)
  {
    assert [x, y][..1] == [x];
    assert [x][..0] == [];
    assert Run(Key, Idle, [x]) == Step(Key, Run(Key, Idle, []), x);
    assert Run(Key, Idle, [x, y]) == Step(Key, Run(Key, Idle, [x]), y);
  }

  /** A departure and its arrival make one complete trip with the purpose of the departure. */
  lemma CompleteTripScenario()
    ensures var o := Reconcile(Key, [Ev(600, Departure, 100, Some("Client visit")), Ev(690, Arrival, 150, None)]);
      o.orphans == [] && |o.trips| == 1 && o.trips[0].status == Complete &&
      o.trips[0].distance == Some(50) && o.trips[0].duration == Some(90) &&
      o.trips[0].purpose == Some("Client visit")
  {
    var d, a := Ev(600, Departure, 100, Some("Client visit")), Ev(690, Arrival, 150, None);
    TwoEvents(d, a);
  }

  /** A departure superseded by a later one yields nothing; the later one is paired. */
  lemma SupersededScenario()
    ensures var o := Reconcile(Key, [Ev(600, Departure, 100, None), Ev(660, Departure, 120, None), Ev(720, Arrival, 200, None)]);
      o.orphans == [] && o.trips == [CompleteTrip(Key, Ev(660, Departure, 120, None), Ev(720, Arrival, 200, None))] &&
      o.trips[0].distance == Some(80)
  {
    var d1, d2, a := Ev(600, Departure, 100, None), Ev(660, Departure, 120, None), Ev(720, Arrival, 200, None);
    TwoEvents(d1, d2);
    var g := [d1, d2, a];
    assert g[..2] == [d1, d2];
    assert Run(Key, Idle, g) == Step(Key, Run(Key, Idle, [d1, d2]), a);
  }

  /** A decreasing odometer gives a distance of zero; the duration is still the elapsed time. */
  lemma DecreasingOdometerScenario()
    ensures var o := Reconcile(Key, [Ev(600, Departure, 500, None), Ev(630, Arrival, 480, None)]);
      |o.trips| == 1 && o.trips[0].distance == Some(0) && o.trips[0].duration == Some(30)
  {
    TwoEvents(Ev(600, Departure, 500, None), Ev(630, Arrival, 480, None));
  }

  /** The pairing itself does not clamp durations: fed an arrival stamped before its
      departure, it records a negative duration. The sort that precedes it in the full
      reconciliation rules this out (see Trips.ReconciledRecords). */
  lemma NegativeDurationScenario()
    ensures var o := Reconcile(Key, [Ev(600, Departure, 100, None), Ev(540, Arrival, 150, None)]);
      |o.trips| == 1 && o.trips[0].duration == Some(-60)
  {
    TwoEvents(Ev(600, Departure, 100, None), Ev(540, Arrival, 150, None));
  }
}
