/** The reconciliation of a whole log: sort, split into (driver, plate) groups, pair each
    group, and collect the trip and orphan records of all groups. */
module Trips {
  import opened Records
  import opened Ordering
  import opened Pairing
  import opened Loader

  /** The records of the groups ks of the sorted log s, group after group. */
  function Outputs(s: seq<Event>, ks: seq<GroupKey>): (o: Outcome)
  {
    if ks == [] then Outcome([], [])
    else
      var prev := Outputs(s, ks[..|ks| - 1]);
      var k := ks[|ks| - 1];
      var o := Reconcile(k, GroupOf(s, k));
      Outcome(prev.trips + o.trips, prev.orphans + o.orphans)
  }

  /** The records of a log: the log sorted by (driver, plate, timestamp), its groups taken
      in ascending key order, the records of each group appended in turn. */
  function Reconciled(events: seq<Event>): (o: Outcome)
  {
    var s := SortEvents(events);
    Outputs(s, GroupKeys(s))
  }

  /** The pass over one group: a fresh pending slot, records appended to the lists
      received, and an open trip appended if a departure is still pending at the end. */
  method PairGroup(key: GroupKey, group: seq<Event>, trips0: seq<Trip>, orphans0: seq<Orphan>)
    returns (trips: seq<Trip>, orphans: seq<Orphan>)
    ensures trips == trips0 + Reconcile(key, group).trips
    ensures orphans == orphans0 + Reconcile(key, group).orphans
  {
    trips, orphans := trips0, orphans0;
    var pending: Option<Event> := None;
    ghost var m := Idle;
    for i := 0 to |group|
      invariant m == Run(key, Idle, group[..i])
      invariant pending == m.pending
      invariant trips == trips0 + m.trips && orphans == orphans0 + m.orphans
    {
      RunSnoc(key, Idle, group, i);
      var row := group[i];
      if row.kind == Departure {
        pending := Some(row);
      } else if row.kind == Arrival {
        if pending.Some? {
          trips := trips + [CompleteTrip(key, pending.value, row)];
          pending := None;
        } else {
          orphans := orphans + [OrphanOf(key, row)];
        }
      }
      m := Step(key, m, row);
    }
    assert group[..|group|] == group;
    if pending.Some? {
      trips := trips + [OpenTrip(key, pending.value)];
    }
  }

  /** The reconciliation loop: the log sorted, then one pass per group in ascending key
      order, all appending to the same trip and orphan lists. */
  method ProcessTrips(events: seq<Event>) returns (trips: seq<Trip>, orphans: seq<Orphan>)
    ensures Outcome(trips, orphans) == Reconciled(events)
  {
    var sorted := SortEvents(events);
    var keys := GroupKeys(sorted);
    trips, orphans := [], [];
    for gi := 0 to |keys|
      invariant Outcome(trips, orphans) == Outputs(sorted, keys[..gi])
    {
      assert keys[..gi + 1][..gi] == keys[..gi];
      trips, orphans := PairGroup(keys[gi], GroupOf(sorted, keys[gi]), trips, orphans);
    }
    assert keys[..|keys|] == keys;
  }

  /** Every record of the log comes from the group of one of the keys. */
  lemma {:induction false} OutputsFromGroups(s: seq<Event>, ks: seq<GroupKey>)
    ensures forall t | t in Outputs(s, ks).trips :: exists k | k in ks :: t in Reconcile(k, GroupOf(s, k)).trips
    ensures forall o | o in Outputs(s, ks).orphans :: exists k | k in ks :: o in Reconcile(k, GroupOf(s, k)).orphans
  {
    if ks != [] {
      var ks0, k := ks[..|ks| - 1], ks[|ks| - 1];
      OutputsFromGroups(s, ks0);
      var prev, o := Outputs(s, ks0), Reconcile(k, GroupOf(s, k));
      assert k in ks;
      forall t | t in Outputs(s, ks).trips ensures exists k | k in ks :: t in Reconcile(k, GroupOf(s, k)).trips {
        if t in prev.trips {
          var k' :| k' in ks0 && t in Reconcile(k', GroupOf(s, k')).trips;
          assert k' in ks;
        } else {
          assert t in o.trips;
        }
      }
      forall r | r in Outputs(s, ks).orphans ensures exists k | k in ks :: r in Reconcile(k, GroupOf(s, k)).orphans {
        if r in prev.orphans {
          var k' :| k' in ks0 && r in Reconcile(k', GroupOf(s, k')).orphans;
          assert k' in ks;
        } else {
          assert r in o.orphans;
        }
      }
    }
  }

  /** Counting the records of the groups ks, group by group. */
  lemma {:induction false} OutputsAccounting(s: seq<Event>, ks: seq<GroupKey>)
    ensures CountStatus(Outputs(s, ks).trips, Complete) + |Outputs(s, ks).orphans| == GroupCount(s, ks, Arrival)
    ensures |Outputs(s, ks).trips| <= GroupCount(s, ks, Departure)
  {
    if ks != [] {
      var k := ks[|ks| - 1];
      OutputsAccounting(s, ks[..|ks| - 1]);
      ReconcileAccounting(k, GroupOf(s, k));
      CountStatusAppend(Outputs(s, ks[..|ks| - 1]).trips, Reconcile(k, GroupOf(s, k)).trips, Complete);
    }
  }

  /** Across the whole log, every arrival yields exactly one complete trip or one orphan,
      and there are no more trips than departures. */
  lemma ReconciledAccounting(events: seq<Event>)
    ensures CountStatus(Reconciled(events).trips, Complete) + |Reconciled(events).orphans| == CountKind(events, Arrival)
    ensures |Reconciled(events).trips| <= CountKind(events, Departure)
  {
    var s := SortEvents(events);
    OutputsAccounting(s, GroupKeys(s));
    GroupsPartition(s, Arrival);
    GroupsPartition(s, Departure);
    SortCount(events, Arrival);
    SortCount(events, Departure);
  }

  /** The groups are taken in strictly ascending (driver, plate) order and are exactly the
      (driver, plate) pairs of the log. */
  lemma ReconciledGroups(events: seq<Event>)
    ensures var ks := GroupKeys(SortEvents(events));
      forall i, j | 0 <= i < j < |ks| :: GroupKeyLt(ks[i], ks[j])
    ensures var ks := GroupKeys(SortEvents(events));
      forall e | e in events :: KeyOf(e) in ks
    ensures var ks := GroupKeys(SortEvents(events));
      forall k | k in ks :: exists e | e in events :: KeyOf(e) == k
  {
    var s := SortEvents(events);
    GroupKeysAscending(s);
    GroupKeysCover(s);
    assert forall e | e in events :: e in multiset(s);
    assert forall e | e in s :: e in multiset(events);
  }

  /** A trip of the group of key k of the sorted log s is well formed, lasts zero or more
      minutes when complete, and is built from a departure of the log. */
  lemma GroupTrip(events: seq<Event>, k: GroupKey, t: Trip)
    requires t in Reconcile(k, GroupOf(SortEvents(events), k)).trips
    ensures WellFormed(t) && (t.status == Complete ==> t.duration.value >= 0)
    ensures exists e | e in events :: IsDeparture(e) && FromDeparture(t, KeyOf(e), e)
  {
    var s := SortEvents(events);
    var g := GroupOf(s, k);
    ReconcileShape(k, g);
    SortedGroupIsTimeSorted(s, k);
    ReconcileInTimeOrder(k, g);
    GroupOfMembers(s, k);
    var i :| 0 <= i < |g| && IsDeparture(g[i]) && FromDeparture(t, k, g[i]);
    assert g[i] in s;
    assert g[i] in multiset(events);
  }

  /** An orphan of the group of key k of the sorted log s is the record of an arrival of
      the log. */
  lemma GroupOrphan(events: seq<Event>, k: GroupKey, o: Orphan)
    requires o in Reconcile(k, GroupOf(SortEvents(events), k)).orphans
    ensures exists e | e in events :: IsArrival(e) && o == OrphanOf(KeyOf(e), e)
  {
    var s := SortEvents(events);
    var g := GroupOf(s, k);
    ReconcileShape(k, g);
    GroupOfMembers(s, k);
    var j :| 0 <= j < |g| && IsArrival(g[j]) && o.model == g[j].model && o.arrivalTime == g[j].time && o.km == g[j].km;
    assert g[j] in s;
    assert g[j] in multiset(events);
    assert o == OrphanOf(KeyOf(g[j]), g[j]);
  }

  /** Every record of the log is built from events of the log: a trip carries the fields of
      a departure and its (driver, plate), is well formed, and when complete has a duration
      of zero or more minutes; an orphan is the record of an arrival. */
  lemma ReconciledRecords(events: seq<Event>)
    ensures forall t | t in Reconciled(events).trips ::
      WellFormed(t) && (t.status == Complete ==> t.duration.value >= 0) &&
      exists e | e in events :: IsDeparture(e) && FromDeparture(t, KeyOf(e), e)
    ensures forall o | o in Reconciled(events).orphans ::
      exists e | e in events :: IsArrival(e) && o == OrphanOf(KeyOf(e), e)
  {
    var s := SortEvents(events);
    var ks := GroupKeys(s);
    OutputsFromGroups(s, ks);
    forall t | t in Reconciled(events).trips
      ensures WellFormed(t) && (t.status == Complete ==> t.duration.value >= 0) &&
              exists e | e in events :: IsDeparture(e) && FromDeparture(t, KeyOf(e), e)
    {
      var k :| k in ks && t in Reconcile(k, GroupOf(s, k)).trips;
      GroupTrip(events, k, t);
    }
    forall o | o in Reconciled(events).orphans
      ensures exists e | e in events :: IsArrival(e) && o == OrphanOf(KeyOf(e), e)
    {
      var k :| k in ks && o in Reconcile(k, GroupOf(s, k)).orphans;
      GroupOrphan(events, k, o);
    }
  }

  /** For a log loaded from spreadsheet rows: every row that is not a 'Saída' row yields
      exactly one complete trip or one orphan, and there are no more trips than 'Saída' rows. */
  lemma LoadedLogAccounting(rows: seq<Row>)
    ensures var out := Reconciled(NormalizeAll(rows));
      CountStatus(out.trips, Complete) + |out.orphans| == |rows| - DepartureRows(rows)
    ensures |Reconciled(NormalizeAll(rows)).trips| <= DepartureRows(rows)
  {
    NormalizedKinds(rows);
    ReconciledAccounting(NormalizeAll(rows));
  }
}
