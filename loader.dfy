/** The row normaliser of the loader: each spreadsheet row becomes one event. */
module Loader {
  import opened Records

  /** A 'Saída' row becomes a departure with the starting odometer reading and its
      purpose; every other row, whatever its kind column says, becomes an arrival with the
      final odometer reading and no purpose. */
  function NormalizeRow(r: Row): (e: Event)
    ensures IsKnown(e)
    ensures IsDeparture(e) <==> r.kind == Departure
    ensures e.time == r.time && e.email == r.email && e.driver == r.driver && e.plate == r.plate && e.model == r.model
    ensures IsDeparture(e) ==> e.km == r.startKm && e.purpose == r.purpose
    ensures !IsDeparture(e) ==> e.km == r.endKm && e.purpose == None
  {
    if r.kind == Departure then Event(r.time, r.email, r.driver, r.plate, r.model, Departure, r.startKm, r.purpose)
    else Event(r.time, r.email, r.driver, r.plate, r.model, Arrival, r.endKm, None)
  }

  /** The events of rows, one per row, in row order. */
  function NormalizeAll(rows: seq<Row>): (es: seq<Event>)
  {
    if rows == [] then [] else NormalizeAll(rows[..|rows| - 1]) + [NormalizeRow(rows[|rows| - 1])]
  }

  /** The number of rows whose kind column reads 'Saída'. */
  function DepartureRows(rows: seq<Row>): (n: nat)
    ensures n <= |rows|
  {
    if rows == [] then 0
    else DepartureRows(rows[..|rows| - 1]) + (if rows[|rows| - 1].kind == Departure then 1 else 0)
  }

  /** The loader's loop: one event appended per row. */
  method NormalizeRows(rows: seq<Row>) returns (events: seq<Event>)
    ensures events == NormalizeAll(rows)
    ensures |events| == |rows|
    ensures forall i | 0 <= i < |rows| :: events[i] == NormalizeRow(rows[i])
  {
    events := [];
    for i := 0 to |rows|
      invariant events == NormalizeAll(rows[..i])
      invariant |events| == i
      invariant forall k | 0 <= k < i :: events[k] == NormalizeRow(rows[k])
    {
      assert rows[..i + 1][..i] == rows[..i];
      var row := rows[i];
      if row.kind == Departure {
        events := events + [Event(row.time, row.email, row.driver, row.plate, row.model, Departure, row.startKm, row.purpose)];
      } else {
        events := events + [Event(row.time, row.email, row.driver, row.plate, row.model, Arrival, row.endKm, None)];
      }
    }
    assert rows[..|rows|] == rows;
  }

  /** The loaded log holds only the two known kinds: one departure per 'Saída' row and one
      arrival per other row. */
  lemma {:induction false} NormalizedKinds(rows: seq<Row>)
    ensures KnownOnly(NormalizeAll(rows)) == NormalizeAll(rows)
    ensures CountKind(NormalizeAll(rows), Departure) == DepartureRows(rows)
    ensures CountKind(NormalizeAll(rows), Arrival) == |rows| - DepartureRows(rows)
  {
    if rows != [] {
      var init := rows[..|rows| - 1];
      NormalizedKinds(init);
      var es := NormalizeAll(init);
      var e := NormalizeRow(rows[|rows| - 1]);
      assert |Departure| != |Arrival|;
      assert (es + [e])[..|es|] == es;
    }
  }
}
