/** Records of the vehicle log: spreadsheet rows, the events they are normalised into,
    and the trip and orphan-arrival records that the reconciliation derives from them.

    Timestamps are whole minutes (the log's timestamp format has minute precision);
    odometer readings are whole kilometres. */
module Records {

  datatype Option<+T> = None | Some(value: T)

  /** The two event kinds, spelled as the spreadsheet spells them. */
  const Departure: string := "Saída"
  const Arrival: string := "Chegada"

  /** One spreadsheet row, its columns renamed to data_hora, email, nome, placa, modelo,
      tipo, km_inicial, km_final and finalidade. */
  datatype Row = Row(time: int, email: string, driver: string, plate: string, model: string,
                     kind: string, startKm: int, endKm: int, purpose: Option<string>)

  /** One event of the log: a row with the single odometer reading that belongs to its kind. */
  datatype Event = Event(time: int, email: string, driver: string, plate: string, model: string,
                         kind: string, km: int, purpose: Option<string>)

  predicate IsDeparture(e: Event) { e.kind == Departure }
  predicate IsArrival(e: Event) { e.kind == Arrival }
  predicate IsKnown(e: Event) { IsDeparture(e) || IsArrival(e) }

  /** Events are grouped by (driver, plate). */
  datatype GroupKey = GroupKey(driver: string, plate: string)

  function KeyOf(e: Event): (k: GroupKey) { GroupKey(e.driver, e.plate) }

  /** 'Completa' and 'Em Aberto'. */
  datatype Status = Complete | Open

  datatype Trip = Trip(driver: string, plate: string, model: string,
                       departureTime: int, arrivalTime: Option<int>,
                       startKm: int, endKm: Option<int>,
                       distance: Option<int>, duration: Option<int>,
                       purpose: Option<string>, status: Status)

  /** An arrival with no pending departure ('Chegada Órfã'). */
  datatype Orphan = Orphan(driver: string, plate: string, model: string, arrivalTime: int, km: int)

  /** d is max(0, diff), stated without computing it. */
  predicate ClampedDistance(d: int, diff: int) { d >= 0 && d >= diff && (d == 0 || d == diff) }

  /** What every trip record promises: a complete trip carries all four arrival-side
      fields, a clamped distance and the exact elapsed minutes; an open trip carries none. */
  predicate WellFormed(t: Trip) {
    match t.status
    case Complete =>
      t.arrivalTime.Some? && t.endKm.Some? && t.distance.Some? && t.duration.Some? &&
      t.duration.value == t.arrivalTime.value - t.departureTime &&
      ClampedDistance(t.distance.value, t.endKm.value - t.startKm)
    case Open =>
      t.arrivalTime.None? && t.endKm.None? && t.distance.None? && t.duration.None?
  }

  /** The departure-side fields of t come from departure dep of group key. */
  predicate FromDeparture(t: Trip, key: GroupKey, dep: Event) {
    t.driver == key.driver && t.plate == key.plate && t.model == dep.model &&
    t.departureTime == dep.time && t.startKm == dep.km && t.purpose == dep.purpose
  }

  /** The events of es ordered by timestamp, earliest first. */
  predicate TimeSorted(es: seq<Event>) {
    forall i, j | 0 <= i < j < |es| :: es[i].time <= es[j].time
  }

  /** The number of events of es whose kind is kind. */
  function CountKind(es: seq<Event>, kind: string): (n: nat)
    ensures n <= |es|
  {
    if es == [] then 0
    else CountKind(es[..|es| - 1], kind) + (if es[|es| - 1].kind == kind then 1 else 0)
  }

  /** The number of trips of ts with status st. */
  function CountStatus(ts: seq<Trip>, st: Status): (n: nat)
    ensures n <= |ts|
  {
    if ts == [] then 0
    else CountStatus(ts[..|ts| - 1], st) + (if ts[|ts| - 1].status == st then 1 else 0)
  }

  /** The events of es whose kind is one of the two known kinds, in order. */
  function KnownOnly(es: seq<Event>): (r: seq<Event>)
    ensures |r| <= |es|
  {
    if es == [] then []
    else KnownOnly(es[..|es| - 1]) + (if IsKnown(es[|es| - 1]) then [es[|es| - 1]] else [])
  }

  lemma {:induction false} CountStatusAppend(a: seq<Trip>, b: seq<Trip>, st: Status)
    ensures CountStatus(a + b, st) == CountStatus(a, st) + CountStatus(b, st)
    decreases |b|
  {
    if b != [] {
      assert (a + b)[..|a + b| - 1] == a + b[..|b| - 1];
      CountStatusAppend(a, b[..|b| - 1], st);
    } else {
      assert a + b == a;
    }
  }
}
