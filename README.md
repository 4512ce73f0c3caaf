# Vehicle entry/exit log: trip reconciliation

This project models the part of the vehicle entry/exit dashboard that turns a log of gate
events into trip records. Drivers register a 'Saída' (departure) when they take a vehicle
out and a 'Chegada' (arrival) when they bring it back. The reconciliation does four things:

1. It sorts the log by driver, plate and timestamp.
2. It splits the sorted log into (driver, plate) groups.
3. It walks each group once, keeping a single pending-departure slot.
4. It emits three kinds of record:
   - a 'Completa' trip for a departure followed by an arrival;
   - a 'Chegada Órfã' (orphan) record for an arrival with nothing pending;
   - an 'Em Aberto' (open) trip for a departure still pending at the end of its group.

A second departure before any arrival replaces the pending one, which then leaves no trace.
The loader's row normaliser comes before all this. It turns every spreadsheet row into one
event: a 'Saída' row keeps its starting odometer reading and its purpose. Every other row
becomes a 'Chegada' with the final reading and no purpose.

Modules:

- `Records`: rows, events, trips and orphans, and the counting functions.
- `Ordering`: the (driver, plate, timestamp) order, the stable sort, and the grouping in
  ascending key order.
- `Pairing`: the per-group state machine. `Step` handles one event, `Run` is the left fold
  and `Reconcile` gives the records of one group.
- `Trips`: the whole reconciliation as a specification function `Reconciled`, and the
  nested loop `ProcessTrips` proved equal to it.
- `Loader`: the row normaliser.
- `Scenarios`: worked single-group examples.

Timestamps are whole minutes (the log's format is `%d/%m/%Y %H:%M`) and odometer readings
are integers. A trip's distance is the odometer difference, or 0 when the reading did not
increase. Its duration is the arrival time minus the departure time, in minutes.

The pairing loop only acts on events whose kind reads exactly 'Saída' or 'Chegada' and skips
anything else. Its model accepts events of any kind, and `Pairing.ReconcileIgnoresUnknownKinds`
shows that the other kinds change nothing. The loader, however, never produces another kind:
any row that is not a 'Saída' is loaded as a 'Chegada'. A log with an unrecognised kind
therefore produces an arrival (possibly an orphan) rather than a rejected record. The model
follows the code here.

## Model

| member | source | states |
|---|---|---|
| Trips.ProcessTrips | controledeentradaesaidaveiculos.py:242-307 | The reconciliation (sort, then one pass per group in ascending key order, all appending to the same two lists) returns exactly the records of `Reconciled`, the specification whose properties the lemmas below state. |
| Trips.PairGroup | controledeentradaesaidaveiculos.py:252-302 | The pass over one group (fresh pending slot, records appended as it goes, open trip at the end) appends exactly the records `Pairing.Reconcile` gives for that group. |
| Trips.ReconciledAccounting | controledeentradaesaidaveiculos.py:242-307 | Over the whole log, complete trips plus orphans equal the number of arrivals, and there are no more trips than departures. |
| Trips.ReconciledGroups | controledeentradaesaidaveiculos.py:245-251 | The groups are visited in strictly ascending (driver, plate) order; every event's (driver, plate) is a visited group and every visited group has an event. |
| Trips.ReconciledRecords | controledeentradaesaidaveiculos.py:242-307 | Every trip is well formed for its status, carries the driver, plate, model, time, odometer reading and purpose of a departure of the log, and when complete has a duration of zero or more minutes; every orphan is the record of an arrival of the log. |
| Trips.LoadedLogAccounting | controledeentradaesaidaveiculos.py:207-230 | For a log loaded from rows: complete trips plus orphans equal the number of rows that are not 'Saída', and trips are at most the number of 'Saída' rows. |
| Pairing.CompleteTrip | controledeentradaesaidaveiculos.py:258-276 | A complete trip takes the model, time, odometer and purpose of the departure and the time and odometer of the arrival; its duration is the time difference and its distance is the odometer difference clamped at zero. |
| Pairing.OpenTrip | controledeentradaesaidaveiculos.py:288-302 | An open trip takes the fields of the pending departure and has no arrival time, final reading, distance or duration. |
| Pairing.OrphanOf | controledeentradaesaidaveiculos.py:279-286 | An orphan record carries the group's driver and plate and the model, time and final odometer reading of the arrival. |
| Pairing.Reconcile | controledeentradaesaidaveiculos.py:252-302 | The records of one group all carry the group's driver and plate, and every trip but the last is complete (only the trip appended after the pass can be open). |
| Pairing.Step | controledeentradaesaidaveiculos.py:254-286 | A departure fills the pending slot and emits nothing; an arrival empties the slot and emits exactly one record; an event of any other kind changes nothing; emitted records are only appended. |
| Pairing.Run | controledeentradaesaidaveiculos.py:252-286 | The pass over a group only appends records and emits exactly one record per arrival. |
| Pairing.PendingSlot | controledeentradaesaidaveiculos.py:255-256 | After any prefix, the pending slot holds the latest departure that has no known-kind event after it, and is empty if there is none. |
| Pairing.CompleteTripsArePairs | controledeentradaesaidaveiculos.py:257-276 | The complete trips of a group are exactly the (departure, arrival) pairs with no known-kind event between them: each trip is such a pair, and each such pair is a trip. |
| Pairing.OrphansAreUnpairedArrivals | controledeentradaesaidaveiculos.py:277-286 | The orphans of a group are exactly the arrivals met with nothing pending, in both directions. |
| Pairing.ReconcileAccounting | controledeentradaesaidaveiculos.py:252-302 | In one group: complete trips plus orphans equal the arrivals; at most one trip is open; trips are at most the departures, and exactly the departures when no departure is followed by another before an arrival. |
| Pairing.ReconcileShape | controledeentradaesaidaveiculos.py:252-302 | Every trip of a group is well formed and built from one of its departures; every orphan is built from one of its arrivals; only the last trip can be open; a departure left pending at the end yields the open last trip; with nothing pending every trip is complete. |
| Pairing.ReconcileIgnoresUnknownKinds | controledeentradaesaidaveiculos.py:255-257 | Events whose kind is neither 'Saída' nor 'Chegada' do not change the records of a group. |
| Pairing.SupersededDepartureLeavesNoTrace | controledeentradaesaidaveiculos.py:255-256 | A departure followed by another departure with no arrival in between can be deleted without changing the records of the group. |
| Pairing.ReconcileInTimeOrder | controledeentradaesaidaveiculos.py:245-286 | On a group in timestamp order, trips come in departure-time order, orphans in arrival-time order, and every complete trip has a duration of zero or more minutes. |
| Ordering.SortEvents | controledeentradaesaidaveiculos.py:245 | The sorted log is ordered by (driver, plate, timestamp) and is a permutation of the input. |
| Ordering.SortStable | controledeentradaesaidaveiculos.py:245 | Events with equal (driver, plate, timestamp) keep their input order. |
| Ordering.SortedGroups | controledeentradaesaidaveiculos.py:245-251 | Each group of the sorted log is in timestamp order, holds the same events as the group of the unsorted log, and keeps the input order of equal timestamps. |
| Ordering.GroupKeys | controledeentradaesaidaveiculos.py:251 | The keys the grouping enumerates are pairwise distinct: each (driver, plate) group is visited once. |
| Ordering.GroupOf | controledeentradaesaidaveiculos.py:251 | A group is never longer than the log; which events it holds is stated by `Ordering.GroupOfMembers` and `Ordering.GroupMultiplicity`. |
| Ordering.GroupOfMembers | controledeentradaesaidaveiculos.py:251 | Every event of a group is an event of the log carrying the group's (driver, plate). |
| Ordering.GroupMultiplicity | controledeentradaesaidaveiculos.py:251 | A group holds each event of the log with the group's (driver, plate) exactly as many times as the log does, and no other event. |
| Ordering.GroupKeysAscending | controledeentradaesaidaveiculos.py:251 | On a sorted log, the group keys come in strictly ascending order. |
| Ordering.GroupKeysCover | controledeentradaesaidaveiculos.py:251 | The group keys are exactly the (driver, plate) pairs of the log. |
| Ordering.GroupsPartition | controledeentradaesaidaveiculos.py:251 | The groups partition the log: the events of a kind summed over all groups equal the events of that kind in the log. |
| Loader.NormalizeRow | controledeentradaesaidaveiculos.py:209-230 | A row becomes a departure exactly when its kind is 'Saída', with the starting reading and the purpose; otherwise an arrival with the final reading and no purpose; timestamp, e-mail, name, plate and model are kept. |
| Loader.NormalizeRows | controledeentradaesaidaveiculos.py:207-232 | The loader's loop yields one event per row, in row order, each the normalised row. |
| Loader.NormalizedKinds | controledeentradaesaidaveiculos.py:207-230 | The loaded log contains only the two known kinds: one departure per 'Saída' row and one arrival per other row. |
| Scenarios.CompleteTripScenario | controledeentradaesaidaveiculos.py:257-276 | A departure at 10:00 with 100 km and purpose, then an arrival at 11:30 with 150 km, give one complete trip of 50 km, 90 minutes and that purpose, and no orphan. |
| Scenarios.SupersededScenario | controledeentradaesaidaveiculos.py:255-276 | Departures at 100 km and 120 km followed by an arrival at 200 km give one trip, built from the second departure, of 80 km. |
| Scenarios.DecreasingOdometerScenario | controledeentradaesaidaveiculos.py:261 | An arrival reading below the departure reading gives a distance of 0 while the duration is still the elapsed time. |
| Scenarios.NegativeDurationScenario | controledeentradaesaidaveiculos.py:260 | The pairing step does not clamp durations: an arrival stamped before its departure gives a negative duration. Only the preceding sort rules this out. |

## Left out

- Loading from SharePoint: the Microsoft authentication, the HTTP calls, the Excel parsing and the renaming of the columns are I/O and are left out. The model starts from the parsed rows.
- The Streamlit user interface is presentation only and is left out: filters, KPIs, charts, tables and downloads.
- Parsing of the timestamp text is left out. Timestamps are whole minutes; unparseable text is not modelled.
- Missing cells are not modelled because names, plates, kinds, odometer readings and timestamps are always present in the model. pandas would treat such cells as NaN/NaT, and its grouping drops missing names or plates.
- pandas numeric types are left out. Odometer readings are integers, and the duration is an integer number of minutes rather than the float `total_seconds() / 60`.
- The literal status strings ('Completa', 'Em Aberto', 'Chegada Órfã') are left out. Trip status is an enumeration, and orphans carry no status field, since all have the same one.
- The e-mail column is carried through the loader but never used by the reconciliation.
- Building the two result DataFrames from the lists of records is left out.
- Trips.ProcessTrips: the log is a sequence of event values, not a DataFrame updated in place.
