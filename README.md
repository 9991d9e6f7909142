# Parking lot bookkeeping, modelled in Dafny

This project models the bookkeeping of a small parking lot. The system is a
Flask back end over one SQL table, `vehicles`, plus a React table that lists
the rows.

- `backend/models.py` defines a row: id, plate, type, electric flag, entry
  time, exit time, slot and cost. It also defines the table's constraints and
  the `to_dict` projection.
- `app.py` holds the handlers. `ingresar_vehiculo` parks a vehicle,
  `salida_vehiculo` checks it out and charges it, `actualizar_vehiculo` patches
  a row, `eliminar_vehiculo` deletes one, and `cierre_dia` closes every open
  stay and sums the takings. `calcular_costo` prices a stay.
- `frontend/src/components/VehicleTable.jsx` filters the list by plate and
  pages it.

Files:

- `wrappers.dfy`: `Option`, used for NULL columns and for lookups that can fail.
- `text.dfy`: upper- and lower-casing of ASCII letters, and substring search.
- `vehicles.dfy` (module `Vehicles`): the row as a datatype, the table
  constraints (unique id, unique plate over all rows active or not), the
  column defaults, and `to_dict` as a map from column names to JSON values,
  with its inverse.
- `billing.dfy` (module `Billing`): `calcular_costo`. The fee is hours × rate
  (62 for `"moto"`, 120 for any other type), times 0.75 for an electric
  vehicle, computed over `real`. Timestamps are whole seconds.
- `parking.dfy` (module `Parking`): the table as a class `Lot` with the rows as
  a sequence, in insertion order, and the next id to hand out.
  - Each handler is a method that makes one atomic update, like the single
    commit it performs. An error answer leaves the table unchanged.
  - Answers are `Ok` or an `Err` carrying 400 (with its reason), 404 or 500.
  - The queries the handlers run are functions: the first active row with a
    plate, the row with an id, the active count per type. The close-day result
    and the edit's patch and re-pricing are functions too.
  - The lemmas relate these functions: what keeps each type within its places,
    why a second exit is answered 404, and why repeating close-day changes
    nothing.
- `vehicle_table.dfy` (module `VehicleTable`): the `filtered` memo,
  `totalPages`, the `currentData` slice (JavaScript `slice` semantics), the
  ← / → page moves and the page reset on search. It proves that pages
  1..totalPages laid end to end give back the filtered list.

The code behaves as follows, and the model keeps that behaviour:

- Fees are not rounded up to whole units, and there is no minimum charge.
- An exit at or before the entry time is not rejected.
- Slots are numbered `active count + 1`, not taken from a free-slot pool, so
  two active vehicles can share a slot (`SlotReuseScenario`).
- Edit checks neither capacity nor slot occupancy (`EditCanExceedCapacity`).
- Close-day is not a read-only report restricted to one calendar day. It
  checks out every active vehicle and sums the cost of every row.
- The `plate` column is unique over all rows, not only among active ones. An
  entry whose plate belongs to an earlier, closed stay is therefore rejected
  when it commits.

## Model

| member | source | states |
|---|---|---|
| `Text.Upper` | app.py:49 | the upper-cased plate has the same length, each letter capitalised and no lower-case letter left |
| `Text.UpperIdempotent` | app.py:175 | upper-casing a stored (already upper-cased) plate again changes nothing, so exit finds what entry stored |
| `Text.UpperOfCapitals` | app.py:49 | a plate without lower-case letters is stored as given |
| `Text.Lower` | frontend/src/components/VehicleTable.jsx:13 | the lower-cased text has the same length and no capital left |
| `Text.ContainsIff` | frontend/src/components/VehicleTable.jsx:13 | `includes` holds exactly when the search text occurs at some index of the plate |
| `Text.ContainsEmpty` | frontend/src/components/VehicleTable.jsx:13 | every plate includes the empty search text |
| `Vehicles.Created` | backend/models.py:12-16 | a new row gets entry time = creation time, no exit time and no cost; the given fields are kept |
| `Vehicles.SchemaAppend` | backend/models.py:9-10 | an insert satisfies the constraints iff its id and plate are new (plate compared with every row, closed ones too) |
| `Vehicles.SchemaSameKeys` | backend/models.py:9-10 | rewriting rows without changing ids or plates keeps the constraints |
| `Vehicles.SchemaRemove` | backend/models.py:9-10 | deleting a row keeps the constraints |
| `Vehicles.ToDict` | backend/models.py:18-28 | exactly the eight keys; id, plate, type, is_electric, slot copied; a NULL entry/exit time or cost becomes null and only then; `FromDict` recovers the row |
| `Vehicles.ToDictInjective` | backend/models.py:18-28 | two rows with the same dictionary are the same row |
| `Billing.Rate` | app.py:17-27 | the rate is 62 exactly for type "moto" and 120 for every other type |
| `Billing.Departure` | app.py:25 | the stay ends at the exit time if there is one, else at `now` |
| `Billing.Cost` | app.py:24-31 | pricing fails exactly when the entry time is NULL |
| `Billing.ChargeOneHour` | app.py:26-28 | one hour costs the hourly rate: 62 for "moto", 120 for "carro" |
| `Billing.ChargeElectric` | app.py:29-30 | an electric vehicle pays 0.75 of the fee |
| `Billing.ChargeZero` | app.py:26-28 | a stay of zero seconds costs 0 |
| `Billing.ChargeLinear` | app.py:26-28 | the fee is additive and scales with the duration (no minimum, no rounding up) |
| `Billing.ChargeMonotone` | app.py:26-28 | a longer stay never costs less; a non-negative stay costs nothing negative |
| `Billing.CostOfOpenStay` | app.py:25 | for an active row the cost equals the cost of leaving at `now` |
| `Billing.CostOfClosedStay` | app.py:25 | once the exit time is set, the cost does not depend on `now` |
| `Parking.ActiveIndex` | app.py:52 | finds the first row that is active with the plate, or reports that no row is |
| `Parking.IndexOfId` | app.py:121 | finds a row with the id, or reports that no row has it |
| `Parking.ActiveCount` | app.py:58 | the active count of a type is at most the row count and is 0 iff no active row has that type |
| `Parking.ActiveCountConcat` | app.py:58 | the active count of two tables laid end to end is the sum of their counts |
| `Parking.ActiveCountUpdate` | app.py:179-180 | replacing a row changes the count by what the new row adds minus what the old one took |
| `Parking.AdmitKeepsCapacity` | app.py:58-67 | admitting a row of a type with a free place keeps that type, and every type, within its places |
| `Parking.ActiveCountRemove` | app.py:151-153 | deleting a row lowers the count by what it took |
| `Parking.CapacityAfterClosing` | app.py:179-181 | closing a row keeps every type within its places |
| `Parking.CapacityAfterRemove` | app.py:151-153 | deleting a row keeps every type within its places |
| `Parking.CapacityWhenNoneActive` | app.py:198-203 | a table without active rows is within capacity |
| `Parking.NoneParkedAfterClosing` | app.py:175-182 | with unique plates, once the found row is closed no active row has the plate, so a second exit is answered 404 |
| `Parking.Checkout` | app.py:179-180 | the row gets exit time `now` and the cost of leaving now; this fails exactly when the entry time is NULL |
| `Parking.CloseIfActive` | app.py:199-201 | a close-day step leaves a row closed with the same id and plate, and leaves an already closed row unchanged; an active row gets exit time `now` and the cost of leaving now, which fails exactly when its entry time is NULL |
| `Parking.CloseAll` | app.py:196-203 | a successful close-day keeps the row count |
| `Parking.CloseAllPointwise` | app.py:198-203 | close-day succeeds iff every row can be treated by `CloseIfActive` (every active row can be priced), and then row k of the result is row k treated |
| `Parking.CloseAllStep` | app.py:198-202 | closing one more row extends the result by that row |
| `Parking.CloseAllPrefixFails` | app.py:198-203 | a failure part-way through fails the whole close-day |
| `Parking.TotalCostStep` | app.py:202 | the total grows by each row's cost, an absent cost counting 0 |
| `Parking.CloseAllShape` | app.py:198-201 | after close-day no row is active, and ids and plates are unchanged |
| `Parking.CloseAllWhenNoneActive` | app.py:198-203 | close-day leaves a table without active rows unchanged |
| `Parking.CloseDayRepeat` | app.py:196-207 | a second close-day with no entries in between changes nothing, so it reports the same total |
| `Parking.Patched` | app.py:124-126 | every field the body names takes the given value, every field it does not name is kept, and the id and cost are never touched |
| `Parking.PatchedLaws` | app.py:124-126 | an empty body changes nothing; applying a body twice equals applying it once |
| `Parking.Repriced` | app.py:128-129 | an active row keeps its cost; a row with an exit time gets the recomputed cost, which fails iff its entry time is NULL; nothing else changes |
| `Parking.Lot.constructor` | app.py:246-248 | the table starts empty and valid |
| `Parking.Lot.Entry` | app.py:36-75 | 400 for a type other than moto/carro, for an active row with the upper-cased plate, for a full type, or for a plate held only by a closed row (the unique column's integrity error, `ConstraintViolated`); otherwise appends one active row with the upper-cased plate and slot = active count + 1 (in 1..places); no change on error; keeps every type within capacity |
| `Parking.Lot.Exit` | app.py:157-182 | 404 if no active row has the upper-cased plate; 500 if it cannot be priced; otherwise only that row changes, to the checked-out row; afterwards no active row has the plate; capacity kept |
| `Parking.Lot.Edit` | app.py:93-132 | 404 for an unknown id; otherwise the patched, re-priced row replaces the old one, keeping its id, unless pricing fails (500) or the plate clashes with another row (400) |
| `Parking.Lot.Delete` | app.py:135-154 | 404 for an unknown id; otherwise exactly that row is removed, the others kept in order; capacity kept |
| `Parking.CloseRows` | app.py:196-203 | the loop over the rows computes exactly `CloseAll`, and on success the running total is the sum of the closed rows' costs, an absent cost counting 0 |
| `Parking.Lot.CloseDay` | app.py:185-207 | the table becomes `CloseAll` of the old table and the answer its total cost, or 500 with no change; afterwards nothing is active and capacity holds |
| `Parking.Admit` | app.py:36-71 | an entry that passes every check appends the created row with slot = active count + 1 and keeps the table valid |
| `Parking.ParkTwoMotorcycles` | app.py:58-67 | two motorcycles with distinct upper-case plates entering an empty lot get ids 1, 2 and slots 1, 2 |
| `Parking.LeaveThenEnter` | app.py:58-67 | when the first of two parked motorcycles leaves and a new one enters, the table is [the first, closed; the second, unchanged with slot 2; the newcomer, active with slot 2] |
| `Parking.SlotReuseScenario` | app.py:58-67 | for any three distinct upper-case plates, park two motorcycles, let the first leave, park the third: the resulting valid table holds the first closed and the second and third both active motorcycles in slot 2 |
| `Parking.EditCanExceedCapacity` | app.py:121-131 | in any valid table with all five car places taken, re-typing an active motorcycle as a car passes the edit's checks and leaves six active cars |
| `VehicleTable.Filtered` | frontend/src/components/VehicleTable.jsx:11-15 | keeps exactly the vehicles whose lower-cased plate includes the lower-cased search, dropping nothing that matches |
| `VehicleTable.FilteredConcat` | frontend/src/components/VehicleTable.jsx:11-15 | filtering distributes over concatenation, so the list order is kept |
| `VehicleTable.FilteredAllMatch` | frontend/src/components/VehicleTable.jsx:11-15 | when every vehicle matches, the list is unchanged |
| `VehicleTable.FilteredEmptySearch` | frontend/src/components/VehicleTable.jsx:11-15 | an empty search keeps every vehicle |
| `VehicleTable.TotalPages` | frontend/src/components/VehicleTable.jsx:17 | the fewest pages that hold the rows: pages × perPage ≥ count, one page fewer would not do, 0 iff no rows |
| `VehicleTable.SliceIndex` | frontend/src/components/VehicleTable.jsx:18 | a slice bound lands inside the list and is kept as given when already inside |
| `VehicleTable.Slice` | frontend/src/components/VehicleTable.jsx:18 | `slice` with bounds inside the list is the contiguous run between them; it is empty when end ≤ start and never longer than end − start |
| `VehicleTable.CurrentData` | frontend/src/components/VehicleTable.jsx:18 | a page never shows more than perPage rows |
| `VehicleTable.CurrentDataWindow` | frontend/src/components/VehicleTable.jsx:18 | page p ≥ 1 shows the run from (p-1)×perPage to p×perPage, clipped to the list |
| `VehicleTable.PagesPrefix` | frontend/src/components/VehicleTable.jsx:17-18 | pages 1..k laid end to end are the first k×perPage rows |
| `VehicleTable.PagesCover` | frontend/src/components/VehicleTable.jsx:17-18 | pages 1..totalPages laid end to end are the filtered list |
| `VehicleTable.PrevPage` | frontend/src/components/VehicleTable.jsx:120 | ← never goes below page 1 and goes back one page otherwise |
| `VehicleTable.NextPage` | frontend/src/components/VehicleTable.jsx:130 | → never goes above totalPages and goes forward one page otherwise |
| `VehicleTable.PageMovesStayInRange` | frontend/src/components/VehicleTable.jsx:120-130 | from an existing page both moves reach an existing page |
| `VehicleTable.OnSearchInput` | frontend/src/components/VehicleTable.jsx:39-42 | typing sets the search and resets the page to 1 |
| `VehicleTable.OnPerPageInput` | frontend/src/components/VehicleTable.jsx:46-49 | choosing a page size keeps the page and the search |
| `VehicleTable.SearchShowsFirstMatches` | frontend/src/components/VehicleTable.jsx:39-42 | after typing, the table shows the first perPage matches |
| `VehicleTable.InitialViewShowsFirstFive` | frontend/src/components/VehicleTable.jsx:6-8 | initially every vehicle is listed and the first five are shown |

## Left out

- Billing.Cost: the fee is not rounded to two decimals (`round(…, 2)` at app.py:31). That is floating-point formatting; the model keeps the exact real value.
- Parking.Lot.CloseDay: the answered total is likewise not rounded (app.py:206). The answer's message text is not modelled.
- Text.Upper, Text.Lower: only ASCII letters change case. Python's `upper` and JavaScript's `toLowerCase` also map other Unicode letters, sometimes changing the length.
- Parking.Lot.Edit: the patch values are typed: plate and type are strings, the flag a boolean, the timestamps are seconds. The source assigns the raw JSON values with `setattr`, and the edit form always sends both timestamps, as ISO text or null (frontend/src/components/VehicleEditModal.jsx:28-34). In the source, an `exit_time` given as text makes `calcular_costo` subtract text (app.py:26), which raises and is answered 500 on any engine. On SQLite a text `entry_time` is also rejected at commit, answered 500. The model does not capture these 500 answers. It treats every timestamp edit as already converted to seconds. A null plate or type, or a wrongly typed value, is not modelled either.
- Request parsing is not modelled. An absent plate at entry is the caller passing `""`. An absent type is any string other than "moto" or "carro". An absent `is_electric` is the caller passing false.
- The `is_electric` column also admits NULL. The model uses a plain boolean; in the fee NULL behaves as false.
- Ids come from a counter that never reuses a value. The database's own id policy (whether ids are reused after a delete) is not modelled.
- Parking.Lot.Entry, Parking.Lot.Edit: the store is taken to be SQLite, which does not enforce the `String(10)` length of `plate` or the `String(20)` length of `type`, so an over-long value is stored. On an engine that enforces them (PostgreSQL, strict MySQL) the commit raises `DataError`, which the generic handler answers 500; that behaviour is not modelled. The database URI is set in config.py, which is not part of this model.
- `datetime.now()` is the `now` parameter. `isoformat()` is the abstract `JTime` value.
- Flask routing, the HTTP layer and `db.session` mechanics are not modelled; each handler is one atomic update. An exception escaping a handler is the 500 answer, with nothing committed.
- Concurrency is not modelled. The source takes no locks, and the check-then-insert race at entry is the database's concern.
- `listar_vehiculos` (a plain dump of `to_dict`) and `inicializar_datos` (a drop-and-recreate with demo rows) are not modelled. Neither are the exception-to-response handlers in utils/error_handlers.py; the model uses their status codes (400 for an integrity error, 500 for anything else).
- The JSX markup, the edit modal, the entry form, the summary card, `confirm`/`alert`, the HTTP calls and date formatting are not modelled; only the listing computations are.
