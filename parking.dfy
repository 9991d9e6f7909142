/** The vehicle endpoints of app.py over the `vehicles` table. The table is an
    object holding the rows in insertion order and the next id to hand out;
    each handler is one atomic update of it (its commit), and an error
    response leaves it as it was. `now` stands for `datetime.now()`. */
module Parking {
  import opened Wrappers
  import opened Text
  import opened Vehicles
  import opened Billing

  /** Places per vehicle type: `SLOTS`. */
  const Slots: map<string, nat> := map["moto" := 6, "carro" := 5]

  /** The types the entry endpoint accepts. */
  predicate IsKnownType(vtype: string) {
    vtype == "moto" || vtype == "carro"
  }

  /** Why a request was answered 400. */
  datatype Reason =
    | InvalidType          // type is neither 'moto' nor 'carro'
    | AlreadyInside        // an active row has the plate
    | LotFull              // no place left for the type
    | ConstraintViolated   // the commit broke a table constraint (IntegrityError)

  datatype Failure = BadRequest(reason: Reason) | NotFound | ServerError

  datatype Response<T> = Ok(value: T) | Err(failure: Failure)

  // ---- Queries the handlers run against the table ----

  /** The row is active and has the plate: `filter_by(plate=plate, exit_time=None)`. */
  predicate ParkedWith(v: Vehicle, plate: string) {
    v.IsActive() && v.plate == plate
  }

  /** Index of the first active row with the plate (`.first()`), if any. */
  function ActiveIndex(rows: seq<Vehicle>, plate: string): (r: Option<nat>)
    ensures r.Some? ==> r.value < |rows| && ParkedWith(rows[r.value], plate)
    ensures r.Some? ==> forall k | 0 <= k < r.value :: !ParkedWith(rows[k], plate)
    ensures r.None? <==> forall k | 0 <= k < |rows| :: !ParkedWith(rows[k], plate)
  {
    if rows == [] then None
    else if ParkedWith(rows[0], plate) then Some(0)
    else
      match ActiveIndex(rows[1..], plate)
      case None => None
      case Some(k) => Some(k + 1)
  }

  /** Index of the row with the id (`get_or_404`), if any. */
  function IndexOfId(rows: seq<Vehicle>, id: int): (r: Option<nat>)
    ensures r.Some? ==> r.value < |rows| && rows[r.value].id == id
    ensures r.None? <==> !IdUsed(rows, id)
  {
    if rows == [] then None
    else if rows[0].id == id then Some(0)
    else
      match IndexOfId(rows[1..], id)
      case None => None
      case Some(k) => Some(k + 1)
  }

  /** 1 when the row is an active row of the type, 0 otherwise. */
  function Occupancy(v: Vehicle, vtype: string): nat {
    if v.IsActive() && v.vtype == vtype then 1 else 0
  }

  /** `filter_by(type=vtype, exit_time=None).count()`. */
  function ActiveCount(rows: seq<Vehicle>, vtype: string): (n: nat)
    ensures n <= |rows|
    ensures n == 0 <==> forall k | 0 <= k < |rows| :: Occupancy(rows[k], vtype) == 0
  {
    if rows == [] then 0 else Occupancy(rows[0], vtype) + ActiveCount(rows[1..], vtype)
  }

  /** No type has more active rows than it has places. */
  predicate WithinCapacity(rows: seq<Vehicle>) {
    forall vtype | vtype in Slots :: ActiveCount(rows, vtype) <= Slots[vtype]
  }

  predicate NoActive(rows: seq<Vehicle>) {
    forall k | 0 <= k < |rows| :: !rows[k].IsActive()
  }

  // ---- Counting active rows ----

  lemma {:induction false} ActiveCountConcat(a: seq<Vehicle>, b: seq<Vehicle>, vtype: string)
    ensures ActiveCount(a + b, vtype) == ActiveCount(a, vtype) + ActiveCount(b, vtype)
  {
    if a == [] {
      assert a + b == b;
    } else {
      assert (a + b)[1..] == a[1..] + b;
      ActiveCountConcat(a[1..], b, vtype);
    }
  }

  /** Replacing one row changes the count by what the new row adds and the old
      one took away. */
  lemma ActiveCountUpdate(rows: seq<Vehicle>, i: nat, w: Vehicle, vtype: string)
    requires i < |rows|
    ensures ActiveCount(rows[i := w], vtype) + Occupancy(rows[i], vtype)
         == ActiveCount(rows, vtype) + Occupancy(w, vtype)
  {
    assert rows == rows[..i] + [rows[i]] + rows[i + 1..];
    assert rows[i := w] == rows[..i] + [w] + rows[i + 1..];
    ActiveCountConcat(rows[..i] + [rows[i]], rows[i + 1..], vtype);
    ActiveCountConcat(rows[..i], [rows[i]], vtype);
    ActiveCountConcat(rows[..i] + [w], rows[i + 1..], vtype);
    ActiveCountConcat(rows[..i], [w], vtype);
  }

  /** Deleting a row takes away what it counted. */
  lemma ActiveCountRemove(rows: seq<Vehicle>, i: nat, vtype: string)
    requires i < |rows|
    ensures ActiveCount(rows[..i] + rows[i + 1..], vtype) + Occupancy(rows[i], vtype) == ActiveCount(rows, vtype)
  {
    assert rows == rows[..i] + [rows[i]] + rows[i + 1..];
    ActiveCountConcat(rows[..i] + [rows[i]], rows[i + 1..], vtype);
    ActiveCountConcat(rows[..i], [rows[i]], vtype);
    ActiveCountConcat(rows[..i], rows[i + 1..], vtype);
  }

  /** Appending a new active row of a type with a free place: the new row's
      type stays within its places, and so does every other type. */
  lemma AdmitKeepsCapacity(rows: seq<Vehicle>, v: Vehicle)
    requires v.vtype in Slots && ActiveCount(rows, v.vtype) < Slots[v.vtype]
    ensures ActiveCount(rows + [v], v.vtype) <= Slots[v.vtype]
    ensures WithinCapacity(rows) ==> WithinCapacity(rows + [v])
  {
    forall t | t in Slots
      ensures ActiveCount(rows + [v], t) == ActiveCount(rows, t) + Occupancy(v, t)
    {
      ActiveCountConcat(rows, [v], t);
    }
  }

  /** Replacing a row by an inactive one keeps every type within capacity. */
  lemma CapacityAfterClosing(rows: seq<Vehicle>, i: nat, w: Vehicle)
    requires i < |rows| && !w.IsActive() && WithinCapacity(rows)
    ensures WithinCapacity(rows[i := w])
  {
    forall vtype | vtype in Slots
      ensures ActiveCount(rows[i := w], vtype) <= Slots[vtype]
    {
      ActiveCountUpdate(rows, i, w, vtype);
    }
  }

  /** Deleting a row keeps every type within capacity. */
  lemma CapacityAfterRemove(rows: seq<Vehicle>, i: nat)
    requires i < |rows| && WithinCapacity(rows)
    ensures WithinCapacity(rows[..i] + rows[i + 1..])
  {
    forall vtype | vtype in Slots
      ensures ActiveCount(rows[..i] + rows[i + 1..], vtype) <= Slots[vtype]
    {
      ActiveCountRemove(rows, i, vtype);
    }
  }

  /** A table without active rows is within capacity. */
  lemma CapacityWhenNoneActive(rows: seq<Vehicle>)
    requires NoActive(rows)
    ensures WithinCapacity(rows)
  {
    forall vtype | vtype in Slots
      ensures ActiveCount(rows, vtype) == 0
    {
    }
  }

  /** With plates unique, the active row with a plate is the only row with it,
      so once it is closed no active row has the plate. */
  lemma NoneParkedAfterClosing(rows: seq<Vehicle>, plate: string, w: Vehicle)
    requires PlatesUnique(rows)
    requires ActiveIndex(rows, plate).Some?
    requires w.plate == plate && !w.IsActive()
    ensures ActiveIndex(rows[ActiveIndex(rows, plate).value := w], plate).None?
  {
    var i := ActiveIndex(rows, plate).value;
    var rows' := rows[i := w];
    forall k | 0 <= k < |rows'|
      ensures !ParkedWith(rows'[k], plate)
    {
      if k != i {
        assert rows[k].plate != rows[i].plate by {
          if k < i {
            assert rows[k].plate != rows[i].plate;
          } else {
            assert rows[i].plate != rows[k].plate;
          }
        }
      }
    }
  }

  // ---- Exit and close-day ----

  /** Closes an active row at `now`: `exit_time = now`, then `cost =
      calcular_costo(...)`, which fails when the row has no entry time. */
  function Checkout(v: Vehicle, now: int): (r: Option<Vehicle>)
    requires v.IsActive()
    ensures r.None? <==> v.entryTime.None?
    ensures r.Some? ==> r.value == v.(exitTime := Some(now), cost := Cost(v, now))
  {
    var leaving := v.(exitTime := Some(now));
    match Cost(leaving, now)
    case None => None
    case Some(c) => Some(leaving.(cost := Some(c)))
  }

  /** One step of the close-day loop: an active row is checked out, a closed
      one kept. */
  function CloseIfActive(v: Vehicle, now: int): (r: Option<Vehicle>)
    ensures r.Some? ==> !r.value.IsActive() && r.value.id == v.id && r.value.plate == v.plate
    ensures !v.IsActive() ==> r == Some(v)
    ensures v.IsActive() ==> (r.None? <==> v.entryTime.None?)
    ensures v.IsActive() && r.Some? ==> r.value.exitTime == Some(now) && r.value.cost == Cost(v, now)
  {
    if v.IsActive() then Checkout(v, now) else Some(v)
  }

  /** The table after close-day: every row checked out if it was active;
      `None` when some active row cannot be priced. */
  function CloseAll(rows: seq<Vehicle>, now: int): (r: Option<seq<Vehicle>>)
    ensures r.Some? ==> |r.value| == |rows|
  {
    if rows == [] then Some([])
    else
      var last := |rows| - 1;
      match CloseAll(rows[..last], now)
      case None => None
      case Some(done) =>
        match CloseIfActive(rows[last], now)
        case None => None
        case Some(w) => Some(done + [w])
  }

  /** Close-day treats each row on its own: it succeeds exactly when every row
      can be closed, and then row k of the result is row k closed. */
  lemma {:induction false} CloseAllPointwise(rows: seq<Vehicle>, now: int)
    ensures CloseAll(rows, now).Some? <==> forall k | 0 <= k < |rows| :: CloseIfActive(rows[k], now).Some?
    ensures CloseAll(rows, now).Some? ==>
      forall k | 0 <= k < |rows| :: CloseIfActive(rows[k], now) == Some(CloseAll(rows, now).value[k])
  {
    if rows != [] {
      var last := |rows| - 1;
      var front := rows[..last];
      CloseAllPointwise(front, now);
      assert forall k | 0 <= k < last :: rows[k] == front[k];
      match CloseAll(front, now)
      case None =>
        var k :| 0 <= k < last && CloseIfActive(front[k], now).None?;
        assert CloseIfActive(rows[k], now).None?;
      case Some(done) =>
        match CloseIfActive(rows[last], now)
        case None =>
        case Some(w) =>
          assert CloseAll(rows, now) == Some(done + [w]);
    }
  }

  /** `v.cost or 0`. */
  function CostOrZero(v: Vehicle): real {
    match v.cost
    case None => 0.0
    case Some(c) => c
  }

  /** The sum of every row's cost, an absent cost counting as 0. */
  function TotalCost(rows: seq<Vehicle>): real {
    if rows == [] then 0.0 else TotalCost(rows[..|rows| - 1]) + CostOrZero(rows[|rows| - 1])
  }

  /** The close-day loop's step: closing one more row extends the result. */
  lemma CloseAllStep(rows: seq<Vehicle>, i: nat, now: int)
    requires i < |rows|
    ensures CloseAll(rows[..i + 1], now) ==
      match CloseAll(rows[..i], now)
      case None => None
      case Some(done) =>
        match CloseIfActive(rows[i], now)
        case None => None
        case Some(w) => Some(done + [w])
  {
    assert rows[..i + 1][..i] == rows[..i];
  }

  /** Once a prefix of the table cannot be closed, neither can the table. */
  lemma CloseAllPrefixFails(rows: seq<Vehicle>, i: nat, now: int)
    requires i <= |rows|
    requires CloseAll(rows[..i], now).None?
    ensures CloseAll(rows, now).None?
  {
    CloseAllPointwise(rows[..i], now);
    CloseAllPointwise(rows, now);
    var k :| 0 <= k < i && CloseIfActive(rows[..i][k], now).None?;
    assert rows[k] == rows[..i][k];
  }

  lemma TotalCostStep(rows: seq<Vehicle>, i: nat)
    requires i < |rows|
    ensures TotalCost(rows[..i + 1]) == TotalCost(rows[..i]) + CostOrZero(rows[i])
  {
    assert rows[..i + 1][..i] == rows[..i];
  }

  /** After close-day no row is active, and ids and plates are as before. */
  lemma CloseAllShape(rows: seq<Vehicle>, now: int)
    requires CloseAll(rows, now).Some?
    ensures NoActive(CloseAll(rows, now).value)
    ensures forall k | 0 <= k < |rows| ::
      CloseAll(rows, now).value[k].id == rows[k].id && CloseAll(rows, now).value[k].plate == rows[k].plate
  {
    CloseAllPointwise(rows, now);
    var r := CloseAll(rows, now).value;
    forall k | 0 <= k < |rows|
      ensures !r[k].IsActive() && r[k].id == rows[k].id && r[k].plate == rows[k].plate
    {
      assert CloseIfActive(rows[k], now) == Some(r[k]);
    }
  }

  /** A table without active rows is left as it is by close-day. */
  lemma CloseAllWhenNoneActive(rows: seq<Vehicle>, now: int)
    requires NoActive(rows)
    ensures CloseAll(rows, now) == Some(rows)
  {
    CloseAllPointwise(rows, now);
    assert forall k | 0 <= k < |rows| :: CloseIfActive(rows[k], now) == Some(rows[k]);
    assert CloseAll(rows, now).Some?;
    var r := CloseAll(rows, now).value;
    assert |r| == |rows|;
    assert forall k | 0 <= k < |rows| :: r[k] == rows[k];
    assert r == rows;
  }

  /** Closing the day twice with no entries in between changes nothing the
      second time and reports the same total. */
  lemma CloseDayRepeat(rows: seq<Vehicle>, now: int, later: int)
    requires CloseAll(rows, now).Some?
    ensures CloseAll(CloseAll(rows, now).value, later) == CloseAll(rows, now)
  {
    CloseAllShape(rows, now);
    CloseAllWhenNoneActive(CloseAll(rows, now).value, later);
  }

  // ---- Edit ----

  /** The request body of an edit: each field present or absent. For the
      nullable timestamps, `Some(None)` sets NULL. */
  datatype Patch = Patch(
    plate: Option<string>,
    vtype: Option<string>,
    isElectric: Option<bool>,
    entryTime: Option<Option<int>>,
    exitTime: Option<Option<int>>,
    slot: Option<int>)

  const NoChange: Patch := Patch(None, None, None, None, None, None)

  function Overwrite<T>(current: T, given: Option<T>): T {
    match given
    case None => current
    case Some(x) => x
  }

  /** The `setattr` loop: each field present in the body is overwritten; id
      and cost are never among them. */
  function Patched(v: Vehicle, p: Patch): (r: Vehicle)
    ensures r.id == v.id && r.cost == v.cost
    ensures p.plate.None? ==> r.plate == v.plate
    ensures p.vtype.None? ==> r.vtype == v.vtype
    ensures p.isElectric.None? ==> r.isElectric == v.isElectric
    ensures p.entryTime.None? ==> r.entryTime == v.entryTime
    ensures p.exitTime.None? ==> r.exitTime == v.exitTime
    ensures p.slot.None? ==> r.slot == v.slot
    ensures p.plate.Some? ==> r.plate == p.plate.value
    ensures p.vtype.Some? ==> r.vtype == p.vtype.value
    ensures p.isElectric.Some? ==> r.isElectric == p.isElectric.value
    ensures p.entryTime.Some? ==> r.entryTime == p.entryTime.value
    ensures p.exitTime.Some? ==> r.exitTime == p.exitTime.value
    ensures p.slot.Some? ==> r.slot == p.slot.value
  {
    v.(plate := Overwrite(v.plate, p.plate),
       vtype := Overwrite(v.vtype, p.vtype),
       isElectric := Overwrite(v.isElectric, p.isElectric),
       entryTime := Overwrite(v.entryTime, p.entryTime),
       exitTime := Overwrite(v.exitTime, p.exitTime),
       slot := Overwrite(v.slot, p.slot))
  }

  /** An empty body changes nothing; applying the same body twice is applying it once. */
  lemma PatchedLaws(v: Vehicle, p: Patch)
    ensures Patched(v, NoChange) == v
    ensures Patched(Patched(v, p), p) == Patched(v, p)
  {
  }

  /** After the patch: when the row has an exit time its cost is recomputed
      (failing when it has no entry time); otherwise the cost is left as it was. */
  function Repriced(v: Vehicle): (r: Option<Vehicle>)
    ensures v.IsActive() ==> r == Some(v)
    ensures v.exitTime.Some? ==> (r.None? <==> v.entryTime.None?)
    ensures r.Some? ==> r.value == v.(cost := r.value.cost)
    ensures r.Some? && v.exitTime.Some? ==> r.value.cost == Cost(v, v.exitTime.value)
  {
    match v.exitTime
    case None => Some(v)
    case Some(t) =>
      match Cost(v, t)
      case None => None
      case Some(c) => Some(v.(cost := Some(c)))
  }

  // ---- The table ----

  class Lot {
    var vehicles: seq<Vehicle>
    var nextId: int

    /** The constraints hold and every id is below the next one handed out. */
    ghost predicate Valid()
      reads this
    {
      && SatisfiesSchema(vehicles)
      && 1 <= nextId
      && forall k | 0 <= k < |vehicles| :: 1 <= vehicles[k].id < nextId
    }

    constructor ()
      ensures Valid() && vehicles == [] && nextId == 1
    {
      vehicles := [];
      nextId := 1;
    }

    /** `ingresar_vehiculo`. */
    method Entry(vtype: string, plate: string, isElectric: bool, now: int) returns (r: Response<Vehicle>)
      requires Valid()
      modifies this
      ensures Valid()
      ensures !IsKnownType(vtype) ==> r == Err(BadRequest(InvalidType))
      ensures IsKnownType(vtype) && ActiveIndex(old(vehicles), Upper(plate)).Some?
        ==> r == Err(BadRequest(AlreadyInside))
      ensures IsKnownType(vtype) && ActiveIndex(old(vehicles), Upper(plate)).None?
              && ActiveCount(old(vehicles), vtype) >= Slots[vtype]
        ==> r == Err(BadRequest(LotFull))
      ensures IsKnownType(vtype) && ActiveIndex(old(vehicles), Upper(plate)).None?
              && ActiveCount(old(vehicles), vtype) < Slots[vtype]
              && PlateUsed(old(vehicles), Upper(plate))
        ==> r == Err(BadRequest(ConstraintViolated))
      ensures r.Ok? <==>
        && IsKnownType(vtype)
        && ActiveCount(old(vehicles), vtype) < Slots[vtype]
        && !PlateUsed(old(vehicles), Upper(plate))
      ensures r.Err? ==> r.failure.BadRequest? && vehicles == old(vehicles) && nextId == old(nextId)
      ensures r.Ok? ==>
        && r.value == Created(old(nextId), Upper(plate), vtype, isElectric, ActiveCount(old(vehicles), vtype) + 1, now)
        && vehicles == old(vehicles) + [r.value]
        && nextId == old(nextId) + 1
      ensures r.Ok? ==> 1 <= r.value.slot <= Slots[vtype] && ActiveCount(vehicles, vtype) <= Slots[vtype]
      ensures old(WithinCapacity(vehicles)) ==> WithinCapacity(vehicles)
    {
      if !IsKnownType(vtype) {
        return Err(BadRequest(InvalidType));
      }
      var p := Upper(plate);
      if ActiveIndex(vehicles, p).Some? {
        return Err(BadRequest(AlreadyInside));
      }
      var occupied := ActiveCount(vehicles, vtype);
      if occupied >= Slots[vtype] {
        return Err(BadRequest(LotFull));
      }
      var v := Created(nextId, p, vtype, isElectric, occupied + 1, now);
      SchemaAppend(vehicles, v);
      assert !IdUsed(vehicles, v.id);
      if !SatisfiesSchema(vehicles + [v]) {
        return Err(BadRequest(ConstraintViolated));
      }
      AdmitKeepsCapacity(vehicles, v);
      vehicles := vehicles + [v];
      nextId := nextId + 1;
      r := Ok(v);
    }

    /** `salida_vehiculo`. */
    method Exit(plate: string, now: int) returns (r: Response<Vehicle>)
      requires Valid()
      modifies this
      ensures Valid() && nextId == old(nextId)
      ensures match ActiveIndex(old(vehicles), Upper(plate))
        case None => r == Err(NotFound) && vehicles == old(vehicles)
        case Some(i) =>
          match Checkout(old(vehicles)[i], now)
          case None => r == Err(ServerError) && vehicles == old(vehicles)
          case Some(w) => r == Ok(w) && vehicles == old(vehicles)[i := w]
      ensures r.Ok? ==> ActiveIndex(vehicles, Upper(plate)).None?
      ensures old(WithinCapacity(vehicles)) ==> WithinCapacity(vehicles)
    {
      var p := Upper(plate);
      match ActiveIndex(vehicles, p)
      case None =>
        r := Err(NotFound);
      case Some(i) =>
        match Checkout(vehicles[i], now)
        case None =>
          r := Err(ServerError);
        case Some(w) =>
          SchemaSameKeys(vehicles, vehicles[i := w]);
          NoneParkedAfterClosing(vehicles, p, w);
          if WithinCapacity(vehicles) {
            CapacityAfterClosing(vehicles, i, w);
          }
          vehicles := vehicles[i := w];
          r := Ok(w);
    }

    /** `actualizar_vehiculo`. */
    method Edit(id: int, patch: Patch) returns (r: Response<Vehicle>)
      requires Valid()
      modifies this
      ensures Valid() && nextId == old(nextId)
      ensures match IndexOfId(old(vehicles), id)
        case None => r == Err(NotFound) && vehicles == old(vehicles)
        case Some(i) =>
          match Repriced(Patched(old(vehicles)[i], patch))
          case None => r == Err(ServerError) && vehicles == old(vehicles)
          case Some(w) =>
            if SatisfiesSchema(old(vehicles)[i := w]) then r == Ok(w) && vehicles == old(vehicles)[i := w]
            else r == Err(BadRequest(ConstraintViolated)) && vehicles == old(vehicles)
      ensures r.Ok? ==> r.value.id == id
    {
      match IndexOfId(vehicles, id)
      case None =>
        r := Err(NotFound);
      case Some(i) =>
        match Repriced(Patched(vehicles[i], patch))
        case None =>
          r := Err(ServerError);
        case Some(w) =>
          if SatisfiesSchema(vehicles[i := w]) {
            vehicles := vehicles[i := w];
            r := Ok(w);
          } else {
            r := Err(BadRequest(ConstraintViolated));
          }
    }

    /** `eliminar_vehiculo`. */
    method Delete(id: int) returns (r: Response<()>)
      requires Valid()
      modifies this
      ensures Valid() && nextId == old(nextId)
      ensures match IndexOfId(old(vehicles), id)
        case None => r == Err(NotFound) && vehicles == old(vehicles)
        case Some(i) => r == Ok(()) && vehicles == old(vehicles)[..i] + old(vehicles)[i + 1..]
      ensures !IdUsed(vehicles, id)
      ensures old(WithinCapacity(vehicles)) ==> WithinCapacity(vehicles)
    {
      match IndexOfId(vehicles, id)
      case None =>
        r := Err(NotFound);
      case Some(i) =>
        var rest := vehicles[..i] + vehicles[i + 1..];
        SchemaRemove(vehicles, i);
        forall k | 0 <= k < |rest|
          ensures rest[k] == vehicles[if k < i then k else k + 1]
        {
        }
        if WithinCapacity(vehicles) {
          CapacityAfterRemove(vehicles, i);
        }
        vehicles := rest;
        r := Ok(());
    }

    /** `cierre_dia`: checks out every active row at `now`, then answers the
        sum of all costs. */
    method CloseDay(now: int) returns (r: Response<real>)
      requires Valid()
      modifies this
      ensures Valid() && nextId == old(nextId)
      ensures match CloseAll(old(vehicles), now)
        case None => r == Err(ServerError) && vehicles == old(vehicles)
        case Some(rows) => r == Ok(TotalCost(rows)) && vehicles == rows
      ensures r.Ok? ==> NoActive(vehicles) && WithinCapacity(vehicles)
    {
      var closed, total := CloseRows(vehicles, now);
      match closed
      case None =>
        r := Err(ServerError);
      case Some(rows) =>
        CloseAllShape(vehicles, now);
        SchemaSameKeys(vehicles, rows);
        CapacityWhenNoneActive(rows);
        vehicles := rows;
        r := Ok(total);
    }
  }

  /** The loop of `cierre_dia` over the rows as read: each active row is
      checked out at `now` and every row's cost added to the total. The rows
      are changed on a copy, which the caller commits. */
  method CloseRows(rows: seq<Vehicle>, now: int) returns (closed: Option<seq<Vehicle>>, total: real)
    ensures closed == CloseAll(rows, now)
    ensures closed.Some? ==> total == TotalCost(closed.value)
  {
    var current := rows;
    total := 0.0;
    var i := 0;
    while i < |current|
      invariant 0 <= i <= |current| == |rows|
      invariant CloseAll(rows[..i], now) == Some(current[..i])
      invariant current[i..] == rows[i..]
      invariant total == TotalCost(current[..i])
    {
      assert current[i] == rows[i];
      CloseAllStep(rows, i, now);
      var next := CloseIfActive(current[i], now);
      if next.None? {
        CloseAllPrefixFails(rows, i + 1, now);
        return None, total;
      }
      current := current[i := next.value];
      assert current[..i + 1] == current[..i] + [next.value];
      TotalCostStep(current, i);
      total := total + CostOrZero(current[i]);
      i := i + 1;
    }
    assert rows[..i] == rows && current[..i] == current;
    closed := Some(current);
  }

  // ---- What the handlers do not guarantee ----

  /** The queries on a table of two rows. */
  lemma TwoRowQueries(x: Vehicle, y: Vehicle, vtype: string, plate: string)
    ensures ActiveCount([x, y], vtype) == Occupancy(x, vtype) + Occupancy(y, vtype)
    ensures PlateUsed([x, y], plate) <==> x.plate == plate || y.plate == plate
    ensures ActiveIndex([x, y], plate) ==
      if ParkedWith(x, plate) then Some(0) else if ParkedWith(y, plate) then Some(1) else None
  {
    assert [x, y][1..] == [y];
    assert [x, y][1..][1..] == [];
  }

  lemma OneRowQueries(x: Vehicle, vtype: string, plate: string)
    ensures ActiveCount([x], vtype) == Occupancy(x, vtype)
    ensures PlateUsed([x], plate) <==> x.plate == plate
  {
    assert [x][1..] == [];
  }

  /** An entry that passes every check: an upper-case plate that is new to
      the table, for a type with a free place. */
  method Admit(lot: Lot, vtype: string, plate: string, now: int) returns (v: Vehicle)
    requires lot.Valid() && IsKnownType(vtype)
    requires Upper(plate) == plate
    requires ActiveCount(lot.vehicles, vtype) < Slots[vtype] && !PlateUsed(lot.vehicles, plate)
    modifies lot
    ensures lot.Valid() && lot.nextId == old(lot.nextId) + 1 && lot.vehicles == old(lot.vehicles) + [v]
    ensures v == Created(old(lot.nextId), plate, vtype, false, ActiveCount(old(lot.vehicles), vtype) + 1, now)
  {
    var r := lot.Entry(vtype, plate, false, now);
    v := r.value;
  }

  /** Two motorcycles park in an empty lot and get slots 1 and 2. */
  method ParkTwoMotorcycles(lot: Lot, pa: string, pb: string, ta: int, tb: int) returns (first: Vehicle, second: Vehicle)
    requires lot.Valid() && lot.vehicles == [] && lot.nextId == 1
    requires Upper(pa) == pa && Upper(pb) == pb && pa != pb
    modifies lot
    ensures lot.Valid() && lot.vehicles == [first, second]
    ensures first == Created(1, pa, "moto", false, 1, ta)
    ensures second == Created(2, pb, "moto", false, 2, tb)
  {
    first := Admit(lot, "moto", pa, ta);
    OneRowQueries(first, "moto", pb);
    second := Admit(lot, "moto", pb, tb);
  }

  /** Slots are numbered by the active count, not by what is free: when the
      first of two parked motorcycles leaves, the next one is given the slot
      the second still occupies, and the table then holds two active
      motorcycles in slot 2. */
  method SlotReuseScenario(pa: string, pb: string, pc: string, ta: int, tb: int, tx: int, tc: int)
    returns (rows: seq<Vehicle>)
    requires Upper(pa) == pa && Upper(pb) == pb && Upper(pc) == pc
    requires pa != pb && pa != pc && pb != pc
    ensures SatisfiesSchema(rows) && |rows| == 3
    ensures rows[0].plate == pa && !rows[0].IsActive()
    ensures rows[1].plate == pb && rows[2].plate == pc
    ensures rows[1].IsActive() && rows[2].IsActive() && rows[1].vtype == rows[2].vtype == "moto"
    ensures rows[1].slot == rows[2].slot == 2
  {
    var lot := new Lot();
    var first, second := ParkTwoMotorcycles(lot, pa, pb, ta, tb);
    var third := LeaveThenEnter(lot, first, second, pc, tx, tc);
    rows := lot.vehicles;
  }

  /** The first of two parked motorcycles leaves and another arrives: the
      newcomer is numbered after the one active motorcycle, so it gets the
      slot the second still holds. */
  method LeaveThenEnter(lot: Lot, first: Vehicle, second: Vehicle, pc: string, tx: int, tc: int)
    returns (third: Vehicle)
    requires lot.Valid() && lot.vehicles == [first, second]
    requires first.IsActive() && second.IsActive() && first.vtype == second.vtype == "moto"
    requires first.plate != second.plate && first.entryTime.Some?
    requires Upper(first.plate) == first.plate && Upper(pc) == pc
    requires pc != first.plate && pc != second.plate
    modifies lot
    ensures lot.Valid() && |lot.vehicles| == 3
    ensures lot.vehicles[0].plate == first.plate && !lot.vehicles[0].IsActive()
    ensures lot.vehicles[1] == second && lot.vehicles[2] == third
    ensures third.IsActive() && third.vtype == "moto" && third.plate == pc && third.slot == 2
  {
    TwoRowQueries(first, second, "moto", first.plate);
    var x := lot.Exit(first.plate, tx);
    assert x.Ok? && lot.vehicles == [x.value, second];
    TwoRowQueries(x.value, second, "moto", pc);
    third := Admit(lot, "moto", pc, tc);
  }

  /** Edit does not check capacity: in a table whose five car places are all
      taken, re-typing an active motorcycle as a car passes every check the
      edit makes and leaves six active cars. */
  lemma EditCanExceedCapacity(rows: seq<Vehicle>, i: nat)
    requires SatisfiesSchema(rows)
    requires ActiveCount(rows, "carro") == Slots["carro"]
    requires i < |rows| && rows[i].IsActive() && rows[i].vtype == "moto"
    ensures var edited := Patched(rows[i], NoChange.(vtype := Some("carro")));
            && Repriced(edited) == Some(edited)
            && SatisfiesSchema(rows[i := edited])
            && ActiveCount(rows[i := edited], "carro") == Slots["carro"] + 1
  {
    var edited := Patched(rows[i], NoChange.(vtype := Some("carro")));
    SchemaSameKeys(rows, rows[i := edited]);
    ActiveCountUpdate(rows, i, edited, "carro");
  }
}
