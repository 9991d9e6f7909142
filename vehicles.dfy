/** The `vehicles` table row (backend/models.py): one vehicle's visit to the lot,
    the constraints the database enforces on the table, and the `to_dict`
    projection sent to clients. Timestamps are whole seconds. */
module Vehicles {
  import opened Wrappers

  /** One row. `vtype` is the `type` column (free text: "moto" and "carro" are
      the values the entry endpoint accepts); `None` is SQL NULL for the
      nullable columns `entry_time`, `exit_time` and `cost`. */
  datatype Vehicle = Vehicle(
    id: int,
    plate: string,
    vtype: string,
    isElectric: bool,
    entryTime: Option<int>,
    exitTime: Option<int>,
    slot: int,
    cost: Option<real>)
  {
    /** Still parked: the endpoints select active rows with `exit_time=None`. */
    predicate IsActive() {
      exitTime.None?
    }
  }

  /** A row as inserted when only the non-defaulted columns are given: the
      column defaults fill `entry_time` with the creation time and leave
      `exit_time` and `cost` NULL. */
  function Created(id: int, plate: string, vtype: string, isElectric: bool, slot: int, now: int): (v: Vehicle)
    ensures v.IsActive() && v.cost.None? && v.entryTime == Some(now)
    ensures v.id == id && v.plate == plate && v.vtype == vtype && v.isElectric == isElectric && v.slot == slot
  {
    Vehicle(id, plate, vtype, isElectric, Some(now), None, slot, None)
  }

  // ---- Table constraints ----
  // The column lengths (`String(10)` for plate, `String(20)` for type) are
  // not constraints here: SQLite stores longer text unchecked.

  /** The primary key: no two rows share an id. */
  predicate IdsUnique(rows: seq<Vehicle>) {
    forall i, j | 0 <= i < j < |rows| :: rows[i].id != rows[j].id
  }

  /** `unique=True` on `plate`: no two rows share a plate, whether active or not. */
  predicate PlatesUnique(rows: seq<Vehicle>) {
    forall i, j | 0 <= i < j < |rows| :: rows[i].plate != rows[j].plate
  }

  /** Every constraint a commit of the table must satisfy. */
  predicate SatisfiesSchema(rows: seq<Vehicle>) {
    IdsUnique(rows) && PlatesUnique(rows)
  }

  predicate PlateUsed(rows: seq<Vehicle>, plate: string) {
    exists i | 0 <= i < |rows| :: rows[i].plate == plate
  }

  predicate IdUsed(rows: seq<Vehicle>, id: int) {
    exists i | 0 <= i < |rows| :: rows[i].id == id
  }

  /** Inserting a row keeps the table valid exactly when its id and plate are
      new. */
  lemma SchemaAppend(rows: seq<Vehicle>, v: Vehicle)
    requires SatisfiesSchema(rows)
    ensures SatisfiesSchema(rows + [v]) <==> !IdUsed(rows, v.id) && !PlateUsed(rows, v.plate)
  {
    var rs := rows + [v];
    if !IdUsed(rows, v.id) && !PlateUsed(rows, v.plate) {
      forall i, j | 0 <= i < j < |rs|
        ensures rs[i].id != rs[j].id && rs[i].plate != rs[j].plate
      {
        if j == |rows| {
          assert rs[i] == rows[i];
        } else {
          assert rs[i] == rows[i] && rs[j] == rows[j];
        }
      }
    } else {
      var i :| 0 <= i < |rows| && (rows[i].id == v.id || rows[i].plate == v.plate);
      assert rs[i] == rows[i] && rs[|rows|] == v;
    }
  }

  /** Rewriting rows without touching any id or plate keeps the table valid. */
  lemma SchemaSameKeys(rows: seq<Vehicle>, rows': seq<Vehicle>)
    requires SatisfiesSchema(rows)
    requires |rows'| == |rows|
    requires forall i | 0 <= i < |rows| :: rows'[i].id == rows[i].id && rows'[i].plate == rows[i].plate
    ensures SatisfiesSchema(rows')
  {
  }

  /** Deleting a row keeps the table valid. */
  lemma SchemaRemove(rows: seq<Vehicle>, k: nat)
    requires SatisfiesSchema(rows)
    requires k < |rows|
    ensures SatisfiesSchema(rows[..k] + rows[k + 1..])
  {
    var rs := rows[..k] + rows[k + 1..];
    forall i | 0 <= i < |rs|
      ensures rs[i] == rows[if i < k then i else i + 1]
    {
    }
  }

  // ---- to_dict ----

  /** The JSON values `to_dict` produces; `JTime` stands for the `isoformat()`
      text of a timestamp. */
  datatype Json = JNull | JBool(b: bool) | JInt(i: int) | JReal(r: real) | JStr(s: string) | JTime(t: int)

  const DictKeys: set<string> :=
    {"id", "plate", "type", "is_electric", "entry_time", "exit_time", "slot", "cost"}

  function TimeJson(t: Option<int>): Json {
    match t
    case None => JNull
    case Some(x) => JTime(x)
  }

  function CostJson(c: Option<real>): Json {
    match c
    case None => JNull
    case Some(x) => JReal(x)
  }

  /** `to_dict`: the eight columns under their column names; an absent
      timestamp becomes null. Nothing is lost: `FromDict` reads the row back. */
  function ToDict(v: Vehicle): (d: map<string, Json>)
    ensures d.Keys == DictKeys
    ensures d["id"] == JInt(v.id) && d["plate"] == JStr(v.plate) && d["type"] == JStr(v.vtype)
    ensures d["is_electric"] == JBool(v.isElectric) && d["slot"] == JInt(v.slot)
    ensures d["entry_time"] == JNull <==> v.entryTime.None?
    ensures d["exit_time"] == JNull <==> v.exitTime.None?
    ensures d["cost"] == JNull <==> v.cost.None?
    ensures FromDict(d) == Some(v)
  {
    map[
      "id" := JInt(v.id),
      "plate" := JStr(v.plate),
      "type" := JStr(v.vtype),
      "is_electric" := JBool(v.isElectric),
      "entry_time" := TimeJson(v.entryTime),
      "exit_time" := TimeJson(v.exitTime),
      "slot" := JInt(v.slot),
      "cost" := CostJson(v.cost)]
  }

  function TimeOf(j: Json): Option<Option<int>> {
    match j
    case JNull => Some(None)
    case JTime(t) => Some(Some(t))
    case _ => None
  }

  function CostOf(j: Json): Option<Option<real>> {
    match j
    case JNull => Some(None)
    case JReal(x) => Some(Some(x))
    case _ => None
  }

  /** Reads a dictionary of `to_dict`'s shape back into a row. */
  function FromDict(d: map<string, Json>): (r: Option<Vehicle>)
    ensures r.Some? ==> d.Keys == DictKeys
  {
    if d.Keys == DictKeys && d["id"].JInt? && d["plate"].JStr? && d["type"].JStr?
       && d["is_electric"].JBool? && d["slot"].JInt?
       && TimeOf(d["entry_time"]).Some? && TimeOf(d["exit_time"]).Some? && CostOf(d["cost"]).Some?
    then
      Some(Vehicle(d["id"].i, d["plate"].s, d["type"].s, d["is_electric"].b,
                   TimeOf(d["entry_time"]).value, TimeOf(d["exit_time"]).value,
                   d["slot"].i, CostOf(d["cost"]).value))
    else
      None
  }

  /** Two rows with the same dictionary are the same row. */
  lemma ToDictInjective(v: Vehicle, w: Vehicle)
    requires ToDict(v) == ToDict(w)
    ensures v == w
  {
    assert FromDict(ToDict(v)) == Some(v);
  }
}
