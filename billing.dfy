/** `calcular_costo` (app.py): the fee for a stay, hours times the hourly rate
    of the vehicle type, with a quarter off for electric vehicles. Durations are
    whole seconds, the fee a real number (the final rounding is not modelled). */
module Billing {
  import opened Wrappers
  import opened Vehicles

  const RateMoto: int := 62
  const RateCar: int := 120
  const Discount: real := 0.25

  /** Hourly rate: the motorcycle rate for type "moto", the car rate for
      every other type. */
  function Rate(vtype: string): (r: int)
    ensures r == RateMoto <==> vtype == "moto"
    ensures r == RateCar <==> vtype != "moto"
  {
    if vtype == "moto" then RateMoto else RateCar
  }

  /** The fee for a stay of `seconds` seconds. */
  function Charge(seconds: int, vtype: string, isElectric: bool): real {
    var hours := seconds as real / 3600.0;
    var total := hours * Rate(vtype) as real;
    if isElectric then total * (1.0 - Discount) else total
  }

  /** The end of the stay: the exit time, or `now` while the vehicle is inside. */
  function Departure(v: Vehicle, now: int): (t: int)
    ensures v.exitTime.Some? ==> t == v.exitTime.value
    ensures v.IsActive() ==> t == now
  {
    match v.exitTime
    case Some(t) => t
    case None => now
  }

  /** `calcular_costo(v)`. The source subtracts the entry time from the end of
      the stay, which raises when `entry_time` is NULL: that is `None` here. */
  function Cost(v: Vehicle, now: int): (r: Option<real>)
    ensures r.None? <==> v.entryTime.None?
  {
    match v.entryTime
    case None => None
    case Some(entry) => Some(Charge(Departure(v, now) - entry, v.vtype, v.isElectric))
  }

  // ---- Properties of the fee ----

  /** An hour costs the hourly rate: 62 for a motorcycle, 120 for a car. */
  lemma ChargeOneHour(vtype: string)
    ensures Charge(3600, vtype, false) == Rate(vtype) as real
    ensures Charge(3600, "moto", false) == 62.0 && Charge(3600, "carro", false) == 120.0
  {
  }

  /** The electric discount takes a quarter off. */
  lemma ChargeElectric(seconds: int, vtype: string)
    ensures Charge(seconds, vtype, true) == 0.75 * Charge(seconds, vtype, false)
  {
  }

  /** A stay of no time is free. */
  lemma ChargeZero(vtype: string, isElectric: bool)
    ensures Charge(0, vtype, isElectric) == 0.0
  {
  }

  /** The fee is linear in the duration: no minimum, no rounding up to whole hours. */
  lemma ChargeLinear(a: int, b: int, k: int, vtype: string, isElectric: bool)
    ensures Charge(a + b, vtype, isElectric) == Charge(a, vtype, isElectric) + Charge(b, vtype, isElectric)
    ensures Charge(k * a, vtype, isElectric) == k as real * Charge(a, vtype, isElectric)
  {
    var f := Charge(1, vtype, isElectric);
    assert Charge(a, vtype, isElectric) == a as real * f;
    assert Charge(b, vtype, isElectric) == b as real * f;
    assert Charge(a + b, vtype, isElectric) == (a + b) as real * f;
    assert Charge(k * a, vtype, isElectric) == (k * a) as real * f;
  }

  /** A longer stay never costs less; a stay of non-negative length costs
      nothing negative. */
  lemma ChargeMonotone(a: int, b: int, vtype: string, isElectric: bool)
    requires a <= b
    ensures Charge(a, vtype, isElectric) <= Charge(b, vtype, isElectric)
    ensures 0 <= a ==> 0.0 <= Charge(a, vtype, isElectric)
  {
    ChargeLinear(a, b - a, 1, vtype, isElectric);
  }

  /** While the vehicle is inside, its cost is the cost of leaving at `now`. */
  lemma CostOfOpenStay(v: Vehicle, now: int, later: int)
    requires v.IsActive()
    ensures Cost(v, now) == Cost(v.(exitTime := Some(now)), later)
  {
  }

  /** Once the exit time is set, `now` no longer matters. */
  lemma CostOfClosedStay(v: Vehicle, now: int, later: int)
    requires v.exitTime.Some?
    ensures Cost(v, now) == Cost(v, later)
  {
  }
}
