/** `Vehicle` and its two concrete kinds `Car` and `Motorcycle`: identity,
    type tag, equality, hash, and the random factory `nextRandom`. The
    closed class hierarchy becomes a kind tag; a vehicle is an immutable
    value, so its identifier and type cannot change after construction. */
module Vehicles {
  import opened Wrappers
  import JavaHash
  import opened Identity

  /** The concrete subclass of a vehicle. */
  datatype Kind = Car | Motorcycle

  /** The `type` constant each subclass passes to `Vehicle(type)`. */
  function TypeName(k: Kind): (t: string)
    ensures |t| > 0 && t[0] != '_'
  {
    match k
    case Car => "car"
    case Motorcycle => "motorcycle"
  }

  /** Different kinds have different type strings, and even different
      first letters, so a snapshot tells the kinds apart. */
  lemma TypeNamesDiffer(a: Kind, b: Kind)
    ensures TypeName(a) == TypeName(b) <==> a == b
    ensures TypeName(a)[0] == TypeName(b)[0] <==> a == b
    ensures TypeName(Car)[0] == 'c' && TypeName(Motorcycle)[0] == 'm'
  {
  }

  /** A constructed vehicle: its kind and the identifier it drew from the
      shared vehicle counter. */
  datatype Vehicle = Vehicle(kind: Kind, identifier: nat) {

    /** `getType()`. */
    function Type(): (t: string)
      ensures |t| > 0 && t[0] != '_'
    {
      TypeName(kind)
    }

    /** `hashCode()`: `Objects.hash(identifier, type)`, fixed at construction. */
    function HashCode(): (h: int)
      ensures -JavaHash.TwoTo31 <= h < JavaHash.TwoTo31
    {
      JavaHash.CombineHashes([JavaHash.IntHash(identifier), JavaHash.StringHash(Type())])
    }

    /** `equals(Object)` against another vehicle or null. A vehicle value is
        its own reference: identifiers are never reused, so two references
        are the same object exactly when their kind and identifier agree. */
    function Equals(other: Option<Vehicle>): (r: bool)
      ensures r <==> other.Some? && other.value.kind == kind && other.value.identifier == identifier
    {
      if other.None? then false              // null
      else if other.value == this then true   // the same reference
      else if other.value.kind != kind then false  // getClass() differs
      else identifier == other.value.identifier
    }
  }

  /** `equals` is an equivalence: reflexive, symmetric and transitive, and it
      holds exactly between a vehicle and itself. */
  lemma EqualsIsIdentity(a: Vehicle, b: Vehicle, c: Vehicle)
    ensures a.Equals(Some(a))
    ensures a.Equals(Some(b)) <==> b.Equals(Some(a))
    ensures a.Equals(Some(b)) && b.Equals(Some(c)) ==> a.Equals(Some(c))
    ensures a.Equals(Some(b)) <==> a == b
    ensures !a.Equals(None)
  {
  }

  /** Vehicles of different kinds are never equal, whatever their identifiers;
      equal vehicles share identifier and type. */
  lemma EqualsRespectsKind(a: Vehicle, b: Vehicle)
    ensures a.kind != b.kind ==> !a.Equals(Some(b))
    ensures a.Equals(Some(b)) ==> a.identifier == b.identifier && a.Type() == b.Type()
  {
    TypeNamesDiffer(a.kind, b.kind);
  }

  /** Equal vehicles have equal hashes; so different hashes imply not equal. */
  lemma EqualsConsistentWithHash(a: Vehicle, b: Vehicle)
    ensures a.Equals(Some(b)) ==> a.HashCode() == b.HashCode()
    ensures a.HashCode() != b.HashCode() ==> !a.Equals(Some(b))
  {
  }

  /** `Vehicle(type)`: draw the next identifier from the shared counter. */
  method NewVehicle(vehicleIds: IdRegistry, kind: Kind) returns (v: Vehicle)
    requires vehicleIds.Valid()
    modifies vehicleIds
    ensures vehicleIds.Valid()
    ensures v == Vehicle(kind, old(vehicleIds.next)) && vehicleIds.next == old(vehicleIds.next) + 1
    ensures vehicleIds.issued == old(vehicleIds.issued) + {v.identifier}
    ensures forall id :: id in old(vehicleIds.issued) ==> id < v.identifier
  {
    var id := vehicleIds.Issue();
    v := Vehicle(kind, id);
  }

  /** `new Car()`: type "car", one identifier from the shared counter. */
  method NewCar(vehicleIds: IdRegistry) returns (v: Vehicle)
    requires vehicleIds.Valid()
    modifies vehicleIds
    ensures vehicleIds.Valid()
    ensures v.kind == Car && v.Type() == "car"
    ensures v.identifier == old(vehicleIds.next) && vehicleIds.next == old(vehicleIds.next) + 1
    ensures vehicleIds.issued == old(vehicleIds.issued) + {v.identifier}
  {
    v := NewVehicle(vehicleIds, Car);
  }

  /** `new Motorcycle()`: type "motorcycle", one identifier from the same
      counter that cars use. */
  method NewMotorcycle(vehicleIds: IdRegistry) returns (v: Vehicle)
    requires vehicleIds.Valid()
    modifies vehicleIds
    ensures vehicleIds.Valid()
    ensures v.kind == Motorcycle && v.Type() == "motorcycle"
    ensures v.identifier == old(vehicleIds.next) && vehicleIds.next == old(vehicleIds.next) + 1
    ensures vehicleIds.issued == old(vehicleIds.issued) + {v.identifier}
  {
    v := NewVehicle(vehicleIds, Motorcycle);
  }

  /** Two vehicles built one after the other from one counter: each equals
      itself, and they have different identifiers and are not equal, whether
      they are of the same kind or not. */
  method ConstructTwo(vehicleIds: IdRegistry, k1: Kind, k2: Kind) returns (v1: Vehicle, v2: Vehicle)
    requires vehicleIds.Valid()
    modifies vehicleIds
    ensures vehicleIds.Valid() && vehicleIds.next == old(vehicleIds.next) + 2
    ensures v1.kind == k1 && v2.kind == k2
    ensures v1.Equals(Some(v1)) && v2.Equals(Some(v2))
    ensures v1.identifier < v2.identifier && !v1.Equals(Some(v2)) && !v2.Equals(Some(v1))
  {
    v1 := NewVehicle(vehicleIds, k1);
    v2 := NewVehicle(vehicleIds, k2);
  }

  /** The classification in `nextRandom` of a draw in [0, 100). */
  function Classify(draw: int): (k: Option<Kind>)
    requires 0 <= draw < 100
    ensures k.Some? <==> draw < 25
    ensures k == Some(Car) <==> draw < 20
  {
    if draw < 20 then Some(Car)
    else if draw < 25 then Some(Motorcycle)
    else None
  }

  /** What `nextRandom` returns for a draw when the vehicle counter stands at
      `next`. */
  function Factory(draw: int, next: nat): (v: Option<Vehicle>)
    requires 0 <= draw < 100
    ensures v.Some? ==> v.value.identifier == next
    ensures v.Some? <==> Classify(draw).Some?
    ensures v.Some? ==> v.value.kind == Classify(draw).value
    ensures v.Some? && v.value.kind == Car <==> draw < 20
    ensures v.Some? && v.value.kind == Motorcycle <==> 20 <= draw < 25
    ensures v.None? <==> 25 <= draw
  {
    match Classify(draw)
    case None => None
    case Some(k) => Some(Vehicle(k, next))
  }

  /** `nextRandom()`, with the pseudo-random draw `ourRandom.nextInt(100)`
      passed in: below 20 a new car, from 20 to 24 a new motorcycle, and no
      vehicle otherwise. Only a produced vehicle consumes an identifier. */
  method NextRandom(vehicleIds: IdRegistry, draw: int) returns (v: Option<Vehicle>)
    requires vehicleIds.Valid()
    requires 0 <= draw < 100
    modifies vehicleIds
    ensures vehicleIds.Valid()
    ensures v == Factory(draw, old(vehicleIds.next))
    ensures v.Some? && v.value.kind == Car <==> draw < 20
    ensures v.Some? && v.value.kind == Motorcycle <==> 20 <= draw < 25
    ensures v.None? <==> 25 <= draw
    ensures vehicleIds.next == old(vehicleIds.next) + (if v.Some? then 1 else 0)
    ensures vehicleIds.issued == old(vehicleIds.issued) + (if v.Some? then {v.value.identifier} else {})
  {
    if draw < 20 {
      var car := NewCar(vehicleIds);
      return Some(car);
    }
    if draw < 25 {
      var motorcycle := NewMotorcycle(vehicleIds);
      return Some(motorcycle);
    }
    return None;
  }

  /** How many of the draws 0 .. n-1 classify as `outcome`. */
  function CountDraws(n: nat, outcome: Option<Kind>): nat
    requires n <= 100
  {
    if n == 0 then 0
    else CountDraws(n - 1, outcome) + (if Classify(n - 1) == outcome then 1 else 0)
  }

  /** The counts of each outcome among the first n draws. */
  lemma {:induction false} CountDrawsUpTo(n: nat)
    requires n <= 100
    ensures CountDraws(n, Some(Car)) == if n < 20 then n else 20
    ensures CountDraws(n, Some(Motorcycle)) == if n < 20 then 0 else if n < 25 then n - 20 else 5
    ensures CountDraws(n, None) == if n < 25 then 0 else n - 25
  {
    if n > 0 {
      CountDrawsUpTo(n - 1);
    }
  }

  /** Under a uniform draw from [0, 100), `nextRandom` yields a car with
      probability 20/100, a motorcycle with 5/100 and nothing with 75/100. */
  lemma DrawDistribution()
    ensures CountDraws(100, Some(Car)) == 20
    ensures CountDraws(100, Some(Motorcycle)) == 5
    ensures CountDraws(100, None) == 75
  {
    CountDrawsUpTo(100);
  }
}
