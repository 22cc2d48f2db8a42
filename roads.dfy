/** `Road` and its private `Lane`: a fixed-length array of optional vehicles,
    advanced one tick at a time, with direction-aware addressing and a
    one-character-per-slot snapshot. Internally slot 0 is always the entry
    and the last slot the exit; the reverse-flow flag only changes how
    callers address the slots. */
module Roads {
  import opened Wrappers
  import JavaHash
  import opened Identity
  import opened Vehicles
  import opened LaneShift

  type Slot = Option<Vehicle>

  /** The internal slot that external index `which` addresses. */
  function ExternalIndex(n: nat, reverseFlow: bool, which: int): (i: int)
    requires 0 <= which < n
    ensures 0 <= i < n
  {
    if reverseFlow then n - which - 1 else which
  }

  /** The external-to-internal map is its own inverse, hence a bijection
      on 0 .. n-1. */
  lemma ExternalIndexInvolution(n: nat, reverseFlow: bool, a: int, b: int)
    requires 0 <= a < n && 0 <= b < n
    ensures ExternalIndex(n, reverseFlow, ExternalIndex(n, reverseFlow, a)) == a
    ensures ExternalIndex(n, reverseFlow, a) == ExternalIndex(n, reverseFlow, b) ==> a == b
  {
  }

  function Reverse<T>(s: seq<T>): (r: seq<T>)
    ensures |r| == |s|
  {
    seq(|s|, k requires 0 <= k < |s| => s[|s| - 1 - k])
  }

  lemma ReverseReverse<T>(s: seq<T>)
    ensures Reverse(Reverse(s)) == s
  {
  }

  /** What a snapshot shows, given the internal slots and the flow flag. */
  function ExternalRendering(slots: seq<Slot>, reverseFlow: bool): (r: string)
    ensures |r| == |slots|
  {
    if reverseFlow then Reverse(Render(slots)) else Render(slots)
  }

  /** The self-test reverses the snapshot of a reverse-flow road before
      replaying the tick; that gives back the internal rendering, so the
      replay works on internal slot order in both directions. */
  lemma UnreversedSnapshot(slots: seq<Slot>, reverseFlow: bool)
    ensures (if reverseFlow then Reverse(ExternalRendering(slots, reverseFlow))
             else ExternalRendering(slots, reverseFlow)) == Render(slots)
  {
    if reverseFlow {
      ReverseReverse(Render(slots));
    }
  }

  /** The snapshot character of one slot: '_' when empty, otherwise the
      first letter of the occupant's type. */
  function SlotChar(v: Slot): (c: char)
    ensures c == '_' <==> v.None?
  {
    if v.None? then '_' else v.value.Type()[0]
  }

  /** A car renders as 'c', a motorcycle as 'm'. */
  lemma SlotCharOfKind(v: Vehicle)
    ensures v.kind == Car ==> SlotChar(Some(v)) == 'c'
    ensures v.kind == Motorcycle ==> SlotChar(Some(v)) == 'm'
  {
  }

  /** The rendering of slots in internal order. */
  function Render(s: seq<Slot>): (r: string)
    ensures |r| == |s|
    ensures forall k :: 0 <= k < |s| ==> (r[k] == '_' <==> s[k].None?)
  {
    seq(|s|, k requires 0 <= k < |s| => SlotChar(s[k]))
  }

  /** Rendering commutes with the scan: replaying the scan on the characters
      of the previous snapshot, with '_' for empty, predicts the slots of
      the next one, as the road's self-test checks after every tick. */
  lemma RenderShift(s: seq<Slot>)
    ensures Render(Shift(s, None)) == Shift(Render(s), '_')
  {
    var L := HighestHole(s, None);
    HighestHoleUnique(Render(s), '_', L);
  }

  /** The self-test's check holds for every tick: away from the entry slot,
      the new internal rendering is the replayed scan of the old one. */
  lemma TickMatchesReplay(s: seq<Slot>, v: Slot)
    ensures |Render(TickSpec(s, v))| == |s|
    ensures forall k :: 1 <= k < |s| ==> Render(TickSpec(s, v))[k] == Shift(Render(s), '_')[k]
  {
    RenderShift(s);
    TickShape(s, v);
  }

  /** No vehicle is ever present twice in the slots given (identifiers are
      pairwise distinct), and all identifiers lie below `next`. */
  ghost predicate IdsDistinctBelow(vs: seq<Vehicle>, next: nat) {
    && (forall i, j :: 0 <= i < j < |vs| ==> vs[i].identifier != vs[j].identifier)
    && (forall i :: 0 <= i < |vs| ==> vs[i].identifier < next)
  }

  /** A tick keeps the occupants' identifiers pairwise distinct: the
      injected vehicle carries the counter's current value, above all others. */
  lemma TickKeepsIdsDistinct(s: seq<Slot>, draw: int, next: nat)
    requires 0 <= draw < 100
    requires IdsDistinctBelow(Occupants(s), next)
    ensures var v := Factory(draw, next);
      IdsDistinctBelow(Occupants(TickSpec(s, v)), if Injects(s) && v.Some? then next + 1 else next)
  {
    TickOccupants(s, Factory(draw, next));
  }

  /** The lane owned by a road. The Java inner class reads the road's
      `carCount`; here that is the array's length. */
  class Lane {
    const reverseFlow: bool
    const slots: array<Slot>

    /** `new Vehicle[carCount]`: every slot empty. */
    constructor (reverseFlow: bool, carCount: nat)
      ensures this.reverseFlow == reverseFlow
      ensures fresh(slots) && slots.Length == carCount
      ensures forall k :: 0 <= k < carCount ==> slots[k].None?
    {
      this.reverseFlow := reverseFlow;
      slots := new Slot[carCount](_ => None);
    }

    /** `vehicleAt(which)`: absent outside 0 .. carCount-1, otherwise the slot
        the external index maps to. */
    function VehicleAt(which: int): (r: Slot)
      reads slots
      ensures which < 0 || which >= slots.Length ==> r.None?
      ensures 0 <= which < slots.Length ==> r == slots[ExternalIndex(slots.Length, reverseFlow, which)]
    {
      if which < 0 || which >= slots.Length then None
      else slots[ExternalIndex(slots.Length, reverseFlow, which)]
    }

    /** `tick()`: scan from the exit down to slot 1, moving the occupant
        behind each empty slot into it; then, if slot 0 is empty, fill it
        from the factory with the draw `draw`. */
    method Tick(vehicleIds: IdRegistry, draw: int)
      requires vehicleIds.Valid()
      requires 0 <= draw < 100
      modifies slots, vehicleIds
      ensures vehicleIds.Valid()
      ensures slots[..] == TickSpec(old(slots[..]), Factory(draw, old(vehicleIds.next)))
      ensures var made := Injects(old(slots[..])) && draw < 25;
        && vehicleIds.next == old(vehicleIds.next) + (if made then 1 else 0)
        && vehicleIds.issued == old(vehicleIds.issued) + (if made then {old(vehicleIds.next)} else {})
    {
      ghost var s := slots[..];
      ghost var L := HighestHole(s, None);
      var i := slots.Length - 1;
      var j := i - 1;
      while i > 0
        invariant -1 <= i < slots.Length && j == i - 1
        invariant slots.Length > 0 ==> 0 <= i
        invariant forall k :: i < k < slots.Length && L < k ==> slots[k] == s[k]
        invariant forall k :: i < k <= L ==> slots[k] == s[k - 1]
        invariant forall k :: 0 <= k < i ==> slots[k] == s[k]
        invariant 0 <= i ==> slots[i] == if i < L then None else s[i]
        modifies slots
      {
        if slots[i].None? {
          slots[i] := slots[j];
          slots[j] := None;
        }
        i, j := i - 1, j - 1;
      }
      assert slots[..] == Shift(s, None);
      if slots.Length > 0 && slots[0].None? {
        var v := NextRandom(vehicleIds, draw);
        slots[0] := v;
      }
    }
  }

  /** The flow label: "SW" for reverse flow, "NE" otherwise. */
  function FlowLabel(reverseFlow: bool): (f: string)
    ensures f == "SW" || f == "NE"
    ensures (f == "SW") == reverseFlow
  {
    if reverseFlow then "SW" else "NE"
  }

  /** `Objects.hash(identifier, name, carCount, flow)`. */
  function RoadHash(identifier: nat, name: string, carCount: nat, flow: string): (h: int)
    ensures -JavaHash.TwoTo31 <= h < JavaHash.TwoTo31
  {
    JavaHash.CombineHashes([JavaHash.IntHash(identifier), JavaHash.StringHash(name),
                            JavaHash.IntHash(carCount), JavaHash.StringHash(flow)])
  }

  class Road {
    const identifier: nat
    const name: string
    const carCount: nat
    const flow: string
    const hashCode: int
    const lane: Lane

    /** What construction establishes and, every field being final, what
        stays true for the road's lifetime. */
    ghost predicate Valid() {
      && lane.slots.Length == carCount
      && flow == FlowLabel(lane.reverseFlow)
      && hashCode == RoadHash(identifier, name, carCount, flow)
    }

    /** `Road(name, carCount, reverseFlow)`: the identifier comes from the
        road counter, a negative car count is clamped to 0, and the lane
        starts empty. */
    constructor (roadIds: IdRegistry, name: string, carCount: int, reverseFlow: bool)
      requires roadIds.Valid()
      modifies roadIds
      ensures Valid() && roadIds.Valid()
      ensures identifier == old(roadIds.next) && roadIds.next == old(roadIds.next) + 1
      ensures forall id :: id in old(roadIds.issued) ==> id < identifier
      ensures roadIds.issued == old(roadIds.issued) + {identifier}
      ensures this.name == name
      ensures this.carCount == if carCount < 0 then 0 else carCount
      ensures flow == if reverseFlow then "SW" else "NE"
      ensures lane.reverseFlow == reverseFlow && fresh(lane) && fresh(lane.slots)
      ensures forall k :: 0 <= k < this.carCount ==> lane.slots[k].None?
    {
      var id := roadIds.Issue();
      var n: nat := if carCount < 0 then 0 else carCount;
      identifier := id;
      this.name := name;
      this.carCount := n;
      flow := FlowLabel(reverseFlow);
      hashCode := RoadHash(id, name, n, FlowLabel(reverseFlow));
      lane := new Lane(reverseFlow, n);
    }

    /** `hashCode()`: the value cached at construction. */
    function HashCode(): (h: int)
      requires Valid()
      ensures h == RoadHash(identifier, name, carCount, flow)
    {
      hashCode
    }

    /** `equals(Object)` against another road or null. */
    function Equals(other: Road?): (r: bool)
      ensures r <==> other != null && other.identifier == identifier
    {
      if other == null then false     // null
      else if other == this then true  // the same reference
      else identifier == other.identifier
    }

    /** `snapshot()`: one character per external index, '_' for an empty
        slot and the first letter of the occupant's type otherwise; for a
        reverse-flow road this is the internal rendering reversed. */
    method Snapshot() returns (s: string)
      requires Valid()
      ensures |s| == carCount
      ensures forall k :: 0 <= k < carCount ==> s[k] == SlotChar(lane.VehicleAt(k))
      ensures s == ExternalRendering(lane.slots[..], lane.reverseFlow)
    {
      var chars := new char[carCount];
      var which := 0;
      while which < carCount
        invariant 0 <= which <= carCount
        invariant forall k :: 0 <= k < which ==> chars[k] == SlotChar(lane.VehicleAt(k))
      {
        chars[which] := '_';
        var v := lane.VehicleAt(which);
        if v.Some? {
          chars[which] := v.value.Type()[0];
        }
        which := which + 1;
      }
      s := chars[..];
    }

    /** `tick()`: the lane's tick. */
    method Tick(vehicleIds: IdRegistry, draw: int)
      requires Valid() && vehicleIds.Valid()
      requires 0 <= draw < 100
      modifies lane.slots, vehicleIds
      ensures vehicleIds.Valid()
      ensures lane.slots[..] == TickSpec(old(lane.slots[..]), Factory(draw, old(vehicleIds.next)))
      ensures var made := Injects(old(lane.slots[..])) && draw < 25;
        && vehicleIds.next == old(vehicleIds.next) + (if made then 1 else 0)
        && vehicleIds.issued == old(vehicleIds.issued) + (if made then {old(vehicleIds.next)} else {})
    {
      lane.Tick(vehicleIds, draw);
    }
  }

  /** `equals` on roads is reflexive, symmetric and transitive. */
  lemma RoadEqualsIsEquivalence(a: Road, b: Road, c: Road)
    ensures a.Equals(a)
    ensures a.Equals(b) <==> b.Equals(a)
    ensures a.Equals(b) && b.Equals(c) ==> a.Equals(c)
    ensures !a.Equals(null)
  {
  }

  /** Equal roads have equal hashes, given what the road counter guarantees:
      two distinct roads never share an identifier. */
  lemma RoadEqualsConsistentWithHash(a: Road, b: Road)
    requires a.Valid() && b.Valid()
    requires a != b ==> a.identifier != b.identifier
    ensures a.Equals(b) ==> a.HashCode() == b.HashCode()
    ensures a.HashCode() != b.HashCode() ==> !a.Equals(b)
  {
  }
}
