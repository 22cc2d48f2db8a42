# Traffic road: a verified Dafny model

This project models the core of a small Java traffic simulation (package
`traffic`). A `Road` owns one `Lane`, which is a fixed-length array of
optional `Vehicle`s. Slot 0 is the entry and slot `carCount-1` the exit.
Each `tick` scans the lane from the exit down to slot 1. Whenever the slot it
visits is empty, the occupant of the slot behind it moves in. After the scan,
an empty slot 0 receives whatever `Vehicle.nextRandom()` produces. That is a
`Car` for a draw below 20, a `Motorcycle` for a draw from 20 to 24, and
nothing otherwise. Vehicles take identifiers from one counter shared by
both kinds. Roads take theirs from a second, separate counter. Both classes
have identity-based `equals` and a `hashCode` cached at construction.

Layout, one module per component:

- `wrappers.dfy` (`Wrappers`): `Option`. It stands for Java's nullable references.
- `java_hash.dfy` (`JavaHash`): Java's `int` wrap-around, `String.hashCode` and
  `Objects.hash`, written out over unbounded integers.
- `identity.dfy` (`Identity`): `IdRegistry`. It replaces each class's
  `static int nextIdentifier`. Its ghost set `issued` records every
  identifier handed out.
- `vehicles.dfy` (`Vehicles`): `Vehicle.java`, `Car.java` and `Motorcycle.java`.
  The closed class hierarchy becomes `datatype Kind = Car | Motorcycle`, and a
  vehicle is the immutable value `Vehicle(kind, identifier)`. The
  `getIdentifier()` getter is the field `identifier`, and `getType()` is
  `Type()`.
- `lane_shift.dfy` (`LaneShift`): the net effect of one scan, in closed form
  (`Shift`). It also holds a whole tick (`TickSpec`) and their properties.
  Everything in it is generic in the slot type.
- `roads.dfy` (`Roads`): the classes `Lane` and `Road`. `Lane.Tick` runs the
  Java loop in place on an `array` and is proved equal to `TickSpec`.
  `Road.Snapshot` fills a `char` array in a loop. `Road`'s fields are all
  `const`, so the getters `getIdentifier()` and `getName()` are the fields
  `identifier` and `name`.

The random number generator, `ourRandom.nextInt(100)`, is not modelled.
Instead, the draw in 0..99 is a parameter `draw` of `NextRandom` and of `Tick`.
A tick can only use it when the factory is called.

The closed form of the scan is as follows. Let `L` be the highest empty index.
If there is no empty slot, the lane is unchanged. Otherwise, slots `1..L` take
the old contents of `0..L-1`, slot 0 becomes empty, and the slots above `L`
stay as they were. `Lane.Tick`'s loop invariant is this closed form,
restricted to the slots visited so far.

## Model

| member | source | states |
|---|---|---|
| `Identity.IdRegistry.constructor` | src/traffic/Vehicle.java:13 | a counter starts at 0 with nothing issued |
| `Identity.IdRegistry.Issue` | src/traffic/Vehicle.java:23 | `nextIdentifier++`: returns the old value, advances by one; the identifier exceeds every one issued before, so identifiers never repeat |
| `JavaHash.Wrap32` | src/traffic/Vehicle.java:25 | the result is a Java `int`, congruent to the input modulo 2^32, and equal to it when the input is already in range |
| `JavaHash.IntHash` | src/traffic/Vehicle.java:25 | `Integer.hashCode` inside `Objects.hash`: a Java `int`, equal to the value itself for any value in `int` range |
| `JavaHash.StringHash` | src/traffic/Vehicle.java:25 | `String.hashCode` of a string, always a Java `int` |
| `JavaHash.CombineHashes` | src/traffic/Road.java:117 | `Objects.hash` of the field hashes, a Java `int` for any non-empty field list |
| `Vehicles.TypeName` | src/traffic/Car.java:9 | the type tag of each kind is non-empty and does not start with '_' |
| `Vehicles.TypeNamesDiffer` | src/traffic/Motorcycle.java:9 | "car" and "motorcycle" differ, as do their first letters 'c' and 'm'; equal tags imply equal kinds |
| `Vehicles.Vehicle.Type` | src/traffic/Vehicle.java:39-42 | `getType()` is a non-empty tag whose first letter is not '_' |
| `Vehicles.Vehicle.HashCode` | src/traffic/Vehicle.java:25 | `Objects.hash(identifier, type)`, a Java `int` determined by identifier and type alone |
| `Vehicles.Vehicle.Equals` | src/traffic/Vehicle.java:81-123 | false on null, true on the same vehicle, false across kinds, otherwise identifier equality; net: true exactly when kind and identifier agree |
| `Vehicles.EqualsIsIdentity` | src/traffic/Vehicle.java:85-122 | `equals` is reflexive, symmetric and transitive, never holds against null, and holds exactly between a vehicle and itself |
| `Vehicles.EqualsRespectsKind` | src/traffic/Vehicle.java:99-120 | a car never equals a motorcycle; equal vehicles have equal identifiers and equal types |
| `Vehicles.EqualsConsistentWithHash` | src/traffic/Vehicle.java:128-131 | equal vehicles have equal hashes; different hashes imply not equal |
| `Vehicles.NewVehicle` | src/traffic/Vehicle.java:21-26 | the new vehicle's identifier is the counter's old value, the counter advances by one and the identifier is above all earlier ones |
| `Vehicles.NewCar` | src/traffic/Car.java:124-127 | a car has type "car" and consumes one identifier of the shared counter |
| `Vehicles.NewMotorcycle` | src/traffic/Motorcycle.java:124-127 | a motorcycle has type "motorcycle" and consumes one identifier of the same counter |
| `Vehicles.ConstructTwo` | src/traffic/Car.java:60-110 | of two vehicles built in turn, each equals itself, and the two have different identifiers and are not equal |
| `Vehicles.Classify` | src/traffic/Vehicle.java:59-73 | the draw-to-kind classification: some vehicle iff draw < 25, a car iff draw < 20 |
| `Vehicles.Factory` | src/traffic/Vehicle.java:59-73 | a vehicle is produced exactly when the draw classifies as one, with that kind and the counter's current identifier |
| `Vehicles.NextRandom` | src/traffic/Vehicle.java:51-74 | a car iff draw < 20, a motorcycle iff 20 <= draw < 25, nothing iff draw >= 25; the counter advances by one exactly when a vehicle is returned |
| `Vehicles.CountDrawsUpTo` | src/traffic/Vehicle.java:58-73 | of the draws 0..n-1, how many give a car, a motorcycle and nothing |
| `Vehicles.DrawDistribution` | src/traffic/Vehicle.java:44-50 | of the 100 equally likely draws, 20 give a car, 5 a motorcycle, 75 nothing |
| `LaneShift.HighestHole` | src/traffic/Road.java:67-84 | the highest empty index, or -1: that slot is empty and every slot above it is occupied |
| `LaneShift.Shift` | src/traffic/Road.java:67-84 | the net effect of the scan, slot by slot: above the highest empty index L unchanged, slots 1..L take slots 0..L-1, slot 0 empty when L >= 0; same length as the lane |
| `LaneShift.ShiftClosedForm` | src/traffic/Road.java:67-84 | the scan leaves a lane with no empty slot unchanged; otherwise it is the lane with its highest empty slot removed and an empty slot prepended |
| `LaneShift.ShiftExamples` | src/traffic/Road.java:67-84 | [A,_,_,B] scans to [_,A,_,B] and [_,A,B,_] to [_,_,A,B] |
| `LaneShift.ShiftMovesAtMostOne` | src/traffic/Road.java:68-83 | an occupant below the highest empty slot advances exactly one slot, and every other occupant stays |
| `LaneShift.ShiftKeeps` | src/traffic/Road.java:67-75 | the scan changes nothing in a full lane or a lane of at most one slot, and never moves the exit occupant |
| `LaneShift.ShiftEntryEmpty` | src/traffic/Road.java:85 | after the scan slot 0 is empty iff the lane had some empty slot |
| `LaneShift.Occupants` | src/traffic/Road.java:25 | the vehicles of the lane array in slot order from the entry, never more than there are slots |
| `LaneShift.ShiftConservesOccupants` | src/traffic/Road.java:82-83 | the scan keeps the sequence of vehicles, entry to exit: none created, none destroyed, order kept |
| `LaneShift.Injects` | src/traffic/Road.java:85 | the injection test `carCount > 0 && lane[0] == null` after the scan; it holds iff the lane had some empty slot |
| `LaneShift.TickSpec` | src/traffic/Road.java:55-91 | a whole tick: the scan, then the factory result into slot 0 exactly when `Injects` holds; same length as the lane |
| `LaneShift.InjectsIffRoom` | src/traffic/Road.java:85-90 | the factory is consulted iff the lane has an empty slot; otherwise the tick changes nothing |
| `LaneShift.TickShape` | src/traffic/Road.java:85-90 | a tick writes the factory result only into slot 0, keeps the exit occupant, and never shifts a one-slot lane |
| `LaneShift.TickOccupants` | src/traffic/Road.java:55-91 | the vehicles after a tick are the injected one, if any, followed by the earlier vehicles in their old order |
| `LaneShift.OccupantsFillEntry` | src/traffic/Road.java:85-90 | filling the empty entry slot puts the new vehicle, if any, ahead of all others |
| `Roads.ExternalIndex` | src/traffic/Road.java:42-47 | every external index in range maps to an internal index in range |
| `Roads.ExternalIndexInvolution` | src/traffic/Road.java:46 | the reversed index map is its own inverse, hence a bijection of 0..carCount-1 |
| `Roads.Reverse` | src/traffic/Road.java:306-313 | the sequence read from the other end (the self-test's in-place reversal of the snapshot); same length |
| `Roads.ReverseReverse` | src/traffic/Road.java:299-314 | reversing a rendering twice gives it back |
| `Roads.SlotChar` | src/traffic/Road.java:159-169 | a slot renders as '_' exactly when it is empty |
| `Roads.SlotCharOfKind` | src/traffic/Road.java:167-168 | a car renders as 'c', a motorcycle as 'm' |
| `Roads.Render` | src/traffic/Road.java:159-169 | the characters of the slots in internal order: one per slot, '_' exactly at the empty ones |
| `Roads.ExternalRendering` | src/traffic/Road.java:152-170 | the snapshot as a function of the slots and the flow flag: the internal rendering, reversed for reverse flow; one character per slot |
| `Roads.UnreversedSnapshot` | src/traffic/Road.java:299-314 | reversing a reverse-flow snapshot, as the self-test does, gives back the internal rendering (forward flow: no reversal needed) |
| `Roads.RenderShift` | src/traffic/Road.java:321-337 | rendering commutes with the scan: the character replay of the scan gives the same result as scanning the slots and rendering them |
| `Roads.TickMatchesReplay` | src/traffic/Road.java:338-370 | after any tick, every slot but the entry matches the replayed scan of the previous rendering |
| `Roads.TickKeepsIdsDistinct` | src/traffic/Road.java:89 | a tick keeps the lane's vehicle identifiers pairwise distinct and below the vehicle counter |
| `Roads.Lane.constructor` | src/traffic/Road.java:31-34 | a new lane has `carCount` slots, all empty, and the given flow flag |
| `Roads.Lane.VehicleAt` | src/traffic/Road.java:36-50 | absent outside 0..carCount-1, otherwise the slot at the mapped index (reversed: `carCount-which-1`) |
| `Roads.Lane.Tick` | src/traffic/Road.java:55-91 | the new slots are `TickSpec` of the old ones with the factory's result; the vehicle counter advances by one exactly when a vehicle is injected |
| `Roads.FlowLabel` | src/traffic/Road.java:112-116 | the label is "SW" iff the flow is reversed, else "NE" |
| `Roads.RoadHash` | src/traffic/Road.java:117 | `Objects.hash(identifier, name, carCount, flow)`, a Java `int` |
| `Roads.Road.constructor` | src/traffic/Road.java:102-120 | the identifier is the road counter's old value, above all earlier road identifiers; negative `carCount` clamps to 0; flow label; an empty lane of exactly `carCount` slots; the cached hash |
| `Roads.Road.HashCode` | src/traffic/Road.java:242-245 | returns the hash cached at construction from (identifier, name, carCount, flow) |
| `Roads.Road.Equals` | src/traffic/Road.java:195-237 | false on null, true on the same road, otherwise identifier equality |
| `Roads.Road.Snapshot` | src/traffic/Road.java:142-176 | length `carCount`; character k renders `vehicleAt(k)`; the whole string is `ExternalRendering` of the slots (for a reversed road, the internal rendering reversed) |
| `Roads.Road.Tick` | src/traffic/Road.java:182-188 | the lane's tick, with the same contract |
| `Roads.RoadEqualsIsEquivalence` | src/traffic/Road.java:195-237 | road `equals` is reflexive, symmetric and transitive and never holds against null |
| `Roads.RoadEqualsConsistentWithHash` | src/traffic/Road.java:226-245 | with distinct roads carrying distinct identifiers, equal roads have equal hashes and different hashes imply not equal |

## Left out

- `java.util.Random` (src/traffic/Vehicle.java:16, 58) is left out because it is nondeterministic. Each draw is a parameter in 0..99, and the 1,000,000-draw percentage check is replaced by the exact count lemma `DrawDistribution`.
- `Roads.Lane.Tick`: the draw is passed on every tick, but only a tick that calls the factory uses it. The Java code consumes a random number only then.
- The `main` self-test methods of all four classes are left out. They consist of console output, `System.exit`, `BitSet` bookkeeping and million-instance loops. Their assertions are stated instead as lemmas (`TickMatchesReplay`, `UnreversedSnapshot`, `RoadEqualsConsistentWithHash`, …) and as the verified client method `ConstructTwo`.
- `toString` of `Road` and `Vehicle`, and the identifier-name scanning in the self-tests, are left out. They are diagnostics only.
- The 32-bit overflow of the two identifier counters is not modelled. Identifiers are unbounded `nat`s, so the model assumes fewer than 2^31 constructions. Hashes still wrap identifiers to Java `int`s.
- `Vehicles.Vehicle.Equals` accepts only a vehicle or null; an argument of another class is not modelled. The Java code rejects such an argument through `getClass()`. Car and Motorcycle are still told apart by their kind.
- `Roads.Road.Equals` accepts only a road or null, for the same reason. `Road` has no subclasses, so its `getClass()` test is always passed within that type.
- Java reference identity of vehicles is modelled by value. Identifiers never repeat, so two vehicle values agree exactly when they stand for the same object.
- A `null` road name is not modelled. `Objects.hash` would hash it as 0, but the model's name is always a string.
- `JavaHash.StringHash` hashes each character as one value. Java hashes UTF-16 code units, so the two differ for characters outside the Basic Multilingual Plane.
- The two counters are two `IdRegistry` objects passed by the caller, who keeps them apart, as the Java statics are. `Road`'s constructor changes only the road counter, and `Tick` changes only the vehicle counter.
- `Roads.RoadEqualsConsistentWithHash` assumes that distinct roads have distinct identifiers. This is the uniqueness that `IdRegistry.Issue` provides to roads built from one counter, and it is what the Java code relies on at src/traffic/Road.java:227.
