# Warehouse telemetry engine in Dafny

This project models the telemetry engine of the `Warehouse` namespace.
Vehicles moving around a warehouse report pings: a position `(x, y)` at a
timestamp in whole seconds. The engine keeps a registry of vehicles with
their ping lists and answers three queries:

- distance traveled;
- average speed;
- the vehicles ranked by distance.

The model has five modules, one per source file plus one for the runtime:

- `Runtime` (runtime.dfy) holds the pieces of .NET the engine calls:
  - `Option`;
  - an `Object<T>` argument as an `Equals` override sees it (null, a `T`, or another type);
  - `Math.Abs`;
  - the truncating `(int)` cast;
  - the real-number facts about square roots that the distance proofs need.
- `Positions` (positions.dfy) models `Position`: a value type with exact equality and a Euclidean distance.
- `Pings` (pings.dfy) models `Ping`: a position and a timestamp, the signed `SecondsBetween`, and the fuzzy `Equals` with tolerance 0.1.
- `Vehicles` (vehicles.dfy) models `Vehicle`:
  - a class with a constant name and a `pings` field that the server appends to and prunes;
  - its queries (total distance, distance since a timestamp, average speed) as functions over the ping list.
- `Server` (server.dfy) models `WarehouseServer`:
  - a class whose `vehicles` field is the shared `Vehicles` list;
  - `AddPing`, the ingestion loop, the speed dictionary, the prune-and-sort query `GetMostTraveledSince`, and the `CheckForDamage` stub.

Each imperative operation is proved against a value-level definition:

- `AddPing` against `AddPingTo`;
- the ingestion loop against `Ingested`;
- pruning against the filter `Until`;
- sorting against `multiset` equality, the comparator order, and .NET's rule for a list of two (`SwapIfGreater`).

The lemmas beside those definitions prove what the registry looks like after ingestion:

- one vehicle per name, in order of first appearance;
- each vehicle holds the pings for its name, in input order.

Coordinates and distances are `real`. `Math.Sqrt` is a parameter `sqrt` of every distance operation. It is constrained by `Runtime.IsSqrt`: it is non-negative on non-negative arguments, and its square is its argument.

### Where comments, tests and code disagree

The model follows the code in each case.

- `GetMostTraveledSince` documents `timestamp` as "the inclusive lower bound to consider" (WarehouseServer.cs:64). The code removes every ping *after* it and keeps those at or before it (WarehouseServer.cs:70). The ranking key is the vehicle's total distance up to `timestamp`, not since it.
- `GetTotalDistanceSince` is documented as the distance "before the timestamp" (Vehicle.cs:59). The code keeps only the pings strictly *after* it (Vehicle.cs:65). The leg that crosses into the window is not counted (`Vehicles.SinceDropsBridgingLeg`).
- The comparator `(int)(d1 - d2)` (WarehouseServer.cs:72) has two problems:
  - It orders from least to most traveled, although the method promises the most traveled.
  - Truncation ties any two distances less than one apart, so its ties are not transitive (`Server.CompareDistancesTiesNotTransitive`).
- The test at WarehouseServerTests.cs:18-20 asks for two results from a one-vehicle fleet. `GetRange(0, maxResults)` (WarehouseServer.cs:75) throws on that input. The model therefore requires `0 <= maxResults <= |vehicles|`.
- The test at WarehouseServerTests.cs:51-54 expects "Euler" from Ada and Euler, whose distances are both 0. The comparator ties them: `(int)(0 - 0)` is 0. For a list of two, .NET's `List.Sort` calls `SwapIfGreater`, which swaps only when the comparator is positive. The tied pair keeps its order, so the first name is "Ada" (`Server.TiedPairKeepsListOrder`).

## Model

| member | source | states |
|---|---|---|
| Runtime.Abs | Position.cs:71-72 | `Math.Abs`: the result is non-negative and is either the argument or its negation |
| Runtime.TruncateToInt | WarehouseServer.cs:72 | the `(int)` cast rounds toward zero: the result is within one of the argument, on the argument's side of zero |
| Positions.Equals | Position.cs:59-60 | `Equals(Position)` holds exactly when both coordinates are equal, i.e. the positions are the same value |
| Positions.EqualsObject | Position.cs:51-52 | `Equals(object)` holds exactly when the argument is a `Position` equal to this one; never for null or another type |
| Positions.EqualsIsEquivalence | Position.cs:59-60 | exact equality is reflexive, symmetric and transitive |
| Positions.GetDistance | Position.cs:69-74 | the distance is non-negative and its square is the sum of the squared coordinate differences (Euclidean distance) |
| Positions.GetDistanceSymmetric | Position.cs:69-74 | `GetDistance(a, b) == GetDistance(b, a)` |
| Positions.GetDistanceToItself | Position.cs:69-74 | `GetDistance(a, a) == 0` |
| Positions.GetDistanceZeroIffEqual | Position.cs:69-74 | the distance is zero if and only if the two positions are equal |
| Pings.NewPing | Ping.cs:29-33 | `new Ping(x, y, t)` has position `(x, y)` and timestamp `t` |
| Pings.SecondsBetween | Ping.cs:48-49 | `ping1`'s timestamp plus the result is `ping2`'s; the result is positive exactly when `ping1` is earlier |
| Pings.SecondsBetweenAntisymmetric | Ping.cs:48-49 | `SecondsBetween(a, a) == 0` and swapping the arguments negates the result |
| Pings.Equals | Ping.cs:51-58 | a ping equals only a `Ping` instance with the same timestamp |
| Pings.NullAndOtherTypesAreNeverEqual | Ping.cs:53-54 | `Equals` is false for null and for an object of another type |
| Pings.DifferentTimestampsNeverEqual | Ping.cs:57 | pings with different timestamps are never equal, whatever their positions |
| Pings.EqualsToleratesSmallShifts | Ping.cs:55-56 | shifting each coordinate by less than the tolerance 0.1 keeps a ping equal |
| Pings.ShiftOfToleranceIsNotEqual | Ping.cs:55-56 | the comparison is strict: shifting a coordinate by exactly 0.1 makes the pings unequal |
| Pings.EqualsReflexiveAndSymmetric | Ping.cs:51-58 | fuzzy equality is reflexive and symmetric |
| Pings.EqualsNotTransitive | Ping.cs:55-56 | fuzzy equality is not transitive: (0,0), (0.06,0) and (0.12,0) at one instant |
| Vehicles.CalculateDistance | Vehicle.cs:38-47 | `sqrt((x2-x1)^2 + (y2-y1)^2)` is non-negative and equals `GetDistance` between the two pings' positions |
| Vehicles.Legs | Vehicle.cs:34 | `Zip(pings, pings.Skip(1))`: one leg fewer than pings, leg `i` being the distance from ping `i` to ping `i+1` |
| Vehicles.TotalDistanceOf | Vehicle.cs:31-36 | the total distance over a ping list is non-negative |
| Vehicles.TotalDistanceIsPathLength | Vehicle.cs:31-36 | the zipped sum equals the path length defined leg by leg from the front |
| Vehicles.TotalDistanceOfShort | Vehicle.cs:31-36 | zero or one ping gives total distance 0 |
| Vehicles.TotalDistanceOfPair | Vehicle.cs:33-35 | for two pings the total is the distance between them |
| Vehicles.TotalDistanceOfAppend | Vehicle.cs:33-35 | appending a ping to a non-empty list adds the distance from the last ping to it |
| Vehicles.Since | Vehicle.cs:64-65 | `Where(p => p.Timestamp > t)`: no longer than the list; holds exactly the pings later than `t` |
| Vehicles.SinceDistributes | Vehicle.cs:64-65 | the filter distributes over concatenation, so it keeps the list order |
| Vehicles.SinceKeepsAllLater | Vehicle.cs:64-65 | when every ping is later than `t` the filter keeps the whole list |
| Vehicles.SinceDropsAllEarlier | Vehicle.cs:64-65 | when no ping is later than `t` the filter is empty |
| Vehicles.SinceDropsBridgingLeg | Vehicle.cs:64-67 | the leg crossing into the window is not counted: a list with total 5 has distance 0 since a time inside that leg |
| Vehicles.Ratio | Vehicle.cs:80 | the division: speed times elapsed time is the distance; non-negative for a non-negative distance over positive time |
| Vehicles.DiagonalStepSpeed | VehicleTests.cs:73-83 | a move from (0,0) at time 0 to (1,1) at time 2 has average speed sqrt(2)/2, which rounds to 0.7 |
| Vehicles.Vehicle.constructor | Vehicle.cs:20-25 | a new vehicle has the given name and no pings |
| Vehicles.Vehicle.GetTotalDistance | Vehicle.cs:53-56 | non-negative, and 0 for zero or one ping; reads the pings without changing them |
| Vehicles.Vehicle.GetTotalDistanceSince | Vehicle.cs:62-68 | non-negative; 0 when at most one ping is later than `t` or none is; equal to the total distance when every ping is later than `t` |
| Vehicles.Vehicle.GetAverageSpeed | Vehicle.cs:74-81 | speed times (last timestamp minus first timestamp) is the total distance; non-negative when time runs forward |
| Server.FirstIndexOf | WarehouseServer.cs:44 | `FirstOrDefault(v => v.Name == name)`: absent exactly when no vehicle has the name, otherwise the first position holding it |
| Server.FirstIndexOfAppend | WarehouseServer.cs:44-48 | appending a vehicle does not change which vehicle an existing name finds |
| Server.AppendNew | WarehouseServer.cs:44-49 | find-or-create on names: keeps the old names as a prefix, holds exactly the old and the new names, and keeps distinct names distinct |
| Server.AppendNewKeepsFirstAppearanceOrder | WarehouseServer.cs:31-49 | vehicles are created in the order in which their names first appear in the input |
| Server.AddPingToNames | WarehouseServer.cs:42-51 | `AddPing` leaves the names unchanged for a known name and appends the name for a new one |
| Server.PingsForAbsent | WarehouseServer.cs:31-34 | a name that no record carries gets no pings |
| Server.IngestedNames | WarehouseServer.cs:31-34 | after ingestion the names are the old names followed by the new names in order of first appearance |
| Server.IngestedPings | WarehouseServer.cs:31-34 | after ingestion into a registry with distinct names, each vehicle holds its old pings followed by the pings recorded for its name, in input order |
| Server.IngestedFromEmpty | WarehouseServer.cs:31-34 | ingesting into an empty registry gives one vehicle per distinct name, in order of first appearance, each holding exactly its own pings |
| Server.Until | WarehouseServer.cs:70 | `RemoveAll(p => p.Timestamp > t)`: the result is no longer than the list |
| Server.UntilKeepsExactlyEarlier | WarehouseServer.cs:70 | a ping survives pruning exactly when it was in the list with a timestamp at or before `t` |
| Server.UntilIdempotent | WarehouseServer.cs:70 | pruning again with the same timestamp removes nothing more |
| Server.UntilAndSincePartition | WarehouseServer.cs:70 | the pings pruning keeps and the pings `GetTotalDistanceSince` keeps together make up the whole list |
| Server.CompareDistances | WarehouseServer.cs:72 | `(int)(d1 - d2)` is 0 exactly when the distances are less than one apart, positive exactly when `d1` exceeds `d2` by at least one, negative in the mirror case |
| Server.CompareDistancesAntisymmetric | WarehouseServer.cs:72 | swapping the arguments negates the comparison |
| Server.CompareDistancesTiesNotTransitive | WarehouseServer.cs:72 | ties under truncation are not transitive (0, 0.6 and 1.2) |
| Server.InComparatorOrderBounds | WarehouseServer.cs:72 | in a list where no vehicle compares as less than its predecessor, each distance is below the next one plus one |
| Server.OrderedPairIsSwapIfGreater | WarehouseServer.cs:72 | a rearrangement of two vehicles that ends in comparator order, and keeps a pair already in order, is what `SwapIfGreater` makes of the pair |
| Server.SortedByDistance | WarehouseServer.cs:72 | returns a permutation of the list in which no vehicle compares as less than its predecessor, so each distance is below the next one's plus one; a list already in that order is returned unchanged; a list of two is what `SwapIfGreater` makes of it |
| Server.WithDistances | WarehouseServer.cs:72 | pairs each vehicle with its total distance, keeping the list order |
| Server.SortedKeysAreDistances | WarehouseServer.cs:72 | any rearrangement of the vehicle-distance pairs still pairs each vehicle with its own distance |
| Server.InsertionSort | WarehouseServer.cs:72 | the insertion sort returns a permutation whose keys are in comparator order, and returns a list already in order unchanged |
| Server.InsertNext | WarehouseServer.cs:72 | one insertion pass returns a permutation that extends the ordered prefix by one element, and swaps nothing when that element is already in place |
| Server.WarehouseServer.constructor | WarehouseServer.cs:10 | a new server has no vehicles |
| Server.WarehouseServer.AddPing | WarehouseServer.cs:42-51 | known name: same list, the ping appended to the first vehicle with that name, others unchanged; new name: one fresh vehicle with only that ping appended at the end; distinct names stay distinct; agrees with `AddPingTo` |
| Server.WarehouseServer.InitializeFromRecords | WarehouseServer.cs:31-34 | the loop keeps the old vehicle objects at their positions, only appends fresh vehicles after them, and keeps names distinct; when no vehicle object is listed twice, it leaves the registry equal to `Ingested` of its old contents and the records |
| Server.WarehouseServer.GetAverageSpeeds | WarehouseServer.cs:56-57 | `ToDictionary`: the keys are exactly the vehicle names, each mapped to that vehicle's average speed |
| Server.WarehouseServer.SortByDistance | WarehouseServer.cs:72 | the sort leaves a permutation of the vehicle list; a list of two becomes what `SwapIfGreater` makes of it |
| Server.WarehouseServer.PrunePings | WarehouseServer.cs:68-70 | every listed vehicle's pings become the order-preserving filter of its old pings at or before `t`, even when a vehicle is listed twice |
| Server.WarehouseServer.GetMostTraveledSince | WarehouseServer.cs:66-77 | needs `0 <= maxResults <= |vehicles|`; prunes every vehicle's pings to those at or before `t`, leaves a permutation of the list (for two vehicles, what `SwapIfGreater` makes of the pruned pair), and returns the names of its first `maxResults` vehicles |
| Server.WarehouseServer.CheckForDamage | WarehouseServer.cs:84-88 | the stub returns an empty array and reads no state |
| Server.TiedPairKeepsListOrder | WarehouseServerTests.cs:40-56 | Ada and Euler, both with distance 0, keep their order, so `GetMostTraveledSince(1, 10)` returns `["Ada"]` |

## Left out

- Reading and parsing the CSV file in `InitializeFromCsv` (WarehouseServer.cs:18-30, 35-39) is not modelled. This covers `File.ReadLines`, `Split`, `double.Parse`, `long.Parse` and the `IOException` handler. They are I/O and library parsers. `Server.WarehouseServer.InitializeFromRecords` starts from the parsed `(name, ping)` records.
- Program.cs is not part of this model. It is console output and the entry point.
- The hash codes (Position.cs:35-44, Ping.cs:62-66) are unchecked integer hashing of doubles and are not modelled. `Ping.GetHashCode` is not consistent with the fuzzy `Equals` in any case.
- `ToString` (Position.cs:80, Ping.cs:39) is not modelled. It is string formatting only.
- Floating point is not modelled. Coordinates, distances and speeds are reals. There is no IEEE rounding, no NaN or infinity, and no `Math.Round` as used by the tests.
- `Math.Sqrt` and `Math.Pow(d, 2)` are library calls. The square root is the parameter `sqrt`, constrained only by `IsSqrt`. `Math.Pow(d, 2)` is `d * d`.
- Pings.SecondsBetween: timestamps are unbounded integers, so the 64-bit `long` overflow of the subtraction is not modelled.
- Runtime.TruncateToInt: the cast is modelled only where its result fits in an `int`. The .NET result outside that range is not modelled.
- Vehicles.Vehicle.GetAverageSpeed requires a non-empty ping list whose first and last timestamps differ. The source throws on an empty list (`First`/`Last`) and returns an infinity or NaN for a zero time span. Neither outcome is modelled.
- Server.WarehouseServer.GetAverageSpeeds requires distinct names and the `GetAverageSpeed` precondition for every vehicle. The source throws on a duplicate name (`ToDictionary`) and inherits the per-vehicle outcomes above. The exceptions are not modelled.
- Server.WarehouseServer.GetMostTraveledSince requires `0 <= maxResults <= |vehicles|`, where the source throws from `GetRange`. Beyond two vehicles it promises a permutation but no order.
- Server.WarehouseServer.SortByDistance promises a permutation, and the exact result only for two vehicles. It runs the model's insertion sort. .NET's `List.Sort` uses an introspective sort. For two elements it calls `SwapIfGreater` once, which the insertion sort matches. For three it calls `SwapIfGreater` on three pairs. Above sixteen it uses heapsort and quicksort partitions. With a comparator that is not transitive, those can produce a different permutation from the insertion sort's, so no order is promised beyond two. The order proved for `Server.SortedByDistance` is a property of the insertion sort only.
- Server.WarehouseServer.InitializeFromRecords relates the registry to `Ingested` only when no vehicle object is listed twice (`Valid`). The source's public `Vehicles` list (WarehouseServer.cs:10) lets callers add the same object twice; the pings then go to that one shared object, which the value-level `Ingested` does not describe. The freshness and distinct-names postconditions hold without that.
- Server.WarehouseServer.AddPing relates the registry to `AddPingTo` only when no vehicle object is listed twice (`Valid`). Its other postconditions hold without that. The source's public `Vehicles` list lets callers add the same object twice.
- The "chronological order" of a vehicle's pings (Vehicle.cs:17-20) is a comment that no code enforces. The model does not assume it.
- Acceleration and collision detection do not exist beyond the `CheckForDamage` stub, so they are not modelled.
