/** WarehouseServer.cs: the fleet registry. Vehicles are created on their
    first ping and kept in creation order; the queries read them, and
    `GetMostTraveledSince` prunes their pings and reorders them in place. */
module Server {
  import opened Runtime
  import opened Pings
  import opened Vehicles

  /** One parsed line of the ping source: the anonymous `{ name, ping }`. */
  datatype Record = Record(name: string, ping: Ping)

  /** A vehicle seen as a value: its name and its pings. */
  datatype Track = Track(name: string, pings: seq<Ping>)

  function Names(vehicles: seq<Vehicle>): (names: seq<string>)
    ensures |names| == |vehicles|
    ensures forall i :: 0 <= i < |vehicles| ==> names[i] == vehicles[i].name
  {
    seq(|vehicles|, i requires 0 <= i < |vehicles| => vehicles[i].name)
  }

  function TrackNames(fleet: seq<Track>): (names: seq<string>)
    ensures |names| == |fleet|
    ensures forall i :: 0 <= i < |fleet| ==> names[i] == fleet[i].name
  {
    seq(|fleet|, i requires 0 <= i < |fleet| => fleet[i].name)
  }

  predicate Distinct(names: seq<string>) {
    forall i, j :: 0 <= i < j < |names| ==> names[i] != names[j]
  }

  /** `FirstOrDefault(v => v.Name == name)`, as a position in the list. */
  function FirstIndexOf(names: seq<string>, name: string): (found: Option<nat>)
    ensures found.None? <==> name !in names
    ensures found.Some? ==> found.value < |names| && names[found.value] == name
    ensures found.Some? ==> forall j :: 0 <= j < found.value ==> names[j] != name
  {
    if names == [] then None
    else if names[0] == name then Some(0)
    else
      match FirstIndexOf(names[1..], name)
      case None => None
      case Some(k) => Some(k + 1)
  }

  /** Appending a name leaves the first position of a name already present
      where it was. */
  lemma {:induction false} FirstIndexOfAppend(names: seq<string>, extra: string, name: string)
    requires name in names
    ensures FirstIndexOf(names + [extra], name) == FirstIndexOf(names, name)
  {
    if names[0] != name {
      assert (names + [extra])[1..] == names[1..] + [extra];
      FirstIndexOfAppend(names[1..], extra, name);
    }
  }

  // ---------------------------------------------------------------------
  // The registry as values: what `AddPing` and the ingestion loop compute.

  /** `AddPing` on values: the ping goes to the first track with that name,
      or to a new track at the end. */
  function AddPingTo(fleet: seq<Track>, name: string, ping: Ping): seq<Track> {
    match FirstIndexOf(TrackNames(fleet), name)
    case Some(i) => fleet[i := Track(name, fleet[i].pings + [ping])]
    case None => fleet + [Track(name, [ping])]
  }

  /** The ingestion loop on values: the records added in order. */
  function Ingested(fleet: seq<Track>, records: seq<Record>): seq<Track> {
    if records == [] then fleet
    else
      var last := records[|records| - 1];
      AddPingTo(Ingested(fleet, records[..|records| - 1]), last.name, last.ping)
  }

  function RecordNames(records: seq<Record>): (names: seq<string>)
    ensures |names| == |records|
    ensures forall i :: 0 <= i < |records| ==> names[i] == records[i].name
  {
    seq(|records|, i requires 0 <= i < |records| => records[i].name)
  }

  /** The pings of the records for `name`, in record order. */
  function PingsFor(records: seq<Record>, name: string): seq<Ping> {
    if records == [] then []
    else
      var rest, last := PingsFor(records[..|records| - 1], name), records[|records| - 1];
      if last.name == name then rest + [last.ping] else rest
  }

  lemma {:induction false} PingsForAbsent(records: seq<Record>, name: string)
    requires name !in RecordNames(records)
    ensures PingsFor(records, name) == []
  {
    if records != [] {
      var n := |records|;
      assert RecordNames(records[..n - 1]) == RecordNames(records)[..n - 1];
      PingsForAbsent(records[..n - 1], name);
    }
  }

  /** `seen` followed by each name of `names` that is not already there, in
      order of first appearance. */
  function AppendNew(seen: seq<string>, names: seq<string>): (all: seq<string>)
    ensures |seen| <= |all| && all[..|seen|] == seen
    ensures forall n :: n in all <==> n in seen || n in names
    ensures Distinct(seen) ==> Distinct(all)
  {
    if names == [] then seen
    else
      var rest, last := AppendNew(seen, names[..|names| - 1]), names[|names| - 1];
      assert names == names[..|names| - 1] + [last];
      if last in rest then rest else rest + [last]
  }

  /** Names enter the registry in the order in which they first appear:
      of two registered names, the earlier one first appears earlier. */
  lemma {:induction false} AppendNewKeepsFirstAppearanceOrder(names: seq<string>, i: nat, j: nat)
    requires i < j < |AppendNew([], names)|
    ensures FirstIndexOf(names, AppendNew([], names)[i]).value < FirstIndexOf(names, AppendNew([], names)[j]).value
  {
    var all := AppendNew([], names);
    var n := |names|;
    var prefix, last := names[..n - 1], names[n - 1];
    var rest := AppendNew([], prefix);
    assert names == prefix + [last];
    assert all == if last in rest then rest else rest + [last];
    assert all[i] == rest[i] && all[i] in rest;
    FirstIndexOfAppend(prefix, last, all[i]);
    if j < |rest| {
      assert all[j] == rest[j] && all[j] in rest;
      FirstIndexOfAppend(prefix, last, all[j]);
      AppendNewKeepsFirstAppearanceOrder(prefix, i, j);
    } else {
      assert all[j] == last && last !in prefix;
      assert FirstIndexOf(names, last).value == n - 1;
    }
  }

  lemma AddPingToNames(fleet: seq<Track>, name: string, ping: Ping)
    ensures TrackNames(AddPingTo(fleet, name, ping))
         == if name in TrackNames(fleet) then TrackNames(fleet) else TrackNames(fleet) + [name]
  {
  }

  /** The registry's names after ingestion: its old names, then the new
      names in order of first appearance. */
  lemma {:induction false} IngestedNames(fleet: seq<Track>, records: seq<Record>)
    ensures TrackNames(Ingested(fleet, records)) == AppendNew(TrackNames(fleet), RecordNames(records))
  {
    if records != [] {
      var n := |records|;
      var last := records[n - 1];
      assert RecordNames(records[..n - 1]) == RecordNames(records)[..n - 1];
      IngestedNames(fleet, records[..n - 1]);
      AddPingToNames(Ingested(fleet, records[..n - 1]), last.name, last.ping);
    }
  }

  /** The pings a registry with distinct names holds after ingestion: for
      each vehicle, its old pings followed by the pings of the records with
      its name, in record order. */
  lemma {:induction false} IngestedPings(fleet: seq<Track>, records: seq<Record>)
    requires Distinct(TrackNames(fleet))
    ensures var result := Ingested(fleet, records);
      forall i :: 0 <= i < |result| ==>
        result[i].pings == (if i < |fleet| then fleet[i].pings else []) + PingsFor(records, result[i].name)
  {
    var result := Ingested(fleet, records);
    if records != [] {
      var n := |records|;
      var prefix, last := records[..n - 1], records[n - 1];
      var before := Ingested(fleet, prefix);
      IngestedPings(fleet, prefix);
      IngestedNames(fleet, prefix);
      assert RecordNames(prefix) == RecordNames(records)[..n - 1];
      var names := TrackNames(before);
      assert Distinct(names);
      match FirstIndexOf(names, last.name)
      case Some(k) =>
        forall i | 0 <= i < |result|
          ensures result[i].pings == (if i < |fleet| then fleet[i].pings else []) + PingsFor(records, result[i].name)
        {
          if i == k {
            assert result[i].pings == before[i].pings + [last.ping];
          } else {
            assert names[i] != names[k];
          }
        }
      case None =>
        forall i | 0 <= i < |result|
          ensures result[i].pings == (if i < |fleet| then fleet[i].pings else []) + PingsFor(records, result[i].name)
        {
          if i == |before| {
            assert last.name !in RecordNames(prefix);
            PingsForAbsent(prefix, last.name);
          } else {
            assert names[i] in names;
          }
        }
    }
  }

  /** From an empty registry: one vehicle per distinct name, in order of
      first appearance, each holding exactly the pings recorded for it. */
  lemma IngestedFromEmpty(records: seq<Record>)
    ensures var result := Ingested([], records);
      && TrackNames(result) == AppendNew([], RecordNames(records))
      && Distinct(TrackNames(result))
      && forall i :: 0 <= i < |result| ==> result[i].pings == PingsFor(records, result[i].name)
  {
    IngestedNames([], records);
    IngestedPings([], records);
  }

  // ---------------------------------------------------------------------
  // Pruning and ranking.

  /** `RemoveAll(ping => ping.Timestamp > timestamp)`: the pings at or
      before `timestamp`, in their original order. */
  function Until(pings: seq<Ping>, timestamp: int): (kept: seq<Ping>)
    ensures |kept| <= |pings|
  {
    if pings == [] then []
    else
      var rest, last := Until(pings[..|pings| - 1], timestamp), pings[|pings| - 1];
      assert pings == pings[..|pings| - 1] + [last];
      if last.timestamp <= timestamp then rest + [last] else rest
  }

  /** Pruning keeps exactly the pings at or before the timestamp. */
  lemma {:induction false} UntilKeepsExactlyEarlier(pings: seq<Ping>, timestamp: int)
    ensures forall p :: p in Until(pings, timestamp) <==> p in pings && p.timestamp <= timestamp
  {
    if pings != [] {
      var n := |pings|;
      UntilKeepsExactlyEarlier(pings[..n - 1], timestamp);
      assert pings == pings[..n - 1] + [pings[n - 1]];
    }
  }

  /** Pruning twice with the same timestamp prunes nothing more. */
  lemma {:induction false} UntilIdempotent(pings: seq<Ping>, timestamp: int)
    ensures Until(Until(pings, timestamp), timestamp) == Until(pings, timestamp)
  {
    if pings != [] {
      var n := |pings|;
      var rest := Until(pings[..n - 1], timestamp);
      UntilIdempotent(pings[..n - 1], timestamp);
      if pings[n - 1].timestamp <= timestamp {
        assert (rest + [pings[n - 1]])[..|rest|] == rest;
      }
    }
  }

  /** The pings that pruning removes are exactly the ones the window of
      `GetTotalDistanceSince` keeps. */
  lemma {:induction false} UntilAndSincePartition(pings: seq<Ping>, timestamp: int)
    ensures multiset(Until(pings, timestamp)) + multiset(Since(pings, timestamp)) == multiset(pings)
  {
    if pings != [] {
      var n := |pings|;
      UntilAndSincePartition(pings[..n - 1], timestamp);
      assert pings == pings[..n - 1] + [pings[n - 1]];
    }
  }

  /** The comparator `(int)(d1 - d2)` on the two distances. */
  function CompareDistances(d1: real, d2: real): (order: int)
    ensures order == 0 <==> d1 - d2 < 1.0 && d2 - d1 < 1.0
    ensures 0 < order <==> d2 + 1.0 <= d1
    ensures order < 0 <==> d1 + 1.0 <= d2
  {
    TruncateToInt(d1 - d2)
  }

  lemma CompareDistancesAntisymmetric(d1: real, d2: real)
    ensures CompareDistances(d2, d1) == -CompareDistances(d1, d2)
  {
    var a, b := CompareDistances(d1, d2), CompareDistances(d2, d1);
    assert a as real <= d1 - d2 < a as real + 1.0 || a as real - 1.0 < d1 - d2 <= a as real;
    assert b as real <= d2 - d1 < b as real + 1.0 || b as real - 1.0 < d2 - d1 <= b as real;
  }

  /** Truncation makes distances less than one apart compare as equal, so
      "equal" under this comparator is not transitive. */
  lemma CompareDistancesTiesNotTransitive()
    ensures exists d1: real, d2: real, d3: real ::
      CompareDistances(d1, d2) == 0 && CompareDistances(d2, d3) == 0 && CompareDistances(d1, d3) != 0
  {
    assert CompareDistances(0.0, 0.6) == 0 && CompareDistances(0.6, 1.2) == 0 && CompareDistances(0.0, 1.2) != 0;
  }

  function CompareVehicles(sqrt: real -> real, v1: Vehicle, v2: Vehicle): int
    reads v1, v2
    requires IsSqrt(sqrt)
  {
    CompareDistances(v1.GetTotalDistance(sqrt), v2.GetTotalDistance(sqrt))
  }

  function Swap<T>(s: seq<T>, i: nat, j: nat): (r: seq<T>)
    requires i < |s| && j < |s|
    ensures |r| == |s| && multiset(r) == multiset(s)
    ensures r[i] == s[j] && r[j] == s[i]
    ensures forall k :: 0 <= k < |s| && k != i && k != j ==> r[k] == s[k]
  {
    s[i := s[j]][j := s[i]]
  }

  /** The sort key of each vehicle, in list order. */
  function Distances(sqrt: real -> real, vehicles: seq<Vehicle>): (distances: seq<real>)
    reads vehicles
    requires IsSqrt(sqrt)
    ensures |distances| == |vehicles|
    ensures forall k :: 0 <= k < |vehicles| ==> distances[k] == vehicles[k].GetTotalDistance(sqrt)
  {
    if vehicles == [] then []
    else Distances(sqrt, vehicles[..|vehicles| - 1]) + [vehicles[|vehicles| - 1].GetTotalDistance(sqrt)]
  }

  /** No key among the first `n` compares as less than the one before it. */
  predicate InComparatorOrder(distances: seq<real>, n: int) {
    forall k :: 0 <= k < n && k + 1 < |distances| ==> 0 <= CompareDistances(distances[k + 1], distances[k])
  }

  lemma InComparatorOrderDistanceBounds(sqrt: real -> real, vehicles: seq<Vehicle>)
    requires IsSqrt(sqrt) && InComparatorOrder(Distances(sqrt, vehicles), |vehicles|)
    ensures forall k :: 0 <= k < |vehicles| - 1 ==>
      vehicles[k].GetTotalDistance(sqrt) < vehicles[k + 1].GetTotalDistance(sqrt) + 1.0
  {
    InComparatorOrderBounds(Distances(sqrt, vehicles));
  }

  lemma InComparatorOrderPrefix(distances: seq<real>, n: int, m: int)
    requires InComparatorOrder(distances, n) && m <= n
    ensures InComparatorOrder(distances, m)
  {
  }

  /** Keys in comparator order differ from their successors by less than
      one downwards, but may decrease. */
  lemma InComparatorOrderBounds(distances: seq<real>)
    requires InComparatorOrder(distances, |distances|)
    ensures forall k :: 0 <= k < |distances| - 1 ==> distances[k] < distances[k + 1] + 1.0
  {
    forall k | 0 <= k < |distances| - 1
      ensures distances[k] < distances[k + 1] + 1.0
    {
      assert 0 <= CompareDistances(distances[k + 1], distances[k]);
    }
  }

  /** The insertion pass has carried the key from `i + 1` down to `j + 1`:
      every neighbouring pair up to `i + 1` is in order except the pair at
      `j`, and the keys around the gap at `j + 1` are in order. */
  predicate Inserting(distances: seq<real>, i: int, j: int) {
    && -1 <= j <= i && i + 1 < |distances|
    && (forall k :: 0 <= k < i + 1 && k != j ==> 0 <= CompareDistances(distances[k + 1], distances[k]))
    && (0 <= j && j + 2 <= i + 1 ==> 0 <= CompareDistances(distances[j + 2], distances[j]))
  }

  lemma InsertingStep(distances: seq<real>, i: int, j: int)
    requires Inserting(distances, i, j) && 0 <= j
    requires CompareDistances(distances[j + 1], distances[j]) < 0
    ensures Inserting(Swap(distances, j, j + 1), i, j - 1)
  {
    var swapped := Swap(distances, j, j + 1);
    CompareDistancesAntisymmetric(distances[j + 1], distances[j]);
    forall k | 0 <= k < i + 1 && k != j - 1
      ensures 0 <= CompareDistances(swapped[k + 1], swapped[k])
    {
      if k == j + 1 {
        assert swapped[k + 1] == distances[j + 2] && swapped[k] == distances[j];
      }
    }
    if 0 <= j - 1 {
      assert swapped[j + 1] == distances[j] && swapped[j - 1] == distances[j - 1];
    }
  }

  /** One step of the insertion pass on the keys. The first step that
      swaps shows that the keys were not in comparator order to begin with. */
  lemma InsertionStep(keys: seq<real>, current: seq<real>, i: int, j: int)
    requires InsertionPass(keys, current, i, j) && 0 <= j
    requires CompareDistances(current[j + 1], current[j]) < 0
    ensures InsertionPass(keys, Swap(current, j, j + 1), i, j - 1)
  {
    InsertingStep(current, i, j);
  }

  /** The pass that started from `keys` has reached `current`: it is
      `Inserting`, nothing has moved while `j == i`, and once something has
      moved the starting keys were out of order. */
  predicate InsertionPass(keys: seq<real>, current: seq<real>, i: int, j: int) {
    && Inserting(current, i, j)
    && (j == i ==> current == keys)
    && (j < i ==> !InComparatorOrder(keys, i + 1))
  }

  lemma InsertionPassDone(keys: seq<real>, current: seq<real>, i: int, j: int)
    requires InsertionPass(keys, current, i, j)
    requires j < 0 || 0 <= CompareDistances(current[j + 1], current[j])
    ensures InComparatorOrder(current, i + 1)
    ensures InComparatorOrder(keys, i + 1) ==> j == i
  {
    InsertingDone(current, i, j);
  }

  lemma InsertingDone(distances: seq<real>, i: int, j: int)
    requires Inserting(distances, i, j)
    requires j < 0 || 0 <= CompareDistances(distances[j + 1], distances[j])
    ensures InComparatorOrder(distances, i + 1)
  {
  }

  /** What `List.Sort` does with a list of two vehicles: `SwapIfGreater`
      exchanges them exactly when the comparator returns a positive value
      for the first against the second. */
  function SwapIfGreater(sqrt: real -> real, pair: seq<Vehicle>): seq<Vehicle>
    reads pair
    requires IsSqrt(sqrt) && |pair| == 2
  {
    if 0 < CompareVehicles(sqrt, pair[0], pair[1]) then [pair[1], pair[0]] else pair
  }

  /** A rearrangement of two elements either keeps or swaps them. */
  lemma PermutationOfPair<T>(s: seq<T>, t: seq<T>)
    requires |s| == |t| == 2 && multiset(t) == multiset(s)
    ensures t == s || t == [s[1], s[0]]
  {
    assert s == [s[0], s[1]] && t == [t[0], t[1]];
    assert t[0] in multiset(s);
    if t[0] == s[0] {
      assert multiset(t) - multiset{t[0]} == multiset{t[1]};
      assert multiset(s) - multiset{s[0]} == multiset{s[1]};
    } else {
      assert t[0] == s[1];
      assert multiset(t) - multiset{t[0]} == multiset{t[1]};
      assert multiset(s) - multiset{s[1]} == multiset{s[0]};
    }
  }

  /** A rearrangement of a pair that ends in comparator order, and keeps a
      pair that already was, is what `SwapIfGreater` makes of the pair. */
  lemma OrderedPairIsSwapIfGreater(sqrt: real -> real, pair: seq<Vehicle>, sorted: seq<Vehicle>)
    requires IsSqrt(sqrt) && |pair| == |sorted| == 2 && multiset(sorted) == multiset(pair)
    requires InComparatorOrder(Distances(sqrt, sorted), 2)
    requires InComparatorOrder(Distances(sqrt, pair), 2) ==> sorted == pair
    ensures sorted == SwapIfGreater(sqrt, pair)
  {
    PermutationOfPair(pair, sorted);
    var d0, d1 := pair[0].GetTotalDistance(sqrt), pair[1].GetTotalDistance(sqrt);
    CompareDistancesAntisymmetric(d0, d1);
    var keys := Distances(sqrt, pair);
    assert keys[0] == d0 && keys[1] == d1;
    if 0 < CompareDistances(d0, d1) {
      assert !InComparatorOrder(keys, 2);
    } else {
      assert InComparatorOrder(keys, 2);
    }
  }

  /** The list sort with the comparator `CompareVehicles`, run as an
      insertion sort (the algorithm .NET uses for lists of four to sixteen
      elements). The result is a permutation in which no vehicle compares as
      less than the one before it, so each vehicle's total distance is less
      than the next one's plus one: the list runs from least to most
      traveled, up to truncation. A list already in that order is left as it
      is, and a list of two is sorted exactly as `SwapIfGreater` does. The
      library's other algorithms promise no order for a comparator that is
      not transitive, so the callers keep only the permutation and the case
      of two. */
  method SortedByDistance(sqrt: real -> real, vehicles: seq<Vehicle>) returns (sorted: seq<Vehicle>)
    requires IsSqrt(sqrt)
    ensures |sorted| == |vehicles| && multiset(sorted) == multiset(vehicles)
    ensures InComparatorOrder(Distances(sqrt, sorted), |sorted|)
    ensures forall k :: 0 <= k < |sorted| - 1 ==>
      sorted[k].GetTotalDistance(sqrt) < sorted[k + 1].GetTotalDistance(sqrt) + 1.0
    ensures InComparatorOrder(Distances(sqrt, vehicles), |vehicles|) ==> sorted == vehicles
    ensures |vehicles| == 2 ==> sorted == SwapIfGreater(sqrt, vehicles)
  {
    var keyed := WithDistances(sqrt, vehicles);
    var sortedKeyed := InsertionSort(keyed);
    sorted := Items(sortedKeyed);
    SortedKeysAreDistances(sqrt, keyed, sortedKeyed);
    InComparatorOrderDistanceBounds(sqrt, sorted);
    if |vehicles| == 2 {
      OrderedPairIsSwapIfGreater(sqrt, vehicles, sorted);
    }
  }

  /** Each vehicle paired with its sort key. The sort compares these keys:
      `GetTotalDistance` reads only the vehicle's pings, which sorting does
      not change, so each comparison sees the same values as one that
      recomputes the distances. */
  function WithDistances(sqrt: real -> real, vehicles: seq<Vehicle>): (keyed: seq<(Vehicle, real)>)
    reads vehicles
    requires IsSqrt(sqrt)
    ensures Items(keyed) == vehicles && Keys(keyed) == Distances(sqrt, vehicles)
  {
    if vehicles == [] then []
    else
      var last := vehicles[|vehicles| - 1];
      WithDistances(sqrt, vehicles[..|vehicles| - 1]) + [(last, last.GetTotalDistance(sqrt))]
  }

  /** The items of a keyed list, in order. */
  function Items<T>(keyed: seq<(T, real)>): (items: seq<T>)
    ensures |items| == |keyed|
    ensures forall k :: 0 <= k < |keyed| ==> items[k] == keyed[k].0
  {
    seq(|keyed|, k requires 0 <= k < |keyed| => keyed[k].0)
  }

  /** The keys of a keyed list, in order. */
  function Keys<T>(keyed: seq<(T, real)>): (keys: seq<real>)
    ensures |keys| == |keyed|
    ensures forall k :: 0 <= k < |keyed| ==> keys[k] == keyed[k].1
  {
    seq(|keyed|, k requires 0 <= k < |keyed| => keyed[k].1)
  }

  /** A rearrangement of vehicles paired with their distances is still
      paired with their distances. */
  lemma SortedKeysAreDistances(sqrt: real -> real, keyed: seq<(Vehicle, real)>, sorted: seq<(Vehicle, real)>)
    requires IsSqrt(sqrt) && Keys(keyed) == Distances(sqrt, Items(keyed))
    requires multiset(sorted) == multiset(keyed)
    ensures Keys(sorted) == Distances(sqrt, Items(sorted))
  {
    forall k | 0 <= k < |sorted|
      ensures sorted[k].1 == sorted[k].0.GetTotalDistance(sqrt)
    {
      assert sorted[k] in multiset(keyed);
      var m :| 0 <= m < |keyed| && keyed[m] == sorted[k];
      assert Keys(keyed)[m] == Distances(sqrt, Items(keyed))[m];
    }
  }

  /** The passes of the insertion sort on keyed items, each placing one
      more item. */
  method InsertionSort<T>(keyed: seq<(T, real)>) returns (sorted: seq<(T, real)>)
    ensures |sorted| == |keyed| && multiset(sorted) == multiset(keyed)
    ensures multiset(Items(sorted)) == multiset(Items(keyed))
    ensures InComparatorOrder(Keys(sorted), |sorted|)
    ensures InComparatorOrder(Keys(keyed), |keyed|) ==> sorted == keyed
  {
    ghost var ordered := InComparatorOrder(Keys(keyed), |keyed|);
    sorted := keyed;
    var i := 0;
    while i + 1 < |sorted|
      invariant 0 <= i && (i == 0 || i < |sorted|) && |sorted| == |keyed|
      invariant multiset(sorted) == multiset(keyed)
      invariant multiset(Items(sorted)) == multiset(Items(keyed))
      invariant InComparatorOrder(Keys(sorted), i)
      invariant ordered ==> sorted == keyed
      decreases |sorted| - i
    {
      if ordered {
        InComparatorOrderPrefix(Keys(sorted), |sorted|, i + 1);
      }
      sorted := InsertNext(sorted, i);
      i := i + 1;
    }
  }

  /** One pass of the insertion sort: moves the item at `i + 1` left past
      every item whose key compares as greater than its own. */
  method InsertNext<T>(keyed: seq<(T, real)>, i: nat) returns (inserted: seq<(T, real)>)
    requires i + 1 < |keyed|
    requires InComparatorOrder(Keys(keyed), i)
    ensures |inserted| == |keyed| && multiset(inserted) == multiset(keyed)
    ensures multiset(Items(inserted)) == multiset(Items(keyed))
    ensures InComparatorOrder(Keys(inserted), i + 1)
    ensures InComparatorOrder(Keys(keyed), i + 1) ==> inserted == keyed
  {
    ghost var keys := Keys(keyed);
    inserted := keyed;
    var j := i;
    while 0 <= j && CompareDistances(inserted[j + 1].1, inserted[j].1) < 0
      invariant |inserted| == |keyed| && multiset(inserted) == multiset(keyed)
      invariant multiset(Items(inserted)) == multiset(Items(keyed))
      invariant InsertionPass(keys, Keys(inserted), i, j)
      invariant j == i ==> inserted == keyed
      decreases j
    {
      InsertionStep(keys, Keys(inserted), i, j);
      SwapOfKeyed(inserted, j);
      inserted := Swap(inserted, j, j + 1);
      j := j - 1;
    }
    InsertionPassDone(keys, Keys(inserted), i, j);
  }

  lemma SwapOfKeyed<T>(keyed: seq<(T, real)>, j: nat)
    requires j + 1 < |keyed|
    ensures Keys(Swap(keyed, j, j + 1)) == Swap(Keys(keyed), j, j + 1)
    ensures Items(Swap(keyed, j, j + 1)) == Swap(Items(keyed), j, j + 1)
  {
  }

  class WarehouseServer {
    /** The `Vehicles` list. */
    var vehicles: seq<Vehicle>

    constructor ()
      ensures vehicles == []
    {
      vehicles := [];
    }

    /** No vehicle object is listed twice. */
    ghost predicate Valid()
      reads this
    {
      forall i, j :: 0 <= i < j < |vehicles| ==> vehicles[i] != vehicles[j]
    }

    ghost function View(): seq<Track>
      reads this, vehicles
    {
      seq(|vehicles|, i reads this, vehicles requires 0 <= i < |vehicles| => Track(vehicles[i].name, vehicles[i].pings))
    }

    /** `AddPing(name, ping)`: append the ping to the first vehicle with that
        name, creating the vehicle at the end of the list if there is none. */
    method AddPing(name: string, ping: Ping)
      modifies this, vehicles
      ensures FirstIndexOf(Names(old(vehicles)), name).Some? ==>
        && vehicles == old(vehicles)
        && forall v :: v in old(vehicles) ==>
             v.pings == if v == vehicles[FirstIndexOf(Names(old(vehicles)), name).value]
                        then old(v.pings) + [ping] else old(v.pings)
      ensures FirstIndexOf(Names(old(vehicles)), name).None? ==>
        && |vehicles| == |old(vehicles)| + 1
        && vehicles[..|old(vehicles)|] == old(vehicles)
        && fresh(vehicles[|old(vehicles)|])
        && vehicles[|old(vehicles)|].name == name
        && vehicles[|old(vehicles)|].pings == [ping]
        && forall v :: v in old(vehicles) ==> v.pings == old(v.pings)
      ensures Distinct(Names(old(vehicles))) ==> Distinct(Names(vehicles))
      ensures old(Valid()) ==> Valid() && View() == AddPingTo(old(View()), name, ping)
    {
      var found := FirstIndexOf(Names(vehicles), name);
      var vehicle: Vehicle;
      if found.None? {
        vehicle := new Vehicle(name);
        vehicles := vehicles + [vehicle];
      } else {
        vehicle := vehicles[found.value];
      }
      vehicle.pings := vehicle.pings + [ping];
      assert TrackNames(old(View())) == Names(old(vehicles));
    }

    /** The loop of `InitializeFromCsv` over the parsed records. */
    method InitializeFromRecords(records: seq<Record>)
      modifies this, vehicles
      ensures old(vehicles) <= vehicles
      ensures fresh(set v | v in vehicles && v !in old(vehicles))
      ensures Distinct(Names(old(vehicles))) ==> Distinct(Names(vehicles))
      ensures old(Valid()) ==> Valid() && View() == Ingested(old(View()), records)
    {
      ghost var wasValid, wasDistinct, start := Valid(), Distinct(Names(vehicles)), View();
      for i := 0 to |records|
        invariant old(vehicles) <= vehicles
        invariant forall k :: |old(vehicles)| <= k < |vehicles| ==> fresh(vehicles[k])
        invariant wasDistinct ==> Distinct(Names(vehicles))
        invariant wasValid ==> Valid() && View() == Ingested(start, records[..i])
      {
        AddPing(records[i].name, records[i].ping);
        assert records[..i + 1][..i] == records[..i];
      }
      assert records[..|records|] == records;
    }

    /** `GetAverageSpeeds()`: `ToDictionary` keyed by name, which throws on a
        repeated name, so the names must be distinct. */
    function GetAverageSpeeds(sqrt: real -> real): (speeds: map<string, real>)
      reads this, vehicles
      requires IsSqrt(sqrt)
      requires Distinct(Names(vehicles))
      requires forall v :: v in vehicles ==> v.HasElapsedTime()
      ensures speeds.Keys == set v | v in vehicles :: v.name
      ensures forall v :: v in vehicles ==> speeds[v.name] == v.GetAverageSpeed(sqrt)
    {
      assert forall v, w :: v in vehicles && w in vehicles && v.name == w.name ==> v == w by {
        forall v, w | v in vehicles && w in vehicles && v.name == w.name
          ensures v == w
        {
          var i, j :| 0 <= i < |vehicles| && vehicles[i] == v && 0 <= j < |vehicles| && vehicles[j] == w;
          assert Names(vehicles)[i] == Names(vehicles)[j];
        }
      }
      map v | v in vehicles :: v.name := v.GetAverageSpeed(sqrt)
    }

    /** `vehicles.Sort(comparator)`: a permutation of the list; a list of
        two is sorted as `SwapIfGreater` does. */
    method SortByDistance(sqrt: real -> real)
      requires IsSqrt(sqrt)
      modifies this
      ensures |vehicles| == |old(vehicles)| && multiset(vehicles) == multiset(old(vehicles))
      ensures |old(vehicles)| == 2 ==> vehicles == SwapIfGreater(sqrt, old(vehicles))
    {
      vehicles := SortedByDistance(sqrt, vehicles);
    }

    /** The first statement of `GetMostTraveledSince`:
        `ForEach(vehicle => vehicle.Pings.RemoveAll(ping => ping.Timestamp > timestamp))`. */
    method PrunePings(timestamp: int)
      modifies vehicles
      ensures forall v :: v in vehicles ==> v.pings == Until(old(v.pings), timestamp)
    {
      var i := 0;
      ghost var pruned: set<Vehicle> := {};
      while i < |vehicles|
        invariant 0 <= i <= |vehicles|
        invariant forall k :: 0 <= k < i ==> vehicles[k] in pruned
        invariant forall v :: v in vehicles && v in pruned ==> v.pings == Until(old(v.pings), timestamp)
        invariant forall v :: v in vehicles && v !in pruned ==> v.pings == old(v.pings)
      {
        var vehicle := vehicles[i];
        if vehicle in pruned {
          UntilIdempotent(old(vehicle.pings), timestamp);
        }
        vehicle.pings := Until(vehicle.pings, timestamp);
        pruned := pruned + {vehicle};
        i := i + 1;
      }
    }

    /** `GetMostTraveledSince(maxResults, timestamp)`: prunes every vehicle's
        pings after `timestamp`, reorders the list by the truncated distance
        comparator, and returns the names of the first `maxResults`
        vehicles. */
    method GetMostTraveledSince(sqrt: real -> real, maxResults: int, timestamp: int) returns (names: seq<string>)
      requires IsSqrt(sqrt)
      requires 0 <= maxResults <= |vehicles|
      modifies this, vehicles
      ensures |vehicles| == |old(vehicles)| && multiset(vehicles) == multiset(old(vehicles))
      ensures forall v :: v in old(vehicles) ==> v.pings == Until(old(v.pings), timestamp)
      ensures |old(vehicles)| == 2 ==> vehicles == SwapIfGreater(sqrt, old(vehicles))
      ensures |names| == maxResults
      ensures names == Names(vehicles[..maxResults])
    {
      PrunePings(timestamp);
      SortByDistance(sqrt);
      names := Names(vehicles[..maxResults]);
    }

    /** `CheckForDamage()`: not implemented; always an empty array. */
    function CheckForDamage(): (names: seq<string>)
      ensures names == []
    {
      []
    }
  }

  /** The fleet of WarehouseServerTests.cs:43-49, queried as at line 51.
      Ada and Euler each have a single ping, so both distances are 0 and the
      comparator ties them. The pair keeps its order, and the answer is
      "Ada", not the "Euler" that the test expects. */
  method TiedPairKeepsListOrder(sqrt: real -> real) returns (names: seq<string>)
    requires IsSqrt(sqrt)
    ensures names == ["Ada"]
  {
    var server := new WarehouseServer();
    var ada := new Vehicle("Ada");
    ada.pings := ada.pings + [NewPing(0.0, 0.0, 1)];
    var euler := new Vehicle("Euler");
    euler.pings := euler.pings + [NewPing(0.0, 0.0, 2)];
    server.vehicles := server.vehicles + [ada];
    server.vehicles := server.vehicles + [euler];
    names := server.GetMostTraveledSince(sqrt, 1, 10);
    assert ada.GetTotalDistance(sqrt) == 0.0 && euler.GetTotalDistance(sqrt) == 0.0;
    assert server.vehicles == [ada, euler];
  }
}
