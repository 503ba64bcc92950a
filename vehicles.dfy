/** Vehicle.cs: a named vehicle and the pings recorded for it, in the order
    they were added, with the distance and speed derived from them. */
module Vehicles {
  import opened Runtime
  import opened Positions
  import opened Pings

  /** `Math.Pow(d, 2)`. */
  function Square(d: real): real {
    d * d
  }

  /** `CalculateDistance(currentPing, nextPing)`: the length of one leg,
      computed with `Math.Pow` rather than `Math.Abs`; it is the same
      Euclidean distance as `Position.GetDistance`. */
  function CalculateDistance(sqrt: real -> real, currentPing: Ping, nextPing: Ping): (distance: real)
    requires IsSqrt(sqrt)
    ensures 0.0 <= distance
    ensures distance == GetDistance(sqrt, currentPing.position, nextPing.position)
  {
    var x1, y1 := currentPing.position.x, currentPing.position.y;
    var x2, y2 := nextPing.position.x, nextPing.position.y;
    var distance := sqrt(Square(x2 - x1) + Square(y2 - y1));
    assert Square(x2 - x1) == (x1 - x2) * (x1 - x2);
    assert Square(y2 - y1) == (y1 - y2) * (y1 - y2);
    assert 0.0 <= Square(x2 - x1) + Square(y2 - y1);
    SquareRootUnique(distance, GetDistance(sqrt, currentPing.position, nextPing.position));
    distance
  }

  /** `pings.Zip(pings.Skip(1), CalculateDistance)`: the length of each leg
      between consecutive pings, in order. */
  function Legs(sqrt: real -> real, pings: seq<Ping>): (legs: seq<real>)
    requires IsSqrt(sqrt)
    ensures |legs| == if pings == [] then 0 else |pings| - 1
    ensures forall i :: 0 <= i < |legs| ==> legs[i] == CalculateDistance(sqrt, pings[i], pings[i + 1])
  {
    if |pings| < 2 then []
    else Legs(sqrt, pings[..|pings| - 1]) + [CalculateDistance(sqrt, pings[|pings| - 2], pings[|pings| - 1])]
  }

  /** `Enumerable.Sum`: adds the values from first to last. */
  function Sum(values: seq<real>): real {
    if values == [] then 0.0 else Sum(values[..|values| - 1]) + values[|values| - 1]
  }

  lemma {:induction false} SumOfNonNegatives(values: seq<real>)
    requires forall i :: 0 <= i < |values| ==> 0.0 <= values[i]
    ensures 0.0 <= Sum(values)
  {
    if values != [] {
      SumOfNonNegatives(values[..|values| - 1]);
    }
  }

  /** Summing from the front gives the same total. */
  lemma {:induction false} SumCons(x: real, values: seq<real>)
    ensures Sum([x] + values) == x + Sum(values)
  {
    if values != [] {
      var n := |values|;
      assert ([x] + values)[..n] == [x] + values[..n - 1];
      SumCons(x, values[..n - 1]);
    }
  }

  /** The static `GetTotalDistance(IEnumerable<Ping>)`: the sum of the legs
      between consecutive pings, in sequence order. */
  function TotalDistanceOf(sqrt: real -> real, pings: seq<Ping>): (distance: real)
    requires IsSqrt(sqrt)
    ensures 0.0 <= distance
  {
    var legs := Legs(sqrt, pings);
    forall i | 0 <= i < |legs|
      ensures 0.0 <= legs[i]
    {
      assert legs[i] == CalculateDistance(sqrt, pings[i], pings[i + 1]);
    }
    SumOfNonNegatives(legs);
    Sum(legs)
  }

  /** An independent reference definition: the first leg plus the length of
      the rest of the path. */
  function PathLength(sqrt: real -> real, pings: seq<Ping>): real
    requires IsSqrt(sqrt)
  {
    if |pings| < 2 then 0.0
    else GetDistance(sqrt, pings[0].position, pings[1].position) + PathLength(sqrt, pings[1..])
  }

  lemma {:induction false} TotalDistanceIsPathLength(sqrt: real -> real, pings: seq<Ping>)
    requires IsSqrt(sqrt)
    ensures TotalDistanceOf(sqrt, pings) == PathLength(sqrt, pings)
  {
    if |pings| >= 2 {
      var legs, rest := Legs(sqrt, pings), Legs(sqrt, pings[1..]);
      forall i | 0 <= i < |rest|
        ensures legs[i + 1] == rest[i]
      {
        assert pings[1..][i] == pings[i + 1] && pings[1..][i + 1] == pings[i + 2];
      }
      assert legs == [legs[0]] + rest;
      SumCons(legs[0], rest);
      TotalDistanceIsPathLength(sqrt, pings[1..]);
    }
  }

  lemma TotalDistanceOfShort(sqrt: real -> real, pings: seq<Ping>)
    requires IsSqrt(sqrt) && |pings| <= 1
    ensures TotalDistanceOf(sqrt, pings) == 0.0
  {
  }

  /** Appending a ping to a non-empty sequence adds the leg from the last
      ping to it. */
  lemma {:induction false} TotalDistanceOfAppend(sqrt: real -> real, pings: seq<Ping>, ping: Ping)
    requires IsSqrt(sqrt) && pings != []
    ensures TotalDistanceOf(sqrt, pings + [ping])
         == TotalDistanceOf(sqrt, pings) + GetDistance(sqrt, pings[|pings| - 1].position, ping.position)
  {
    var longer := pings + [ping];
    assert longer[..|longer| - 1] == pings;
  }

  lemma TotalDistanceOfPair(sqrt: real -> real, a: Ping, b: Ping)
    requires IsSqrt(sqrt)
    ensures TotalDistanceOf(sqrt, [a, b]) == GetDistance(sqrt, a.position, b.position)
  {
    TotalDistanceOfAppend(sqrt, [a], b);
  }

  /** `Where(p => p.Timestamp > timestamp)`: the pings strictly after
      `timestamp`, in their original order. */
  function Since(pings: seq<Ping>, timestamp: int): (kept: seq<Ping>)
    ensures |kept| <= |pings|
    ensures forall p :: p in kept <==> p in pings && timestamp < p.timestamp
  {
    if pings == [] then []
    else
      var rest, last := Since(pings[..|pings| - 1], timestamp), pings[|pings| - 1];
      assert pings == pings[..|pings| - 1] + [last];
      if timestamp < last.timestamp then rest + [last] else rest
  }

  /** The filter keeps the relative order: it distributes over
      concatenation. */
  lemma {:induction false} SinceDistributes(a: seq<Ping>, b: seq<Ping>, timestamp: int)
    ensures Since(a + b, timestamp) == Since(a, timestamp) + Since(b, timestamp)
  {
    if b == [] {
      assert a + b == a;
    } else {
      var n := |b|;
      var init, last := b[..n - 1], b[n - 1];
      assert (a + b)[..|a + b| - 1] == a + init && (a + b)[|a + b| - 1] == last;
      SinceDistributes(a, init, timestamp);
      if timestamp < last.timestamp {
        assert Since(a + b, timestamp) == Since(a + init, timestamp) + [last];
        assert Since(b, timestamp) == Since(init, timestamp) + [last];
      }
    }
  }

  lemma {:induction false} SinceKeepsAllLater(pings: seq<Ping>, timestamp: int)
    ensures (forall i :: 0 <= i < |pings| ==> timestamp < pings[i].timestamp) ==> Since(pings, timestamp) == pings
  {
    if pings != [] {
      SinceKeepsAllLater(pings[..|pings| - 1], timestamp);
      assert pings == pings[..|pings| - 1] + [pings[|pings| - 1]];
    }
  }

  lemma SinceDropsAllEarlier(pings: seq<Ping>, timestamp: int)
    ensures (forall i :: 0 <= i < |pings| ==> pings[i].timestamp <= timestamp) ==> Since(pings, timestamp) == []
  {
    var kept := Since(pings, timestamp);
    if kept != [] {
      assert kept[0] in kept;
    }
  }

  /** Only the legs between two pings inside the window count: the leg that
      crosses into the window is dropped. Here the vehicle moves 5 units
      from time 5 to time 15 and then stands still, and the distance since
      time 10 is 0. */
  lemma SinceDropsBridgingLeg(sqrt: real -> real)
    requires IsSqrt(sqrt)
    ensures var pings := [NewPing(0.0, 0.0, 5), NewPing(3.0, 4.0, 15), NewPing(3.0, 4.0, 20)];
            TotalDistanceOf(sqrt, pings) == 5.0 && TotalDistanceOf(sqrt, Since(pings, 10)) == 0.0
  {
    var a, b, c := NewPing(0.0, 0.0, 5), NewPing(3.0, 4.0, 15), NewPing(3.0, 4.0, 20);
    BridgingLegWindow(a, b, c);
    BridgingLegLengths(sqrt, a, b, c);
  }

  lemma BridgingLegWindow(a: Ping, b: Ping, c: Ping)
    requires a.timestamp == 5 && b.timestamp == 15 && c.timestamp == 20
    ensures Since([a, b, c], 10) == [b, c]
  {
    assert [a][..0] == [];
    assert Since([a], 10) == [];
    assert [a, b][..1] == [a];
    assert Since([a, b], 10) == [b];
    assert [a, b, c][..2] == [a, b];
  }

  lemma BridgingLegLengths(sqrt: real -> real, a: Ping, b: Ping, c: Ping)
    requires IsSqrt(sqrt)
    requires a.position == Position(0.0, 0.0) && b.position == Position(3.0, 4.0) && c.position == b.position
    ensures TotalDistanceOf(sqrt, [a, b, c]) == 5.0 && TotalDistanceOf(sqrt, [b, c]) == 0.0
  {
    TotalDistanceOfPair(sqrt, a, b);
    TotalDistanceOfAppend(sqrt, [a, b], c);
    assert [a, b] + [c] == [a, b, c];
    ThreeFourFive(sqrt);
    GetDistanceToItself(sqrt, b.position);
    TotalDistanceOfPair(sqrt, b, c);
  }

  lemma ThreeFourFive(sqrt: real -> real)
    requires IsSqrt(sqrt)
    ensures GetDistance(sqrt, Position(0.0, 0.0), Position(3.0, 4.0)) == 5.0
  {
    var d := GetDistance(sqrt, Position(0.0, 0.0), Position(3.0, 4.0));
    assert d * d == 5.0 * 5.0;
    SquareRootUnique(d, 5.0);
  }

  /** The double division `distance / totalTime` of the average speed: the
      speed times the elapsed time is the distance. */
  function Ratio(distance: real, totalTime: int): (speed: real)
    requires totalTime != 0
    ensures speed * totalTime as real == distance
    ensures 0.0 <= distance && 0 < totalTime ==> 0.0 <= speed
  {
    Quotient(distance, totalTime as real, distance / totalTime as real);
    distance / totalTime as real
  }

  /** A vehicle that moves one unit along each axis in two seconds has
      average speed sqrt(2)/2. */
  lemma DiagonalStepSpeed(sqrt: real -> real)
    requires IsSqrt(sqrt)
    ensures var speed := Ratio(TotalDistanceOf(sqrt, [NewPing(0.0, 0.0, 0), NewPing(1.0, 1.0, 2)]), 2);
            0.0 <= speed && speed * 2.0 == sqrt(2.0)
  {
    var a, b := NewPing(0.0, 0.0, 0), NewPing(1.0, 1.0, 2);
    TotalDistanceOfPair(sqrt, a, b);
    assert GetDistance(sqrt, a.position, b.position) == sqrt(2.0);
  }

  /** `Vehicle`: its name is fixed at construction; its `Pings` list is
      appended to and pruned in place by the server. */
  class Vehicle {
    const name: string
    var pings: seq<Ping>

    constructor (name: string)
      ensures this.name == name && pings == []
    {
      this.name := name;
      pings := [];
    }

    /** `GetTotalDistance()`. */
    function GetTotalDistance(sqrt: real -> real): (distance: real)
      reads this
      requires IsSqrt(sqrt)
      ensures 0.0 <= distance
      ensures |pings| <= 1 ==> distance == 0.0
    {
      TotalDistanceOf(sqrt, pings)
    }

    /** `GetTotalDistanceSince(timestamp)`: the total distance over the pings
        strictly after `timestamp` only. */
    function GetTotalDistanceSince(sqrt: real -> real, timestamp: int): (distance: real)
      reads this
      requires IsSqrt(sqrt)
      ensures 0.0 <= distance
      ensures |Since(pings, timestamp)| <= 1 ==> distance == 0.0
      ensures (forall i :: 0 <= i < |pings| ==> timestamp < pings[i].timestamp) ==> distance == GetTotalDistance(sqrt)
      ensures (forall i :: 0 <= i < |pings| ==> pings[i].timestamp <= timestamp) ==> distance == 0.0
    {
      SinceKeepsAllLater(pings, timestamp);
      SinceDropsAllEarlier(pings, timestamp);
      TotalDistanceOf(sqrt, Since(pings, timestamp))
    }

    /** `First()` and `Last()` throw on an empty list, and a zero time span
        makes the double division return an infinity or NaN. */
    predicate HasElapsedTime()
      reads this
    {
      pings != [] && pings[0].timestamp != pings[|pings| - 1].timestamp
    }

    /** `GetAverageSpeed()`: the total distance divided by the time from the
        first ping to the last, in list order. */
    function GetAverageSpeed(sqrt: real -> real): (speed: real)
      reads this
      requires IsSqrt(sqrt) && HasElapsedTime()
      ensures speed * (pings[|pings| - 1].timestamp - pings[0].timestamp) as real == GetTotalDistance(sqrt)
      ensures pings[0].timestamp < pings[|pings| - 1].timestamp ==> 0.0 <= speed
    {
      var firstPing := pings[0].timestamp;
      var lastPing := pings[|pings| - 1].timestamp;
      var totalTime := lastPing - firstPing;
      Ratio(GetTotalDistance(sqrt), totalTime)
    }
  }
}
