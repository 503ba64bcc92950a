/** Position.cs: an (x, y) coordinate in the warehouse, a value type with
    exact equality and a Euclidean distance. Coordinates are reals. */
module Positions {
  import opened Runtime

  /** The struct `Position`; its constructor `new Position(x, y)` is the
      datatype constructor, which sets `X` to `x` and `Y` to `y`. */
  datatype Position = Position(x: real, y: real)

  /** `Equals(Position other)`: exact comparison of both coordinates. */
  predicate Equals(p: Position, other: Position)
    ensures Equals(p, other) <==> p == other
  {
    p.x == other.x && p.y == other.y
  }

  /** `Equals(object obj)`: true only for a boxed `Position` equal to `p`. */
  predicate EqualsObject(p: Position, obj: Object<Position>)
    ensures EqualsObject(p, obj) <==> obj == Instance(p)
  {
    obj.Instance? && Equals(p, obj.value)
  }

  /** Exact equality is an equivalence relation. */
  lemma EqualsIsEquivalence(a: Position, b: Position, c: Position)
    ensures Equals(a, a)
    ensures Equals(a, b) ==> Equals(b, a)
    ensures Equals(a, b) && Equals(b, c) ==> Equals(a, c)
  {
  }

  /** The static `GetDistance`: the Euclidean distance, computed from the
      absolute coordinate differences. */
  function GetDistance(sqrt: real -> real, position1: Position, position2: Position): (d: real)
    requires IsSqrt(sqrt)
    ensures 0.0 <= d
    ensures d * d == (position1.x - position2.x) * (position1.x - position2.x)
                   + (position1.y - position2.y) * (position1.y - position2.y)
  {
    var xDiff := Abs(position1.x - position2.x);
    var yDiff := Abs(position1.y - position2.y);
    assert xDiff * xDiff == (position1.x - position2.x) * (position1.x - position2.x);
    assert yDiff * yDiff == (position1.y - position2.y) * (position1.y - position2.y);
    sqrt(xDiff * xDiff + yDiff * yDiff)
  }

  lemma {:induction false} GetDistanceSymmetric(sqrt: real -> real, a: Position, b: Position)
    requires IsSqrt(sqrt)
    ensures GetDistance(sqrt, a, b) == GetDistance(sqrt, b, a)
  {
    var d, e := GetDistance(sqrt, a, b), GetDistance(sqrt, b, a);
    assert (a.x - b.x) * (a.x - b.x) == (b.x - a.x) * (b.x - a.x);
    assert (a.y - b.y) * (a.y - b.y) == (b.y - a.y) * (b.y - a.y);
    SquareRootUnique(d, e);
  }

  lemma {:induction false} GetDistanceToItself(sqrt: real -> real, a: Position)
    requires IsSqrt(sqrt)
    ensures GetDistance(sqrt, a, a) == 0.0
  {
    SquareZero(GetDistance(sqrt, a, a));
  }

  /** Distance is zero exactly between equal positions. */
  lemma {:induction false} GetDistanceZeroIffEqual(sqrt: real -> real, a: Position, b: Position)
    requires IsSqrt(sqrt)
    ensures GetDistance(sqrt, a, b) == 0.0 <==> a == b
  {
    var dx, dy := a.x - b.x, a.y - b.y;
    if a == b {
      GetDistanceToItself(sqrt, a);
    } else {
      var d := GetDistance(sqrt, a, b);
      assert 0.0 <= dy * dy;
      assert 0.0 <= dx * dx;
      if dx != 0.0 {
        if dx > 0.0 { PositiveProduct(dx, dx, dx * dx); } else { PositiveProduct(-dx, -dx, dx * dx); }
      } else {
        assert dy != 0.0;
        if dy > 0.0 { PositiveProduct(dy, dy, dy * dy); } else { PositiveProduct(-dy, -dy, dy * dy); }
      }
      assert 0.0 < d * d;
    }
  }
}
