/** Ping.cs: a vehicle's position at a timestamp (whole seconds since an
    arbitrary epoch), with a signed time difference and a fuzzy equality. */
module Pings {
  import opened Runtime
  import opened Positions

  /** Two coordinates are "the same" when they differ by strictly less than
      this (`Tolerance`). */
  const Tolerance: real := 0.1

  /** The sealed class `Ping`. Its properties are read-only, so a ping is a
      value; reference identity plays no part in its `Equals`. */
  datatype Ping = Ping(position: Position, timestamp: int)

  /** The constructor `new Ping(x, y, timestamp)`. */
  function NewPing(x: real, y: real, timestamp: int): (p: Ping)
    ensures p.position.x == x && p.position.y == y
    ensures p.timestamp == timestamp
  {
    Ping(Position(x, y), timestamp)
  }

  /** `SecondsBetween(ping1, ping2)`: how many seconds `ping2` comes after
      `ping1`; negative when it comes before. */
  function SecondsBetween(ping1: Ping, ping2: Ping): (seconds: int)
    ensures ping1.timestamp + seconds == ping2.timestamp
    ensures 0 < seconds <==> ping1.timestamp < ping2.timestamp
  {
    ping2.timestamp - ping1.timestamp
  }

  lemma SecondsBetweenAntisymmetric(a: Ping, b: Ping)
    ensures SecondsBetween(a, a) == 0
    ensures SecondsBetween(a, b) == -SecondsBetween(b, a)
  {
  }

  /** `Equals(object obj)`: a non-null `Ping` whose coordinates are each
      within `Tolerance` of this one's and whose timestamp is the same. */
  predicate Equals(ping: Ping, obj: Object<Ping>)
    ensures Equals(ping, obj) ==> obj.Instance?
    ensures Equals(ping, obj) ==> obj.value.timestamp == ping.timestamp
  {
    && obj != Null
    && obj.Instance?
    && Abs(obj.value.position.x - ping.position.x) < Tolerance
    && Abs(obj.value.position.y - ping.position.y) < Tolerance
    && obj.value.timestamp == ping.timestamp
  }

  /** Shorthand for comparing two pings. */
  predicate Near(a: Ping, b: Ping) {
    Equals(a, Instance(b))
  }

  lemma NullAndOtherTypesAreNeverEqual(ping: Ping)
    ensures !Equals(ping, Null)
    ensures !Equals(ping, OtherType)
  {
  }

  /** Timestamps must agree exactly, whatever the positions. */
  lemma DifferentTimestampsNeverEqual(a: Ping, b: Ping)
    requires a.timestamp != b.timestamp
    ensures !Near(a, b)
  {
  }

  /** Positions need not agree exactly: a shift of less than the tolerance in
      each coordinate keeps a ping equal. */
  lemma EqualsToleratesSmallShifts(a: Ping, dx: real, dy: real)
    requires Abs(dx) < Tolerance && Abs(dy) < Tolerance
    ensures Near(a, Ping(Position(a.position.x + dx, a.position.y + dy), a.timestamp))
  {
  }

  /** The tolerance is strict: a shift of exactly the tolerance breaks
      equality. */
  lemma ShiftOfToleranceIsNotEqual(a: Ping)
    ensures !Near(a, Ping(Position(a.position.x + Tolerance, a.position.y), a.timestamp))
  {
  }

  lemma EqualsReflexiveAndSymmetric(a: Ping, b: Ping)
    ensures Near(a, a)
    ensures Near(a, b) <==> Near(b, a)
  {
  }

  /** The tolerance is strict and is measured from each ping, so the
      relation is not transitive: (0, 0), (0.06, 0) and (0.12, 0) at the same
      instant. */
  lemma EqualsNotTransitive()
    ensures exists a: Ping, b: Ping, c: Ping :: Near(a, b) && Near(b, c) && !Near(a, c)
  {
    var a := NewPing(0.0, 0.0, 0);
    var b := NewPing(0.06, 0.0, 0);
    var c := NewPing(0.12, 0.0, 0);
    assert Near(a, b) && Near(b, c) && !Near(a, c);
  }
}
