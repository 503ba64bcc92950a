/** The pieces of the .NET runtime that the warehouse engine calls into:
    FirstOrDefault's "maybe a value", an argument of static type `object`
    as an `Equals` override sees it, `Math.Abs`, `Math.Sqrt` and the
    truncating `(int)` cast of a double. */
module Runtime {

  datatype Option<T> = None | Some(value: T)

  /** An argument of static type `object`, as the `Equals` override of the
      type `T` sees it: a null reference, an instance of `T`, or an instance
      of some other type. */
  datatype Object<T> = Null | Instance(value: T) | OtherType

  /** `Math.Abs` on a double, over the reals. */
  function Abs(r: real): (a: real)
    ensures 0.0 <= a
    ensures a == r || a == -r
  {
    if r < 0.0 then -r else r
  }

  /** `Math.Sqrt` is a library call the model cannot see; it enters every
      operation that measures distance as a parameter `sqrt`, which must be a
      square root on the non-negative reals: non-negative, and its square is
      its argument. */
  ghost predicate IsSqrt(sqrt: real -> real) {
    forall x: real :: 0.0 <= x ==> 0.0 <= sqrt(x) && sqrt(x) * sqrt(x) == x
  }

  /** The product `p` of two positive reals is positive. (The product is a
      parameter so that the caller's solver sees a fact about `p`.) */
  lemma PositiveProduct(a: real, b: real, p: real)
    requires 0.0 < a && 0.0 < b && p == a * b
    ensures 0.0 < p
  {
  }

  /** A non-negative real has at most one non-negative square root. */
  lemma {:induction false} SquareRootUnique(r: real, s: real)
    requires 0.0 <= r && 0.0 <= s && r * r == s * s
    ensures r == s
  {
    if r > s {
      assert (r - s) * (r + s) == r * r - s * s;
      PositiveProduct(r - s, r + s, (r - s) * (r + s));
    } else if r < s {
      assert (s - r) * (r + s) == s * s - r * r;
      PositiveProduct(s - r, r + s, (s - r) * (r + s));
    }
  }

  /** The only non-negative real whose square is zero is zero. */
  lemma {:induction false} SquareZero(r: real)
    requires 0.0 <= r && r * r == 0.0
    ensures r == 0.0
  {
    if r > 0.0 {
      PositiveProduct(r, r, r * r);
    }
  }

  /** What a quotient `q` of reals means: `q` times the divisor is the
      dividend, and a non-negative dividend over a positive divisor gives a
      non-negative quotient. */
  lemma Quotient(dividend: real, divisor: real, q: real)
    requires divisor != 0.0 && q == dividend / divisor
    ensures q * divisor == dividend
    ensures 0.0 < divisor && 0.0 <= dividend ==> 0.0 <= q
  {
  }

  /** The C# cast `(int)d` of a double: rounds toward zero. Values outside the
      range of `int` are not modelled (the cast is unspecified there). */
  function TruncateToInt(r: real): (n: int)
    ensures 0.0 <= r ==> n as real <= r < n as real + 1.0
    ensures r < 0.0 ==> n as real - 1.0 < r <= n as real
  {
    if 0.0 <= r then r.Floor else -((-r).Floor)
  }
}
