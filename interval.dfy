/** Real intervals with open or closed endpoints (include/interval.h). */
module Intervals {
  import Utils

  /** The precision of the `double` specialisation, used by `is_degenerate`. */
  const Epsilon: real := 0.000000001

  /** `interval_bounds`: whether an endpoint belongs to the interval. */
  datatype Bounds = Opened | Closed

  /** `interval<T>`: endpoints set once by a constructor and never changed. */
  datatype Interval = Interval(lower: real, upper: real, lowerBound: Bounds, upperBound: Bounds) {

    function Length(): real {
      upper - lower
    }

    /** `is_degenerate`: the endpoints are equal up to Epsilon. */
    predicate IsDegenerate() {
      Utils.NearlyEqual(lower, upper, Epsilon)
    }

    predicate IsClosed() {
      lowerBound == Closed && upperBound == Closed
    }

    predicate IsOpened() {
      lowerBound == Opened && upperBound == Opened
    }

    predicate IsLowerOpen() {
      lowerBound == Opened
    }

    predicate IsUpperOpen() {
      upperBound == Opened
    }

    predicate IsLowerClosed() {
      lowerBound == Closed
    }

    predicate IsUpperClosed() {
      upperBound == Closed
    }

    /** `is_half_open`: the two endpoints are of different kinds. */
    predicate IsHalfOpen() {
      lowerBound != upperBound
    }

    /** `is_empty`: the endpoints are reversed, or they coincide and one of
        them is open. */
    predicate IsEmpty() {
      lower > upper || (IsDegenerate() && !IsClosed())
    }

    /** Membership of a point, read from the endpoint kinds. */
    predicate Contains(x: real) {
      (if lowerBound == Closed then lower <= x else lower < x) &&
      (if upperBound == Closed then x <= upper else x < upper)
    }
  }

  /** The default constructor: (0, 1], lower end open and upper end closed. */
  function Default(): (i: Interval)
    ensures i.lower == 0.0 && i.upper == 1.0
    ensures i.IsLowerOpen() && i.IsUpperClosed() && i.IsHalfOpen() && !i.IsEmpty()
  {
    Make(0.0, 1.0)
  }

  /** The two-argument constructor: the endpoint kinds default to open
      below and closed above. */
  function Make(a: real, b: real): (i: Interval)
    ensures i.lower == a && i.upper == b
    ensures i.IsLowerOpen() && i.IsUpperClosed() && i.IsHalfOpen()
  {
    Interval(a, b, Opened, Closed)
  }

  /** A non-empty interval contains a point: its midpoint, or its single
      point when the endpoints coincide. */
  lemma NonEmptyHasPoint(i: Interval)
    requires !i.IsEmpty()
    ensures i.Contains((i.lower + i.upper) / 2.0)
  {
  }

  /** An interval with reversed endpoints, or a single point with an open
      end, contains nothing. */
  lemma EmptyHasNoPoint(i: Interval, x: real)
    requires i.lower > i.upper || (i.lower == i.upper && !i.IsClosed())
    ensures i.IsEmpty() && !i.Contains(x)
  {
  }

  /** `bisect(lower_bounds, upper_bounds)`: the halves on either side of the
      midpoint, both with the requested endpoint kinds. */
  function Bisect(i: Interval, lowerBounds: Bounds, upperBounds: Bounds): (halves: (Interval, Interval))
    ensures halves.0.lower == i.lower && halves.1.upper == i.upper
    ensures halves.0.upper == halves.1.lower == (i.lower + i.upper) / 2.0
    ensures halves.0.lowerBound == halves.1.lowerBound == lowerBounds
    ensures halves.0.upperBound == halves.1.upperBound == upperBounds
    ensures halves.0.Length() == halves.1.Length() == i.Length() / 2.0
  {
    var c := (i.lower + i.upper) / 2.0;
    (Interval(i.lower, c, lowerBounds, upperBounds), Interval(c, i.upper, lowerBounds, upperBounds))
  }

  /** Bisecting a half-open (a, b] with the default kinds splits it into two
      disjoint halves whose union is the interval. */
  lemma BisectPartitions(i: Interval, x: real)
    requires i.lowerBound == Opened && i.upperBound == Closed
    ensures var (h1, h2) := Bisect(i, Opened, Closed);
            (i.Contains(x) <==> h1.Contains(x) || h2.Contains(x)) &&
            !(h1.Contains(x) && h2.Contains(x))
  {
  }

  /** The affine map t |-> m * t + c that `linear_transform` returns. */
  datatype Affine = Affine(m: real, c: real) {
    function Apply(t: real): real {
      m * t + c
    }
  }

  /** `linear_transform(J)`: the affine map taking this interval's lower and
      upper endpoints to J's; the endpoints must differ. */
  function LinearTransform(i: Interval, j: Interval): (f: Affine)
    requires i.upper != i.lower
    ensures f.Apply(i.lower) == j.lower && f.Apply(i.upper) == j.upper
  {
    var a, b, alpha, beta := i.lower, i.upper, j.lower, j.upper;
    var f := Affine((beta - alpha) / (b - a), (alpha * b - beta * a) / (b - a));
    LinearTransformEnds(a, b, alpha, beta);
    f
  }

  lemma LinearTransformEnds(a: real, b: real, alpha: real, beta: real)
    requires b != a
    ensures (beta - alpha) / (b - a) * a + (alpha * b - beta * a) / (b - a) == alpha
    ensures (beta - alpha) / (b - a) * b + (alpha * b - beta * a) / (b - a) == beta
  {
    var d := b - a;
    assert (beta - alpha) / d * a + (alpha * b - beta * a) / d == ((beta - alpha) * a + (alpha * b - beta * a)) / d;
    assert (beta - alpha) * a + (alpha * b - beta * a) == alpha * d;
    assert (beta - alpha) / d * b + (alpha * b - beta * a) / d == ((beta - alpha) * b + (alpha * b - beta * a)) / d;
    assert (beta - alpha) * b + (alpha * b - beta * a) == beta * d;
  }

  /** The map sends the midpoint to the midpoint. */
  lemma LinearTransformMidpoint(i: Interval, j: Interval)
    requires i.upper != i.lower
    ensures LinearTransform(i, j).Apply((i.lower + i.upper) / 2.0) == (j.lower + j.upper) / 2.0
  {
    var f := LinearTransform(i, j);
    assert f.Apply((i.lower + i.upper) / 2.0) == (f.Apply(i.lower) + f.Apply(i.upper)) / 2.0;
  }
}
