/** Closed real intervals [start, end], the older interval type
    (include/real_interval.h). */
module RealIntervals {

  datatype RealInterval = RealInterval(start: real, end: real) {

    /** `length()`: end - start. */
    function Length(): real {
      end - start
    }

    /** `is_empty()`: start > end. */
    predicate IsEmpty() {
      start > end
    }

    predicate Contains(x: real) {
      start <= x <= end
    }
  }

  /** `bisect()`: [start, m] and [m, end] for the midpoint m. */
  function Bisect(i: RealInterval): (halves: (RealInterval, RealInterval))
    ensures halves.0.start == i.start && halves.1.end == i.end
    ensures halves.0.end == halves.1.start == (i.start + i.end) / 2.0
  {
    var m := (i.start + i.end) / 2.0;
    (RealInterval(i.start, m), RealInterval(m, i.end))
  }

  /** Each half has half the length, the halves cover the interval and
      share only the midpoint, and a non-empty interval has non-empty halves. */
  lemma BisectHalves(i: RealInterval, x: real)
    ensures var (h1, h2) := Bisect(i);
            h1.Length() == h2.Length() == i.Length() / 2.0 &&
            (i.Contains(x) <==> h1.Contains(x) || h2.Contains(x)) &&
            (h1.Contains(x) && h2.Contains(x) ==> x == (i.start + i.end) / 2.0) &&
            (!i.IsEmpty() ==> !h1.IsEmpty() && !h2.IsEmpty())
  {
  }

  /** The empty interval contains no point, a non-empty one its start. */
  lemma EmptyIffNoPoint(i: RealInterval)
    ensures i.IsEmpty() <==> !i.Contains(i.start)
    ensures i.IsEmpty() ==> forall x :: !i.Contains(x)
  {
  }
}
