/** `lil::Interval<T>` over integers: an inclusive range `[min, max]`, and the
    free `minimum`/`maximum` helpers the rest of the library uses for index
    arithmetic. */
module Intervals {

  /** `minimum(lhs, rhs)`: the lesser value; `rhs` on a tie. */
  function Minimum(lhs: int, rhs: int): (r: int)
    ensures r <= lhs && r <= rhs
    ensures r == lhs || r == rhs
    ensures lhs == rhs ==> r == rhs
  {
    if lhs < rhs then lhs else rhs
  }

  /** `maximum(lhs, rhs)`: the greater value; `rhs` on a tie. */
  function Maximum(lhs: int, rhs: int): (r: int)
    ensures r >= lhs && r >= rhs
    ensures r == lhs || r == rhs
    ensures lhs == rhs ==> r == rhs
  {
    if lhs > rhs then lhs else rhs
  }

  /** C++ integer division by 2, which truncates toward zero (Dafny's `/` is
      Euclidean). */
  function HalfTowardZero(x: int): (h: int)
    ensures x >= 0 ==> 0 <= x - 2 * h <= 1
    ensures x < 0 ==> -1 <= x - 2 * h <= 0
  {
    if x >= 0 then x / 2 else -((-x) / 2)
  }

  /** The fields are public in the source, so a value need not be ordered;
      `Make` is the constructor that orders its arguments. */
  datatype Interval = Interval(min: int, max: int)
  {
    predicate Ordered()
    {
      min <= max
    }

    /** `clip(value)`: `value` if it lies in the range, else the nearer bound. */
    function Clip(value: int): (r: int)
      ensures r <= max
      ensures Ordered() ==> min <= r
      ensures Ordered() && min <= value <= max ==> r == value
      ensures Ordered() && value < min ==> r == min
      ensures value > max ==> r == max
    {
      Minimum(max, Maximum(min, value))
    }

    /** `inRange(value)`: `clip(value) == value`. On an unordered value only
        `max` itself passes. */
    function InRange(value: int): (r: bool)
      ensures Ordered() ==> (r <==> min <= value <= max)
      ensures !Ordered() ==> (r <==> value == max)
    {
      Clip(value) == value
    }

    /** `deadband(value, deadband)`: the deadband value inside the range,
        `value` itself outside it. */
    function Deadband(value: int, deadband: int): (r: int)
      ensures Ordered() && min <= value <= max ==> r == deadband
      ensures Ordered() && !(min <= value <= max) ==> r == value
      ensures !Ordered() ==> r == if value == max then deadband else value
    {
      var adjusted := if InRange(value) then deadband else value;
      adjusted
    }

    /** `mid()`: `(min + max) / 2`, rounded toward zero. */
    function Mid(): (r: int)
      ensures Ordered() ==> min <= r <= max
      ensures min + max >= 0 ==> 0 <= min + max - 2 * r <= 1
      ensures min + max < 0 ==> -1 <= min + max - 2 * r <= 0
    {
      HalfTowardZero(min + max)
    }

    /** `deadband(value)`: the deadband value is the midpoint. */
    function DeadbandMid(value: int): (r: int)
      ensures Ordered() && min <= value <= max ==> r == Mid() && min <= r <= max
      ensures Ordered() && !(min <= value <= max) ==> r == value
      ensures !Ordered() ==> r == if value == max then Mid() else value
    {
      Deadband(value, Mid())
    }

    /** `length()`: `min + length() == max`. */
    function Length(): (r: int)
      ensures min + r == max
      ensures Ordered() <==> r >= 0
    {
      max - min
    }

    /** `operator==`: both bounds agree. */
    function Equals(other: Interval): (r: bool)
      ensures r <==> this == other
    {
      min == other.min && max == other.max
    }

    /** `operator!=`: the negation of `operator==`. */
    function NotEquals(other: Interval): (r: bool)
      ensures r <==> this != other
    {
      !Equals(other)
    }
  }

  /** The default constructor: the single value of a default-constructed `T`. */
  function Default(): (r: Interval)
    ensures r.Ordered() && r.Length() == 0 && r.InRange(0)
  {
    Interval(0, 0)
  }

  /** `Interval(min, max)`: orders the two arguments. */
  function Make(a: int, b: int): (r: Interval)
    ensures r.Ordered()
    ensures multiset{r.min, r.max} == multiset{a, b}
  {
    Interval(Minimum(a, b), Maximum(a, b))
  }

  /** `intersect(lhs, rhs)`: from the larger lower bound to the smaller upper
      bound, reordered; disjoint operands give the span between them. */
  function Intersect(lhs: Interval, rhs: Interval): (r: Interval)
    ensures r.Ordered()
    ensures var lo, hi := Maximum(lhs.min, rhs.min), Minimum(lhs.max, rhs.max);
      if lo <= hi then r == Interval(lo, hi) else r == Interval(hi, lo)
  {
    Make(Maximum(lhs.min, rhs.min), Minimum(lhs.max, rhs.max))
  }

  /** `uunion(lhs, rhs)`: from the smaller lower bound to the larger upper
      bound. */
  function Union(lhs: Interval, rhs: Interval): (r: Interval)
    ensures r.Ordered()
    ensures lhs.Ordered() && rhs.Ordered() ==> r.min == Minimum(lhs.min, rhs.min) && r.max == Maximum(lhs.max, rhs.max)
  {
    Make(Minimum(lhs.min, rhs.min), Maximum(lhs.max, rhs.max))
  }

  /** Overlapping operands: the intersection holds exactly the values both
      hold. */
  lemma IntersectIsMeet(lhs: Interval, rhs: Interval, v: int)
    requires lhs.Ordered() && rhs.Ordered()
    requires Maximum(lhs.min, rhs.min) <= Minimum(lhs.max, rhs.max)
    ensures Intersect(lhs, rhs).InRange(v) <==> lhs.InRange(v) && rhs.InRange(v)
  {
  }

  /** Disjoint operands: the intersection spans the two inner boundaries,
      as in `([1, 2], [3, 4]) -> [2, 3]`, in either order. */
  lemma IntersectOfDisjoint(lhs: Interval, rhs: Interval)
    requires lhs.Ordered() && rhs.Ordered()
    requires lhs.max < rhs.min || rhs.max < lhs.min
    ensures lhs.max < rhs.min ==> Intersect(lhs, rhs) == Interval(lhs.max, rhs.min)
    ensures rhs.max < lhs.min ==> Intersect(lhs, rhs) == Interval(rhs.max, lhs.min)
  {
  }

  /** The union holds every value either operand holds. */
  lemma UnionContains(lhs: Interval, rhs: Interval, v: int)
    requires lhs.Ordered() && rhs.Ordered()
    requires lhs.InRange(v) || rhs.InRange(v)
    ensures Union(lhs, rhs).InRange(v)
  {
  }

  /** A clipped value is in range, and clipping twice changes nothing. */
  lemma ClipIdempotent(i: Interval, v: int)
    requires i.Ordered()
    ensures i.InRange(i.Clip(v))
    ensures i.Clip(i.Clip(v)) == i.Clip(v)
  {
  }
}
