/** `Interval`: a range of ray parameters or colour intensities, `[min, max]`.
    It is a value: nothing changes it after construction. */
module Intervals {
  import opened Utils

  datatype Interval = Interval(min: real, max: real)
  {
    /** `size()` */
    function Size(): real
    {
      max - min
    }

    /** `contains(x)`: closed membership. */
    predicate Contains(x: real)
    {
      min <= x && x <= max
    }

    /** `surrounds(x)`: open membership. */
    predicate Surrounds(x: real)
    {
      min < x && x < max
    }

    /** `clamp(x)`, used by the colour code but not defined with the interval:
        taken to be `min(max(x, min), max)`. */
    function Clamp(x: real): (r: real)
      ensures min <= max ==> Contains(r)
      ensures Contains(x) ==> r == x
      ensures x < min && min <= max ==> r == min
      ensures max < x ==> r == max
    {
      var lower := if x < min then min else x;
      if max < lower then max else lower
    }
  }

  /** The default-constructed interval, `Interval()`: `[+infinity, -infinity]`. */
  const Default: Interval := Interval(DblMax, -DblMax)

  /** `Interval::empty` */
  const Empty: Interval := Interval(DblMax, -DblMax)

  /** `Interval::universe` */
  const Universe: Interval := Interval(-DblMax, DblMax)

  /** Open membership implies closed membership, and no interval surrounds its own endpoints. */
  lemma SurroundsImpliesContains(i: Interval, x: real)
    ensures i.Surrounds(x) ==> i.Contains(x)
    ensures !i.Surrounds(i.min) && !i.Surrounds(i.max)
  {
  }

  /** Neither the default interval nor `empty` contains any value, and both have negative size. */
  lemma EmptyContainsNothing(x: real)
    ensures !Default.Contains(x) && !Empty.Contains(x)
    ensures !Default.Surrounds(x) && !Empty.Surrounds(x)
    ensures Default.Size() < 0.0 && Empty.Size() < 0.0
  {
  }

  /** `universe` contains every value a double can hold. */
  lemma UniverseContainsAllDoubles(x: real)
    requires -DblMax <= x <= DblMax
    ensures Universe.Contains(x)
    ensures 0.0 < Universe.Size()
  {
  }

  /** Clamping is monotone. */
  lemma ClampMonotone(i: Interval, x: real, y: real)
    requires x <= y
    ensures i.Clamp(x) <= i.Clamp(y)
  {
  }

  /** Clamping twice is clamping once, for every interval, empty ones included. */
  lemma ClampIdempotent(i: Interval, x: real)
    ensures i.Clamp(i.Clamp(x)) == i.Clamp(x)
  {
  }
}
