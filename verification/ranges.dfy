/** Range helpers over totally ordered numbers: a two-sided clamp and an inclusive
    range test. The float and double overloads of the clamp behave alike, so both
    are modelled by one function over `real`; NaN has no counterpart here. */
module Ranges {

  /** `Math.Min`. */
  function Min(a: real, b: real): real
  {
    if a <= b then a else b
  }

  /** `Math.Max`. */
  function Max(a: real, b: real): real
  {
    if a >= b then a else b
  }

  /** Pulls `number` into `[min, max]`: the number itself when inside, otherwise the bound it overshot. */
  function Clamp(number: real, min: real, max: real): (r: real)
    ensures min <= max ==> min <= r <= max
    ensures min <= number <= max ==> r == number
    ensures number < min ==> r == min
    ensures min <= max && max < number ==> r == max
  {
    Max(min, Min(max, number))
  }

  /** Inclusive range test: a number lies in a range exactly when clamping to it leaves the number as it is. */
  function Contains(number: real, rangeMin: real, rangeMax: real): (b: bool)
    ensures b <==> rangeMin <= rangeMax && Clamp(number, rangeMin, rangeMax) == number
    ensures rangeMax < rangeMin ==> !b
  {
    number >= rangeMin && number <= rangeMax
  }

  // ---------------------------------------------------------------------------
  // Properties

  /** A clamped value is always inside its (well-formed) range. */
  lemma ClampIsContained(number: real, min: real, max: real)
    requires min <= max
    ensures Contains(Clamp(number, min, max), min, max)
  {
  }

  /** Clamping twice changes nothing more than clamping once. */
  lemma ClampIdempotent(number: real, min: real, max: real)
    requires min <= max
    ensures Clamp(Clamp(number, min, max), min, max) == Clamp(number, min, max)
  {
  }

  /** Clamping keeps the order of its inputs. */
  lemma ClampMonotone(a: real, b: real, min: real, max: real)
    requires min <= max && a <= b
    ensures Clamp(a, min, max) <= Clamp(b, min, max)
  {
  }

  /** The range test is inclusive at both ends. */
  lemma ContainsBounds(min: real, max: real)
    requires min <= max
    ensures Contains(min, min, max) && Contains(max, min, max)
  {
  }
}
