/** Products and floors of reals, each in a lemma of its own so that larger proofs stay linear. */
module Numbers {

  /** A product under a name, which proofs can hide. */
  function Times(a: real, b: real): real {
    a * b
  }

  lemma ProductAsReal(a: int, b: int)
    ensures (a * b) as real == a as real * b as real
  {}

  lemma SignOfProduct(x: real, y: real)
    ensures (x >= 0.0 && y >= 0.0) || (x <= 0.0 && y <= 0.0) ==> x * y >= 0.0
    ensures (x <= 0.0 && y >= 0.0) || (x >= 0.0 && y <= 0.0) ==> x * y <= 0.0
    ensures x < 0.0 && y > 0.0 ==> x * y < 0.0
    ensures x < 0.0 && y < 0.0 ==> x * y > 0.0
  {}

  lemma TimesMonotone(a: real, b: real, w: real)
    requires w > 0.0
    ensures a <= b ==> Times(a, w) <= Times(b, w)
    ensures a < b ==> Times(a, w) < Times(b, w)
  {
    assert b * w - a * w == (b - a) * w;
  }

  lemma FloorTimes(x: real, w: real)
    requires w > 0.0
    ensures Times(x.Floor as real, w) <= Times(x, w) < Times((x.Floor + 1) as real, w)
  {
    hide Times;
    TimesMonotone(x.Floor as real, x, w);
    TimesMonotone(x, (x.Floor + 1) as real, w);
  }

  lemma WholeTimes(a: int, b: int)
    ensures Times(a as real, b as real) == (a * b) as real
  {
    ProductAsReal(a, b);
  }

  /** The floor of a quotient of whole numbers. */
  lemma FloorQuotient(x: real, n: int, d: nat)
    requires d > 0 && Times(x, d as real) == n as real
    ensures x.Floor * d <= n < (x.Floor + 1) * d
  {
    hide Times;
    FloorTimes(x, d as real);
    WholeTimes(x.Floor, d);
    WholeTimes(x.Floor + 1, d);
  }
}
