/**
 Minimum, maximum, and laws of multiplication that the solver is given one at a time.
 */
module Arithmetic {

  function Min(a: int, b: int): int {
    if a < b then a else b
  }

  function Max(a: int, b: int): int {
    if a < b then b else a
  }

  lemma {:induction false} Commute(a: int, b: int)
    ensures a * b == b * a
  {
  }

  lemma {:induction false} Distribute(a: int, b: int, c: int)
    ensures a * (b + c) == a * b + a * c && (b + c) * a == a * b + a * c
  {
  }

  lemma {:induction false} Difference(a: int, b: int, c: int)
    ensures a * c - b * c == (a - b) * c
  {
  }

  lemma {:induction false} Successor(a: int, b: int)
    ensures (a + 1) * b == a * b + b
  {
  }

  lemma {:induction false} Regroup(a: int, b: int)
    ensures a * (a * b) == (a * a) * b
  {
  }

  lemma {:induction false} Shuffle(t: int, b: int, c: int)
    ensures t * (b * c) == (b * t) * c
  {
  }

  lemma {:induction false} Negated(a: int, b: int)
    ensures a * (-b) == -(a * b) && (-a) * b == -(a * b)
  {
  }

  lemma {:induction false} NotNegative(a: int, b: int)
    requires a >= 0 && b >= 0
    ensures a * b >= 0
  {
  }

  /** Division by a positive number is monotone. */
  lemma {:induction false} DivMonotone(a: nat, b: nat, d: int)
    requires a <= b && d >= 1
    ensures a / d <= b / d
  {
    var p, q := a / d, b / d;
    assert a == d * p + a % d && b == d * q + b % d;
    Monotone(d, p, q, a % d, b % d);
  }

  lemma {:induction false} Monotone(d: int, p: int, q: int, r: int, t: int)
    requires 0 <= r < d && 0 <= t < d && d * p + r <= d * q + t
    ensures p <= q
  {
    if p > q {
      Distribute(d, q, p - q);
      AtLeast(d, p - q);
    }
  }

  lemma {:induction false} AtLeast(a: int, b: int)
    requires a >= 1 && b >= 1
    ensures a * b >= a && a * b >= b
  {
  }
}
