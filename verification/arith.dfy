/** Small facts about multiplication and Euclidean division of naturals,
    stated once and used by the positional-notation and chunking proofs. */
module Arith {

  lemma MulMonotone(a: nat, c: nat, b: nat)
    requires a <= c
    ensures a * b <= c * b
  {
    var d := c - a;
    assert c * b == a * b + d * b;
  }

  /** Appending a digit `d` to a number below `p` gives a number below `b * p`. */
  lemma AppendDigitBound(v: nat, d: nat, p: nat, b: nat)
    requires v < p && d < b
    ensures v * b + d < b * p
  {
    MulMonotone(v + 1, p, b);
  }

  /** Division of `q * b + r` by `b` gives back `q` and `r`. */
  lemma DivModUnique(q: nat, r: nat, b: nat)
    requires r < b
    ensures (q * b + r) / b == q
    ensures (q * b + r) % b == r
  {
    var q' := (q * b + r) / b;
    if q' < q {
      MulMonotone(q' + 1, q, b);
    } else if q' > q {
      MulMonotone(q + 1, q', b);
    }
  }

  /** Euclidean division splits `n` into quotient and remainder. */
  lemma DivModSplit(n: nat, b: nat)
    requires b > 0
    ensures n == (n / b) * b + n % b
    ensures n % b < b
  {
  }

  /** Adding the divisor adds one to the quotient. */
  lemma DivStep(x: nat, n: nat)
    requires n > 0
    ensures (x + n) / n == x / n + 1
  {
    var q, r := x / n, x % n;
    assert x + n == (q + 1) * n + r;
    DivModUnique(q + 1, r, n);
  }

  /** The number of `n`-element pieces needed for `x` elements, one more when
      `n` more elements come. */
  lemma CeilStep(x: nat, n: nat)
    requires n > 0
    ensures (x + n + n - 1) / n == (x + n - 1) / n + 1
  {
    DivStep(x + n - 1, n);
  }

  lemma CeilOfShort(x: nat, n: nat)
    requires 0 < x <= n
    ensures (x + n - 1) / n == 1
  {
    DivModUnique(1, x - 1, n);
  }

  lemma ModStep(x: nat, n: nat)
    requires n > 0
    ensures (x + n) % n == x % n
  {
    var q, r := x / n, x % n;
    assert x + n == (q + 1) * n + r;
    DivModUnique(q + 1, r, n);
  }

  lemma ModOfShort(x: nat, n: nat)
    requires 0 < x < n
    ensures x % n != 0
  {
    DivModUnique(0, x, n);
  }

  lemma MulPred(i: nat, n: nat)
    requires i > 0
    ensures (i - 1) * n + n == i * n
  {
  }

  /** Adding less than the room left before the next multiple of `n` adds to
      the remainder. */
  lemma ModOfOffset(x: nat, n: nat, k: nat)
    requires n > 0 && x % n + k < n
    ensures (x + k) % n == x % n + k
  {
    var q, r := x / n, x % n;
    assert x + k == q * n + (r + k);
    DivModUnique(q, r + k, n);
  }

  /** Adding exactly the room left reaches the next multiple of `n`. */
  lemma ModFill(x: nat, n: nat)
    requires n > 0 && x % n > 0
    ensures (x + (n - x % n)) % n == 0
  {
    var q, r := x / n, x % n;
    assert x + (n - r) == (q + 1) * n + 0;
    DivModUnique(q + 1, 0, n);
  }

  /** For a multiple of `n`, rounding the quotient up changes nothing. */
  lemma CeilOfMultiple(x: nat, n: nat)
    requires n > 0 && x % n == 0
    ensures (x + n - 1) / n * n == x
  {
    var q := x / n;
    assert x == q * n;
    assert x + n - 1 == q * n + (n - 1);
    DivModUnique(q, n - 1, n);
  }
}
