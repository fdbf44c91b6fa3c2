/** Positional notation over unbounded naturals: the arithmetic that the PHP
    code performs with bcmath strings (base 10 and base 256 into base 900). */
module Radix {

  import opened Arith
  import opened Seqs

  function Pow(b: nat, e: nat): (r: nat)
    ensures b > 0 ==> r > 0
  {
    if e == 0 then 1 else b * Pow(b, e - 1)
  }

  lemma {:induction false} PowMonotone(b: nat, d: nat, e: nat)
    requires b > 0 && d <= e
    ensures Pow(b, d) <= Pow(b, e)
    decreases e
  {
    if d < e {
      PowMonotone(b, d, e - 1);
    }
  }

  /** Every element of `ds` is a digit of base `b`. */
  predicate IsDigits(ds: seq<nat>, b: nat) {
    forall i :: 0 <= i < |ds| ==> ds[i] < b
  }

  lemma DigitsAppend(a: seq<nat>, c: seq<nat>, b: nat)
    requires IsDigits(a, b) && IsDigits(c, b)
    ensures IsDigits(a + c, b)
  {
  }

  lemma DigitsWiden(ds: seq<nat>, b: nat, b': nat)
    requires IsDigits(ds, b) && b <= b'
    ensures IsDigits(ds, b')
  {
  }

  lemma {:induction false} FlattenDigits(ss: seq<seq<nat>>, b: nat)
    requires forall i :: 0 <= i < |ss| ==> IsDigits(ss[i], b)
    ensures IsDigits(Flatten(ss), b)
  {
    if |ss| > 0 {
      FlattenDigits(ss[1..], b);
    }
  }

  /** The number whose base-`b` digits, most significant first, are `ds`. */
  function Value(ds: seq<nat>, b: nat): nat {
    if |ds| == 0 then 0 else Value(ds[..|ds| - 1], b) * b + ds[|ds| - 1]
  }

  lemma ShiftStep(v: nat, p: nat, w: nat, b: nat)
    ensures (v * p + w) * b == v * (b * p) + w * b
  {
  }

  /** Dividing by `b` takes a number below `b^k` below `b^(k-1)`. */
  lemma DivBelowPow(n: nat, b: nat, k: nat)
    requires b >= 2 && k > 0 && n < Pow(b, k)
    ensures n / b < Pow(b, k - 1)
  {
    var q := n / b;
    if q >= Pow(b, k - 1) {
      MulMonotone(Pow(b, k - 1), q, b);
    }
  }

  /** Dividing by `b` takes a number of at least `b^(k-1)` to at least `b^(k-2)`. */
  lemma DivAbovePow(n: nat, b: nat, k: nat)
    requires b >= 2 && k > 1 && Pow(b, k - 1) <= n
    ensures Pow(b, k - 2) <= n / b
  {
    var q := n / b;
    if q < Pow(b, k - 2) {
      MulMonotone(q + 1, Pow(b, k - 2), b);
    }
  }

  /** The representation of `n` without leading zeros, built as the PHP loop
      `while ($n > 0) { array_unshift($ws, $n % b); $n = $n / b; }` does. */
  function Minimal(n: nat, b: nat): (r: seq<nat>)
    requires b >= 2
    ensures IsDigits(r, b)
    ensures Value(r, b) == n
    ensures |r| > 0 <==> n > 0
    ensures |r| > 0 ==> r[0] > 0
    decreases n
  {
    if n == 0 then
      []
    else
      var front := Minimal(n / b, b);
      DivModSplit(n, b);
      assert (front + [n % b])[..|front|] == front;
      front + [n % b]
  }

  /** The `k` least significant base-`b` digits of `n`, most significant
      first. */
  function Digits(n: nat, k: nat, b: nat): (r: seq<nat>)
    requires b >= 2
    ensures |r| == k
    ensures IsDigits(r, b)
  {
    if k == 0 then [] else Digits(n / b, k - 1, b) + [n % b]
  }

  /** `k` digits of base `b` have a value below `b^k`. */
  lemma {:induction false} ValueBound(ds: seq<nat>, b: nat)
    requires IsDigits(ds, b)
    ensures Value(ds, b) < Pow(b, |ds|)
    decreases |ds|
  {
    if |ds| > 0 {
      var init := ds[..|ds| - 1];
      ValueBound(init, b);
      AppendDigitBound(Value(init, b), ds[|ds| - 1], Pow(b, |init|), b);
    }
  }

  /** Value of a concatenation: the front digits are shifted by the length of
      the back ones. */
  lemma {:induction false} ValueConcat(a: seq<nat>, c: seq<nat>, b: nat)
    ensures Value(a + c, b) == Value(a, b) * Pow(b, |c|) + Value(c, b)
    decreases |c|
  {
    if |c| == 0 {
      assert a + c == a;
    } else {
      var c' := c[..|c| - 1];
      assert (a + c)[..|a + c| - 1] == a + c';
      ValueConcat(a, c', b);
      var v, p, w, d := Value(a, b), Pow(b, |c'|), Value(c', b), c[|c| - 1];
      assert c[..|c| - 1] == c';
      assert Value(a + c, b) == Value(a + c', b) * b + d;
      assert Value(c, b) == w * b + d;
      assert Pow(b, |c|) == b * p;
      ShiftStep(v, p, w, b);
    }
  }

  /** Fixed-width digits of a number that fits lose nothing. */
  lemma {:induction false} DigitsValue(n: nat, k: nat, b: nat)
    requires b >= 2 && n < Pow(b, k)
    ensures Value(Digits(n, k, b), b) == n
    decreases k
  {
    if k > 0 {
      var q, m := n / b, n % b;
      assert n == q * b + m;
      DivBelowPow(n, b, k);
      DigitsValue(q, k - 1, b);
      var r := Digits(n, k, b);
      assert r == Digits(q, k - 1, b) + [m];
      assert r[..k - 1] == Digits(q, k - 1, b);
      assert Value(r, b) == Value(Digits(q, k - 1, b), b) * b + m;
    }
  }

  /** Fixed-width digits of the value of a digit sequence give it back. */
  lemma {:induction false} ValueDigits(ds: seq<nat>, b: nat)
    requires b >= 2 && IsDigits(ds, b)
    ensures Digits(Value(ds, b), |ds|, b) == ds
    decreases |ds|
  {
    if |ds| > 0 {
      var init := ds[..|ds| - 1];
      DivModUnique(Value(init, b), ds[|ds| - 1], b);
      ValueDigits(init, b);
      assert ds == init + [ds[|ds| - 1]];
    }
  }

  /** A non-empty digit sequence without leading zero has a positive value. */
  lemma {:induction false} ValuePositive(ds: seq<nat>, b: nat)
    requires b >= 2 && |ds| > 0 && ds[0] > 0
    ensures Value(ds, b) > 0
    decreases |ds|
  {
    if |ds| > 1 {
      var init := ds[..|ds| - 1];
      ValuePositive(init, b);
      MulMonotone(1, Value(init, b), b);
    }
  }

  /** The representation without leading zeros is unique. */
  lemma {:induction false} MinimalUnique(ds: seq<nat>, b: nat)
    requires b >= 2 && IsDigits(ds, b)
    requires |ds| > 0 ==> ds[0] > 0
    ensures Minimal(Value(ds, b), b) == ds
    decreases |ds|
  {
    if |ds| > 0 {
      var init, d := ds[..|ds| - 1], ds[|ds| - 1];
      var n := Value(ds, b);
      ValuePositive(ds, b);
      DivModUnique(Value(init, b), d, b);
      assert n / b == Value(init, b) && n % b == d;
      MinimalUnique(init, b);
      assert Minimal(n, b) == Minimal(n / b, b) + [n % b];
      assert ds == init + [d];
    }
  }

  /** A number below `b^k` needs at most `k` digits. */
  lemma {:induction false} MinimalShort(n: nat, b: nat, k: nat)
    requires b >= 2 && n < Pow(b, k)
    ensures |Minimal(n, b)| <= k
    decreases k
  {
    if n > 0 {
      DivBelowPow(n, b, k);
      MinimalShort(n / b, b, k - 1);
    }
  }

  /** A number of at least `b^(k-1)` needs at least `k` digits. */
  lemma {:induction false} MinimalLong(n: nat, b: nat, k: nat)
    requires b >= 2 && k > 0 && Pow(b, k - 1) <= n
    ensures |Minimal(n, b)| >= k
    decreases k
  {
    if k > 1 {
      DivAbovePow(n, b, k);
      MinimalLong(n / b, b, k - 1);
    }
  }
}
