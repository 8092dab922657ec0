/** Periods of an iterated step. */
module Periods {
  import opened Folds

  /** After `n` steps the register is back where it was. */
  ghost predicate Period<A(!new)>(next: A -> A, a: A, n: nat) {
    Iterate(next, a, n) == a
  }

  lemma {:induction false} PeriodMultiple<A(!new)>(next: A -> A, a: A, n: nat, k: nat)
    requires Period(next, a, n)
    ensures Period(next, a, n * k)
    decreases k
  {
    if k > 0 {
      PeriodMultiple(next, a, n, k - 1);
      assert n * k == n + n * (k - 1);
      IterateAdd(next, a, n, n * (k - 1));
    }
  }

  lemma PeriodRemainder<A(!new)>(next: A -> A, a: A, n: nat, p: nat)
    requires p > 0 && Period(next, a, p) && Period(next, a, n)
    ensures Period(next, a, n % p)
  {
    PeriodMultiple(next, a, p, n / p);
    assert n == p * (n / p) + n % p;
    IterateAdd(next, a, p * (n / p), n % p);
  }

  /** Two periods have a common divisor that is a period. */
  lemma {:induction false} PeriodDivisor<A(!new)>(next: A -> A, a: A, m: nat, n: nat) returns (g: nat, i: nat, j: nat)
    requires m > 0 && n > 0 && Period(next, a, m) && Period(next, a, n)
    ensures g > 0 && Period(next, a, g) && m == g * i && n == g * j
    decreases m
  {
    var r := n % m;
    PeriodRemainder(next, a, n, m);
    if r == 0 {
      g, i, j := m, 1, n / m;
    } else {
      var h, k;
      g, h, k := PeriodDivisor(next, a, r, m);
      i, j := k, k * (n / m) + h;
      assert n == m * (n / m) + r;
      assert g * k * (n / m) == g * (k * (n / m)) && g * (k * (n / m) + h) == g * (k * (n / m)) + g * h;
    }
  }
}
