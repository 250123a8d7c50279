/** Division by a number that is not fixed, and the larger of two numbers. */
module Arithmetic {
  function Max(a: int, b: int): int {
    if a >= b then a else b
  }

  function Times(n: nat, m: nat): nat {
    if n == 0 then 0 else Times(n - 1, m) + m
  }

  lemma {:induction false} TimesIs(n: nat, m: nat)
    ensures Times(n, m) == n * m
  {
    if n > 0 {
      TimesIs(n - 1, m);
    }
  }

  lemma {:induction false} TimesApart(p: nat, q: nat, m: nat)
    requires q < p
    ensures Times(q, m) + m <= Times(p, m)
  {
    if q + 1 < p {
      TimesApart(p - 1, q, m);
    }
  }

  lemma Divided(a: nat, m: nat)
    requires m >= 1
    ensures a == Times(a / m, m) + a % m
  {
    TimesIs(a / m, m);
  }

  lemma QuotientIs(a: nat, q: nat, m: nat)
    requires m >= 1 && Times(q, m) <= a < Times(q, m) + m
    ensures a / m == q && a % m == a - Times(q, m)
  {
    var p := a / m;
    Divided(a, m);
    if p < q {
      TimesApart(q, p, m);
    } else if q < p {
      TimesApart(p, q, m);
    }
  }

  lemma {:induction false} TimesScaled(n: nat, m: nat, f: nat)
    ensures Times(n, f * m) == f * Times(n, m)
  {
    if n > 0 {
      TimesScaled(n - 1, m, f);
      assert f * (Times(n - 1, m) + m) == f * Times(n - 1, m) + f * m;
    }
  }

  /** Dividing twice is dividing by the product. */
  lemma {:induction false} DividedTwice(n: nat, m: nat)
    requires m >= 1
    ensures n / 256 / m == n / (256 * m)
  {
    var a := n / 256 / m;
    Divided(n / 256, m);
    TimesScaled(a, m, 256);
    QuotientIs(n, a, 256 * m);
  }
}
