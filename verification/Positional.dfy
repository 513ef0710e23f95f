/** Numbers in positional notation: powers of a base, and which digit stands where. */
module Positional {

  function Power(b: nat, k: nat): (p: nat)
    ensures b > 0 ==> p > 0
  {
    if k == 0 then 1 else b * Power(b, k - 1)
  }

  lemma {:induction false} PowerMonotone(b: nat, j: nat, k: nat)
    requires b > 0 && j <= k
    ensures Power(b, j) <= Power(b, k)
  {
    if j < k {
      PowerMonotone(b, j, k - 1);
      TimesAtLeast(b, Power(b, k - 1));
    }
  }

  lemma TimesAtLeast(b: nat, p: nat)
    requires b > 0
    ensures b * p >= p
  {
    assert b * p == p + (b - 1) * p;
  }

  /** A quotient is fixed by its remainder's bounds. */
  lemma QuotientUnique(n: nat, q: nat, p: nat)
    requires p > 0 && q * p <= n < (q + 1) * p
    ensures n / p == q
  {
    var d := n / p;
    if d < q {
      TimesMonotone(d + 1, q, p);
    } else if d > q {
      TimesMonotone(q + 1, d, p);
    }
  }

  lemma TimesMonotone(a: nat, b: nat, p: nat)
    requires a <= b
    ensures a * p <= b * p
  {
    assert b * p == a * p + (b - a) * p;
  }

  lemma Distribute(b: nat, x: nat, y: nat)
    ensures b * (x + y) == b * x + b * y
  {
  }

  lemma Reorder(q: nat, b: nat, p: nat)
    ensures q * (b * p) == b * (q * p)
  {
  }

  lemma BetweenMultiples(b: nat, p: nat, q: nat, t: nat, r: nat)
    requires r < b && t < p
    ensures q * (b * p) <= b * (q * p + t) + r < (q + 1) * (b * p)
  {
    Distribute(b, q * p, t);
    Reorder(q, b, p);
    var rest := p - 1 - t;
    Distribute(b, t, rest);
    Distribute(b, p - 1, 1);
    Distribute(b * p, q, 1);
  }

  lemma Divided(n: nat, d: nat) returns (q: nat, r: nat)
    requires d > 0
    ensures q == n / d && r < d && n == d * q + r
  {
    q, r := n / d, n % d;
  }

  /** Dividing by b * p is dividing by b and then by p. */
  lemma DivideTwice(n: nat, b: nat, p: nat)
    requires b > 0 && p > 0 && b * p > 0
    ensures n / (b * p) == n / b / p
  {
    var m, r := Divided(n, b);
    var q, t := Divided(m, p);
    Between(n, b, p, m, q, t, r);
    QuotientUnique(n, q, b * p);
  }

  lemma Between(n: nat, b: nat, p: nat, m: nat, q: nat, t: nat, r: nat)
    requires n == b * m + r && m == p * q + t && r < b && t < p
    ensures q * (b * p) <= n < (q + 1) * (b * p)
  {
    assert p * q == q * p;
    BetweenMultiples(b, p, q, t, r);
  }

  /** The digit of weight b^(j + 1) in n is the digit of weight b^j in n / b. */
  lemma HigherDigit(n: nat, b: nat, j: nat)
    requires b > 0
    ensures n / Power(b, j + 1) == n / b / Power(b, j)
  {
    DivideTwice(n, b, Power(b, j));
  }

  lemma OnesDigit(n: nat, b: nat)
    requires b > 0
    ensures n / Power(b, 0) % b == n % b
  {
    assert n / 1 == n;
  }
}
