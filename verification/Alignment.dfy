// Multiples and quotients of a power-of-two granularity, without bit tricks.

module Alignment {

  lemma MulMono(a: nat, b: nat, g: nat)
    requires a <= b
    ensures a * g <= b * g
  {
  }

  lemma FewerMultiples(p: nat, q: nat, g: nat)
    requires p < q
    ensures p * g + g <= q * g
  {
    MulMono(p + 1, q, g);
  }

  // The quotient is the one that leaves a remainder below the divisor.
  lemma DivUnique(n: nat, g: nat, q: nat)
    requires g > 0 && q * g <= n < q * g + g
    ensures n / g == q && n % g == n - q * g
  {
    var p := n / g;
    assert n == p * g + n % g;
    if p < q {
      FewerMultiples(p, q, g);
    } else if q < p {
      FewerMultiples(q, p, g);
    }
  }

  lemma ModAdd(k: nat, n: nat, g: nat)
    requires g > 0
    ensures (k * g + n) % g == n % g && (k * g + n) / g == k + n / g
  {
    var q := n / g;
    assert n == q * g + n % g;
    assert (k + q) * g == k * g + q * g;
    DivUnique(k * g + n, g, k + q);
  }

  lemma Regroup(p: nat, x: nat, a: nat, b: nat)
    ensures (p * b + x) * a == p * (a * b) + x * a
  {
    assert (p * b + x) * a == (p * b) * a + x * a;
    assert (p * b) * a == p * (b * a);
  }

  lemma NestedRemainder(p: nat, x: nat, r: nat, a: nat, b: nat, c: nat)
    requires x < b && r < a && c == a * b
    ensures (p * b + x) * a + r == p * c + (x * a + r) && x * a + r < c
  {
    Regroup(p, x, a, b);
    FewerMultiples(x, b, a);
  }

  lemma QuotientOfQuotient(n: nat, a: nat, b: nat, c: nat, q: nat, p: nat)
    requires c > 0 && c == a * b && q * a <= n < q * a + a && p * b <= q < p * b + b
    ensures n / c == p
  {
    NestedRemainder(p, q - p * b, n - q * a, a, b, c);
    DivUnique(n, c, p);
  }

  lemma Euclid(n: nat, g: nat)
    requires g > 0
    ensures (n / g) * g <= n < (n / g) * g + g
  {
  }

  // The multiple at or below a number.
  lemma StartOfMultiple(n: nat, g: nat)
    requires g > 0
    ensures var start := n - n % g; 0 <= start <= n < start + g && start % g == 0 && start / g == n / g
    ensures n < g ==> n - n % g == 0
  {
    Euclid(n, g);
    ModAdd(n / g, 0, g);
    assert n - n % g == (n / g) * g;
  }

  // Dividing twice is dividing by the product.
  lemma DivDiv(n: nat, a: nat, b: nat, c: nat, q: nat)
    requires a > 0 && b > 0 && c > 0 && c == a * b && q == n / a
    ensures n / c == q / b
  {
    Euclid(n, a);
    Euclid(q, b);
    QuotientOfQuotient(n, a, b, c, q, q / b);
  }

  // The next multiple of `g` after `n`.
  lemma NextMultiple(n: nat, g: nat)
    requires g > 0
    ensures n < (n / g + 1) * g <= n + g
    ensures ((n / g + 1) * g) % g == 0
    ensures n % g == 0 ==> (n / g + 1) * g == n + g
  {
    var q := n / g;
    assert n == q * g + n % g;
    assert (q + 1) * g == q * g + g;
    ModAdd(q + 1, 0, g);
  }

  // No multiple of `g` lies between.
  lemma NoMultipleBetween(n: nat, g: nat, b: nat)
    requires g > 0 && n < b && b % g == 0
    ensures (n / g + 1) * g <= b
  {
    var q, k := n / g, b / g;
    assert n == q * g + n % g;
    assert b == k * g;
    if k <= q {
      MulMono(k, q, g);
    } else {
      MulMono(q + 1, k, g);
    }
  }

  // Halving a number and its granularity.
  lemma HalfAligned(n: nat, g: nat, gg: nat)
    requires g > 0 && gg == g + g
    ensures n % gg == 0 <==> n % 2 == 0 && (n / 2) % g == 0
  {
    var m := n / 2;
    var q, r := m / g, m % g;
    assert m == q * g + r;
    assert q * gg == q * g + q * g;
    DivUnique(n, gg, q);
  }
}
