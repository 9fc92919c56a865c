/**
 The greatest common divisor and the approximation of fractions of kernel/linux_func.c.
 */
module Rational {

  const WORD := 0x1_0000_0000_0000_0000   // one more than the largest unsigned long

  ghost predicate Divides(d: nat, x: nat) {
    exists k: nat {:trigger d * k} :: x == d * k
  }

  // `g` is the greatest common divisor in the order of divisibility.
  ghost predicate IsGcd(g: nat, a: nat, b: nat) {
    Divides(g, a) && Divides(g, b)
      && forall d: nat {:trigger Divides(d, g)} :: Divides(d, a) && Divides(d, b) ==> Divides(d, g)
  }

  lemma DividesZero(d: nat)
    ensures Divides(d, 0) && Divides(d, d) && Divides(1, d)
  {
    assert 0 == d * 0 && d == d * 1 && d == 1 * d;
  }

  // A divisor of two of dividend, divisor times quotient, and remainder divides the third.
  lemma DividesSum(d: nat, x: nat, y: nat, q: nat)
    requires Divides(d, x)
    ensures Divides(d, y) ==> Divides(d, q * x + y)
    ensures Divides(d, q * x + y) ==> Divides(d, y)
  {
    var k: nat :| x == d * k;
    if Divides(d, y) {
      var m: nat :| y == d * m;
      assert q * x + y == d * (q * k + m) by {
        Distribute(d, q * k, m);
        Associate(q, d, k);
      }
    }
    if Divides(d, q * x + y) {
      var m: nat :| q * x + y == d * m;
      Associate(q, d, k);
      Distribute(d, m - q * k, q * k);
      if m < q * k {
        assert d * (m - q * k) == y;
        NonPositive(d, m - q * k);
        assert y == 0;
        DividesZero(d);
      } else {
        assert y == d * (m - q * k);
      }
    }
  }

  lemma Distribute(d: int, x: int, y: int)
    ensures d * (x + y) == d * x + d * y
  {
  }

  lemma Associate(q: int, d: int, k: int)
    ensures q * (d * k) == d * (q * k)
  {
  }

  lemma NonPositive(d: nat, x: int)
    requires x < 0
    ensures d * x <= 0
  {
  }

  lemma GcdStep(g: nat, a: nat, b: nat)
    requires b > 0 && IsGcd(g, b, a % b)
    ensures IsGcd(g, a, b)
  {
    assert a == (a / b) * b + a % b;
    DividesSum(g, b, a % b, a / b);
    forall d: nat | Divides(d, a) && Divides(d, b) ensures Divides(d, g) {
      DividesSum(d, b, a % b, a / b);
    }
  }

  // Lines 3331-3345. The answer for 0 and 0 is 0.
  method Gcd(x: nat, y: nat) returns (g: nat)
    ensures IsGcd(g, x, y)
  {
    hide Divides, IsGcd;
    var a, b := x, y;
    if a < b {
      a, b := b, a;
    }
    GcdSwap(x, y);
    if b == 0 {
      GcdZero(a);
      return a;
    }
    var r := a % b;
    while r != 0
      invariant b > 0 && r == a % b
      invariant forall h: nat {:trigger IsGcd(h, a, b)} :: IsGcd(h, a, b) ==> IsGcd(h, x, y)
      decreases r
    {
      ghost var a0, b0 := a, b;
      forall h: nat {:trigger IsGcd(h, b0, r)} | IsGcd(h, b0, r) ensures IsGcd(h, x, y) {
        GcdStep(h, a0, b0);
      }
      a := b;
      b := r;
      r := a % b;
    }
    GcdZero(b);
    GcdStep(b, a, b);
    g := b;
  }

  lemma GcdSwap(x: nat, y: nat)
    ensures forall g: nat {:trigger IsGcd(g, y, x)} :: IsGcd(g, y, x) ==> IsGcd(g, x, y)
  {
  }

  lemma GcdZero(a: nat)
    ensures IsGcd(a, a, 0)
  {
    DividesZero(a);
  }

  // The continued fraction of num/den, as far as it has been taken.
  ghost predicate Expansion(num: nat, den: nat, n: nat, d: nat, n0: nat, d0: nat, n1: nat, d1: nat) {
    && num == n1 * n + n0 * d && den == d1 * n + d0 * d
    && (n0 * d1 - d0 * n1 == 1 || n0 * d1 - d0 * n1 == -1)
  }

  // The next numerator or denominator.
  function Term(x: nat, a: nat, y: nat): nat {
    x + a * y
  }

  lemma ExpansionStep(num: nat, den: nat, n: nat, d: nat, n0: nat, d0: nat, n1: nat, d1: nat)
    requires Expansion(num, den, n, d, n0, d0, n1, d1) && d > 0
    ensures Expansion(num, den, d, n % d, n1, d1, Term(n0, n / d, n1), Term(d0, n / d, d1))
    ensures Term(n0, n / d, n1) <= num && Term(d0, n / d, d1) <= den
  {
    Combine(num, n, d, n0, n1);
    Combine(den, n, d, d0, d1);
    Cross(n0, d0, n1, d1, n / d);
  }

  lemma Combine(x: nat, n: nat, d: nat, v: nat, u: nat)
    requires d > 0 && x == u * n + v * d
    ensures x == Term(v, n / d, u) * d + u * (n % d) && Term(v, n / d, u) <= x
  {
    var a, r := n / d, n % d;
    assert n == a * d + r;
    Regroup(u, a, d, r, v);
    AtMost(Term(v, a, u), d, u * r);
  }

  lemma Regroup(u: int, a: int, d: int, r: int, v: int)
    ensures u * (a * d + r) + v * d == (v + a * u) * d + u * r
  {
  }

  lemma Cross(n0: int, d0: int, n1: int, d1: int, a: int)
    ensures n1 * (d0 + a * d1) - d1 * (n0 + a * n1) == -(n0 * d1 - d0 * n1)
  {
  }

  lemma AtMost(x: nat, d: nat, y: nat)
    requires d > 0
    ensures x <= x * d + y
  {
  }

  // The expansion after `k` steps: the last two of Euclid's remainders, and the last two
  // convergents n0/d0 and n1/d1.
  datatype Quotients = Terms(n: nat, d: nat, n0: nat, d0: nat, n1: nat, d1: nat)

  ghost function After(num: nat, den: nat, k: nat): Quotients {
    if k == 0 then Terms(num, den, 0, 1, 1, 0)
    else
      var t := After(num, den, k - 1);
      if t.d == 0 then t
      else Terms(t.d, t.n % t.d, t.n1, t.d1, Term(t.n0, t.n / t.d, t.n1), Term(t.d0, t.n / t.d, t.d1))
  }

  ghost predicate Within(t: Quotients, maxNum: nat, maxDen: nat) {
    t.n1 <= maxNum && t.d1 <= maxDen
  }

  // p/q is the last convergent before one that exceeds the bounds, or the last of all; its
  // distance from num/den is the remainder left at that point, over q times den.
  ghost predicate LastWithin(num: nat, den: nat, maxNum: nat, maxDen: nat, p: nat, q: nat, k: nat) {
    var t := After(num, den, k);
    && p == t.n1 && q == t.d1
    && (p * den - q * num == t.d || q * num - p * den == t.d)
    && (forall j: nat {:trigger After(num, den, j)} :: j <= k ==> Within(After(num, den, j), maxNum, maxDen))
    && (t.d == 0 || !Within(After(num, den, k + 1), maxNum, maxDen))
  }

  lemma Remainder(num: nat, den: nat, n: nat, d: nat, n0: nat, d0: nat, n1: nat, d1: nat)
    requires Expansion(num, den, n, d, n0, d0, n1, d1)
    ensures n1 * den - d1 * num == d || d1 * num - n1 * den == d
  {
    var e := n0 * d1 - d0 * n1;
    assert d1 * num == d1 * n1 * n + d1 * n0 * d;
    assert n1 * den == n1 * d1 * n + n1 * d0 * d;
    assert d1 * num - n1 * den == e * d by {
      assert d1 * n1 * n == n1 * d1 * n;
      assert (d1 * n0 - n1 * d0) * d == d1 * n0 * d - n1 * d0 * d;
    }
  }

  // What the two answers promise: in lowest terms and within the bounds; and the fraction
  // itself if it fits when reduced.
  ghost predicate Approximates(num: nat, den: nat, maxNum: nat, maxDen: nat, p: nat, q: nat) {
    && p <= maxNum && q <= maxDen && IsGcd(1, p, q)
    && (forall s: nat, t: nat {:trigger Reduced(num, den, s, t)} ::
        Reduced(num, den, s, t) && s <= maxNum && t <= maxDen ==> s == p && t == q)
  }

  // s/t is num/den in lowest terms.
  ghost predicate Reduced(num: nat, den: nat, s: nat, t: nat) {
    IsGcd(1, s, t) && exists g: nat {:trigger g * s} :: g > 0 && num == g * s && den == g * t
  }

  // Lines 3462-3470: the next partial quotient.
  method Advance(ghost num: nat, ghost den: nat, n: nat, d: nat, n0: nat, n1: nat, d0: nat, d1: nat)
    returns (n': nat, d': nat, n0': nat, n1': nat, d0': nat, d1': nat)
    requires Expansion(num, den, n, d, n0, d0, n1, d1) && d > 0 && num < WORD && den < WORD
    ensures Expansion(num, den, n', d', n0', d0', n1', d1') && n' == d && d' == n % d < d && n0' == n1 && d0' == d1
    ensures n1' == Term(n0, n / d, n1) && d1' == Term(d0, n / d, d1)
  {
    hide Expansion, Term;
    ExpansionStep(num, den, n, d, n0, d0, n1, d1);
    var a := n / d;
    var p, q := Term(n0, a, n1), Term(d0, a, d1);
    n', d' := d, n % d;
    n0', n1' := n1, p % WORD;
    d0', d1' := d1, q % WORD;
  }

  // Lines 3440-3475. No sum of a product wraps, so the words are exact.
  method BestApproximation(num: nat, den: nat, maxNum: nat, maxDen: nat) returns (p: nat, q: nat)
    requires num < WORD && den < WORD && maxNum < WORD && maxDen < WORD
    requires maxNum > 0 && maxDen > 0 && (num > 0 || den > 0)
    ensures Approximates(num, den, maxNum, maxDen, p, q)
    ensures exists k: nat :: LastWithin(num, den, maxNum, maxDen, p, q, k)
  {
    hide Expansion, Approximates, After, Within, LastWithin;
    var n, d := num, den;
    var n0, d1 := 0, 0;
    var n1, d0 := 1, 1;
    ghost var k: nat := 0;
    First(num, den);
    Begin(num, den);
    while true
      invariant n0 >= 0 && d0 >= 0 && n1 >= 0 && d1 >= 0 && n >= 0 && d >= 0
      invariant Expansion(num, den, n, d, n0, d0, n1, d1)
      invariant n0 <= maxNum && (d0 <= maxDen) && (n > 0 || (n1 == 1 && d1 == 0 && d > 0))
      invariant After(num, den, k) == Terms(n, d, n0, d0, n1, d1) && (k == 0 ==> n1 <= maxNum && d1 <= maxDen)
      invariant k > 0 ==> var t := After(num, den, k - 1);
        t.d > 0 && t.n1 == n0 && t.d1 == d0 && t.d == n && (n0 * den - d0 * num == n || d0 * num - n0 * den == n)
      invariant forall j: nat {:trigger After(num, den, j)} :: j < k ==> Within(After(num, den, j), maxNum, maxDen)
      decreases d
    {
      if n1 > maxNum || d1 > maxDen {
        TooLarge(num, den, maxNum, maxDen, n, d, n0, d0, n1, d1);
        Beyond(num, den, maxNum, maxDen, k);
        Stopped(num, den, maxNum, maxDen, n0, d0, k - 1);
        n1 := n0;
        d1 := d0;
        break;
      }
      Remainder(num, den, n, d, n0, d0, n1, d1);
      if d == 0 {
        Exact(num, den, maxNum, maxDen, n, n0, d0, n1, d1);
        Ended(num, den, maxNum, maxDen, n1, d1, k);
        break;
      }
      NextTerms(num, den, maxNum, maxDen, k);
      n, d, n0, n1, d0, d1 := Advance(num, den, n, d, n0, n1, d0, d1);
      k := k + 1;
    }
    p, q := n1, d1;
  }

  lemma NextTerms(num: nat, den: nat, maxNum: nat, maxDen: nat, k: nat)
    requires var t := After(num, den, k); t.d > 0 && t.n1 <= maxNum && t.d1 <= maxDen
    ensures var t := After(num, den, k);
      After(num, den, k + 1) == Terms(t.d, t.n % t.d, t.n1, t.d1, Term(t.n0, t.n / t.d, t.n1),
          Term(t.d0, t.n / t.d, t.d1))
    ensures Within(After(num, den, k), maxNum, maxDen)
  {
  }

  lemma Beyond(num: nat, den: nat, maxNum: nat, maxDen: nat, k: nat)
    requires var t := After(num, den, k); t.n1 > maxNum || t.d1 > maxDen
    ensures !Within(After(num, den, k), maxNum, maxDen)
  {
  }

  lemma Begin(num: nat, den: nat)
    ensures After(num, den, 0) == Terms(num, den, 0, 1, 1, 0)
  {
  }

  lemma Ended(num: nat, den: nat, maxNum: nat, maxDen: nat, p: nat, q: nat, k: nat)
    requires var t := After(num, den, k); p == t.n1 && q == t.d1 && t.d == 0 && p * den - q * num == 0
    requires p <= maxNum && q <= maxDen
    requires forall j: nat {:trigger After(num, den, j)} :: j < k ==> Within(After(num, den, j), maxNum, maxDen)
    ensures LastWithin(num, den, maxNum, maxDen, p, q, k)
  {
  }

  lemma Stopped(num: nat, den: nat, maxNum: nat, maxDen: nat, p: nat, q: nat, k: nat)
    requires var t := After(num, den, k);
      && p == t.n1 && q == t.d1
      && (p * den - q * num == t.d || q * num - p * den == t.d)
    requires !Within(After(num, den, k + 1), maxNum, maxDen)
    requires forall j: nat {:trigger After(num, den, j)} :: j <= k ==> Within(After(num, den, j), maxNum, maxDen)
    ensures LastWithin(num, den, maxNum, maxDen, p, q, k)
  {
  }

  lemma First(num: nat, den: nat)
    ensures Expansion(num, den, num, den, 0, 1, 1, 0)
  {
  }

  lemma UnitFactor(e: nat, k: int)
    requires e * k == 1 || e * k == -1
    ensures e == 1
  {
    assert k >= 1 ==> e * k >= e;
    assert k <= -1 ==> e * k + e <= 0;
  }

  // The determinant shows that the terms have no common divisor but 1.
  lemma Coprime(n0: nat, d0: nat, n1: nat, d1: nat)
    requires n0 * d1 - d0 * n1 == 1 || n0 * d1 - d0 * n1 == -1
    ensures IsGcd(1, n1, d1) && IsGcd(1, n0, d0)
  {
    DividesZero(n1);
    DividesZero(d1);
    DividesZero(n0);
    DividesZero(d0);
    DividesZero(1);
    forall e: nat | Divides(e, n1) && Divides(e, d1) ensures Divides(e, 1) {
      var k: nat :| n1 == e * k;
      var m: nat :| d1 == e * m;
      Factor(n0, d0, e, m, k);
      UnitFactor(e, n0 * m - d0 * k);
    }
    forall e: nat | Divides(e, n0) && Divides(e, d0) ensures Divides(e, 1) {
      var k: nat :| n0 == e * k;
      var m: nat :| d0 == e * m;
      Factor(d1, n1, e, k, m);
      UnitFactor(e, d1 * k - n1 * m);
    }
  }

  lemma Factor(x: int, y: int, e: int, m: int, k: int)
    ensures x * (e * m) - y * (e * k) == e * (x * m - y * k)
    ensures (e * m) * x - (e * k) * y == e * (x * m - y * k)
  {
  }

  // A fraction in lowest terms equal to n1/d1 is n1/d1.
  lemma SameFraction(n0: nat, d0: nat, n1: nat, d1: nat, s: nat, t: nat)
    requires n0 * d1 - d0 * n1 == 1 || n0 * d1 - d0 * n1 == -1
    requires n1 * t == d1 * s && IsGcd(1, s, t)
    ensures s == n1 && t == d1
  {
    NotBothZero(s, t);
    var e := n0 * d1 - d0 * n1;
    var w := e * (n0 * t - d0 * s);
    Expand(n0, d0, n1, d1, s, t, e);
    assert s == n1 * w && t == d1 * w;
    if w <= 0 {
      NonPositiveProduct(n1, w);
      NonPositiveProduct(d1, w);
    }
    assert s == w * n1 && t == w * d1;
    assert Divides(w, s) && Divides(w, t);
    assert Divides(w, 1);
    var k: nat :| 1 == w * k;
    UnitFactor(w, k);
  }

  lemma NotBothZero(s: nat, t: nat)
    requires IsGcd(1, s, t)
    ensures s > 0 || t > 0
  {
    DividesZero(2);
    assert !Divides(2, 1);
  }

  lemma NonPositiveProduct(x: nat, w: int)
    requires w <= 0
    ensures x * w <= 0
  {
  }

  lemma Expand(n0: int, d0: int, n1: int, d1: int, s: int, t: int, e: int)
    requires e == n0 * d1 - d0 * n1 && (e == 1 || e == -1) && n1 * t == d1 * s
    ensures n1 * (e * (n0 * t - d0 * s)) == s && d1 * (e * (n0 * t - d0 * s)) == t
  {
    Spread(n1, n0, d0, s, t);
    Spread(d1, n0, d0, s, t);
    assert n1 * (n0 * t - d0 * s) == n0 * (d1 * s) - d0 * n1 * s == e * s by {
      SpreadBack(n0, d0, n1, d1, s);
    }
    assert d1 * (n0 * t - d0 * s) == n0 * d1 * t - d0 * (n1 * t) == e * t by {
      SpreadBack(n0, d0, n1, d1, t);
    }
  }

  lemma Spread(x: int, n0: int, d0: int, s: int, t: int)
    ensures x * (n0 * t - d0 * s) == n0 * (x * t) - d0 * (x * s)
  {
  }

  lemma SpreadBack(n0: int, d0: int, n1: int, d1: int, x: int)
    ensures (n0 * d1 - d0 * n1) * x == n0 * (d1 * x) - d0 * n1 * x == n0 * d1 * x - d0 * (n1 * x)
  {
  }

  lemma Cancel(g: nat, x: int, y: int)
    requires g > 0 && g * x == g * y
    ensures x == y
  {
    if x < y {
      Distribute(g, x, y - x);
      Positive(g, y - x);
    } else if y < x {
      Distribute(g, y, x - y);
      Positive(g, x - y);
    }
  }

  lemma Positive(g: nat, x: nat)
    requires g > 0 && x > 0
    ensures g * x > 0
  {
  }

  lemma TooLarge(num: nat, den: nat, maxNum: nat, maxDen: nat, n: nat, d: nat, n0: nat, d0: nat, n1: nat, d1: nat)
    requires Expansion(num, den, n, d, n0, d0, n1, d1) && n > 0 && n0 <= maxNum && d0 <= maxDen
    requires n1 > maxNum || d1 > maxDen
    ensures Approximates(num, den, maxNum, maxDen, n0, d0)
  {
    hide IsGcd, Divides;
    Coprime(n0, d0, n1, d1);
    forall s: nat, t: nat {:trigger Reduced(num, den, s, t)} | Reduced(num, den, s, t) ensures s >= n1 && t >= d1 {
      var g: nat :| g > 0 && num == g * s && den == g * t;
      AtLeast(num, den, n, d, n0, d0, n1, d1, g, s, t);
    }
  }

  // The terms of the expansion do not exceed those of the fraction in lowest terms.
  lemma AtLeast(num: nat, den: nat, n: nat, d: nat, n0: nat, d0: nat, n1: nat, d1: nat, g: nat, s: nat, t: nat)
    requires Expansion(num, den, n, d, n0, d0, n1, d1) && n > 0 && g > 0 && num == g * s && den == g * t
    ensures s >= n1 && t >= d1
  {
    var e := n0 * d1 - d0 * n1;
    var m := e * (t * n0 - s * d0);
    Invert(n, d, n0, d0, n1, d1, e);
    assert n == e * (den * n0 - num * d0);
    assert den * n0 - num * d0 == g * (t * n0 - s * d0) by {
      Factor(n0, d0, g, t, s);
    }
    assert n == g * m by {
      Associate(e, g, t * n0 - s * d0);
    }
    assert m >= 1 by {
      if m <= 0 {
        NonPositiveProduct(g, m);
      }
    }
    Bound(g, s, n1, m, n0 * d);
    Bound(g, t, d1, m, d0 * d);
  }

  lemma Bound(g: nat, s: nat, x: nat, m: nat, y: nat)
    requires g > 0 && m >= 1 && g * s == x * (g * m) + y
    ensures s >= x
  {
    Associate(x, g, m);
    if s < x * m {
      Distribute(g, s, x * m - s);
      Positive(g, x * m - s);
    }
    assert x * m >= x;
  }

  lemma Invert(n: int, d: int, n0: int, d0: int, n1: int, d1: int, e: int)
    requires e == n0 * d1 - d0 * n1 && (e == 1 || e == -1)
    ensures n == e * ((d1 * n + d0 * d) * n0 - (n1 * n + n0 * d) * d0)
  {
    assert (d1 * n + d0 * d) * n0 == d1 * n * n0 + d0 * d * n0;
    assert (n1 * n + n0 * d) * d0 == n1 * n * d0 + n0 * d * d0;
    assert d0 * d * n0 == n0 * d * d0;
    assert e * n == n0 * d1 * n - d0 * n1 * n;
  }

  lemma Exact(num: nat, den: nat, maxNum: nat, maxDen: nat, n: nat, n0: nat, d0: nat, n1: nat, d1: nat)
    requires Expansion(num, den, n, 0, n0, d0, n1, d1) && n > 0 && n1 <= maxNum && d1 <= maxDen
    ensures Approximates(num, den, maxNum, maxDen, n1, d1)
  {
    hide IsGcd, Divides;
    Coprime(n0, d0, n1, d1);
    forall s: nat, t: nat {:trigger Reduced(num, den, s, t)} | Reduced(num, den, s, t) ensures s == n1 && t == d1 {
      var g: nat :| g > 0 && num == g * s && den == g * t;
      assert num == n1 * n && den == d1 * n;
      CrossEqual(g, s, t, n, n1, d1);
      SameFraction(n0, d0, n1, d1, s, t);
    }
  }

  lemma CrossEqual(g: nat, s: nat, t: nat, n: nat, n1: nat, d1: nat)
    requires g > 0 && g * s == n1 * n && g * t == d1 * n
    ensures n1 * t == d1 * s
  {
    assert g * (n1 * t) == n1 * (g * t) == n1 * (d1 * n);
    assert g * (d1 * s) == d1 * (g * s) == d1 * (n1 * n);
    assert n1 * (d1 * n) == d1 * (n1 * n);
    Cancel(g, n1 * t, d1 * s);
  }
}
