/**
 The unrolled integer square root of kernel/linux_func.c. Every stage is one step of the
 digit recurrence on the sum of twice the root so far and the next bit, written as a shift
 and an exclusive or.
 */
module Sqrt {
  import opened Bits

  // `p` is a power of two.
  ghost predicate Pow2(p: nat) {
    p == 1 || (p > 1 && p % 2 == 0 && Pow2(p / 2))
  }

  lemma Twice(x: nat, y: nat, r: nat, s: nat)
    requires r < 2 && s < 2
    ensures Xor(2 * x + r, 2 * y + s) == 2 * Xor(x, y) + (if r == s then 0 else 1)
  {
    hide Xor;
    XorUnfold(2 * x + r, 2 * y + s);
    assert (2 * x + r) / 2 == x && (2 * y + s) / 2 == y;
    assert (2 * x + r + (2 * y + s)) % 2 == (r + s) % 2;
  }

  lemma {:induction false} XorScale(c: nat, x: nat, y: nat)
    requires Pow2(c)
    ensures Xor(c * x, c * y) == c * Xor(x, y)
  {
    hide Xor;
    if c > 1 {
      var h := c / 2;
      XorScale(h, x, y);
      Double2(h, x);
      Double2(h, y);
      Double2(h, Xor(x, y));
      Twice(h * x, h * y, 0, 0);
    }
  }

  lemma Double2(h: int, x: int)
    ensures 2 * h * x == 2 * (h * x)
  {
  }

  lemma {:induction false} Pow2Square(p: nat)
    requires Pow2(p)
    ensures Pow2(p * p)
  {
    if p > 1 {
      var h := p / 2;
      Pow2Square(h);
      assert p * p == 4 * (h * h);
      assert p * p / 2 == 2 * (h * h) && p * p / 2 / 2 == h * h;
    }
  }

  lemma XorLow(k: nat)
    ensures Xor(8 * k + 2, 7) == 8 * k + 5 && Xor(8 * k + 2, 3) == 8 * k + 1
    ensures Xor(2 * k, 1) == 2 * k + 1
  {
    hide Xor;
    XorZero(k);
    XorZero(2 * k);
    Twice(k, 0, 0, 1);
    Twice(2 * k, 1, 1, 1);
    Twice(2 * k, 0, 1, 1);
    Twice(4 * k + 1, 3, 0, 1);
    Twice(4 * k + 1, 1, 0, 1);
  }

  // The digits of the root of `n` above `p` are known: they make 2 * p * k. What is left of
  // `n` is `a`, and `b` is the next subtrahend.
  ghost predicate Digits(n: nat, p: nat, k: nat, a: nat, b: nat) {
    var r := 2 * p * k;
    && Pow2(p) && a == n - r * r && n < (r + 2 * p) * (r + 2 * p)
    && b == p * p * (4 * k + 1)
  }

  ghost predicate Stands(n: nat, p: nat, a: nat, b: nat) {
    exists k: nat :: Digits(n, p, k, a, b)
  }

  // One stage: subtract if possible, then shift and set the next digit.
  function Stage(a: nat, b: nat, one: nat, zero: nat): (r: (nat, nat)) {
    if a >= b then (a - b, Xor(b / 2, one)) else (a, Xor(b / 2, zero))
  }

  lemma Square(x: int, y: int)
    ensures (x + y) * (x + y) == x * x + 2 * x * y + y * y
  {
  }

  // Shift and exclusive or make the next subtrahend of the present one.
  lemma NextSubtrahend(c: nat, k: nat, b: nat)
    requires Pow2(c) && b == 4 * c * (4 * k + 1)
    ensures Xor(b / 2, 7 * c) == c * (4 * (2 * k + 1) + 1) && Xor(b / 2, 3 * c) == c * (4 * (2 * k) + 1)
  {
    hide Xor, Pow2;
    XorScale(c, 8 * k + 2, 7);
    XorScale(c, 8 * k + 2, 3);
    XorLow(k);
    assert b == 2 * (c * (8 * k + 2));
    assert c * 7 == 7 * c && c * 3 == 3 * c;
  }

  lemma Squares(p: int, q: int, k: int)
    requires p == 2 * q
    ensures p * p == 4 * (q * q) && 2 * q * (2 * k + 1) == 2 * p * k + p && 2 * q * (2 * k) == 2 * p * k
    ensures (2 * p * k + p) * (2 * p * k + p) == 2 * p * k * (2 * p * k) + p * p * (4 * k + 1)
  {
    var r := 2 * p * k;
    Square(r, p);
    assert 2 * r * p == p * p * (4 * k);
    assert p * p * (4 * k + 1) == p * p * (4 * k) + p * p;
  }

  lemma StageKeeps(n: nat, p: nat, q: nat, a: nat, b: nat)
    requires Stands(n, p, a, b) && p == 2 * q
    ensures Stands(n, q, Stage(a, b, 7 * (q * q), 3 * (q * q)).0, Stage(a, b, 7 * (q * q), 3 * (q * q)).1)
  {
    hide Xor;
    var k: nat :| Digits(n, p, k, a, b);
    var c := q * q;
    assert Pow2(q);
    Pow2Square(q);
    Squares(p, q, k);
    hide Pow2;
    NextSubtrahend(c, k, b);
    var s := Stage(a, b, 7 * c, 3 * c);
    if a >= b {
      Taken(n, p, q, k, a, b);
      assert Digits(n, q, 2 * k + 1, s.0, s.1);
    } else {
      Left(n, p, q, k, a, b);
      assert Digits(n, q, 2 * k, s.0, s.1);
    }
  }

  lemma Taken(n: nat, p: nat, q: nat, k: nat, a: nat, b: nat)
    requires Digits(n, p, k, a, b) && p == 2 * q && a >= b && Pow2(q)
    ensures Digits(n, q, 2 * k + 1, a - b, q * q * (4 * (2 * k + 1) + 1))
  {
    hide Pow2;
    Squares(p, q, k);
    var r := 2 * p * k;
    var r' := 2 * q * (2 * k + 1);
    assert r' == r + p && r' * r' == r * r + b;
    assert r' + 2 * q == r + 2 * p;
  }

  lemma Left(n: nat, p: nat, q: nat, k: nat, a: nat, b: nat)
    requires Digits(n, p, k, a, b) && p == 2 * q && a < b && Pow2(q)
    ensures Digits(n, q, 2 * k, a, q * q * (4 * (2 * k) + 1))
  {
    hide Pow2;
    Squares(p, q, k);
    var r := 2 * p * k;
    assert 2 * q * (2 * k) == r && r + 2 * q == r + p;
    assert (r + p) * (r + p) == r * r + b;
  }

  // The last stage.
  lemma LastStage(n: nat, a: nat, b: nat)
    requires Stands(n, 1, a, b)
    ensures var r := if a >= b then Xor(b / 2, 1) else b / 2;
      r * r <= n < (r + 1) * (r + 1)
  {
    var k: nat :| Digits(n, 1, k, a, b);
    XorLow(k);
    assert b / 2 == 2 * k;
    Square(2 * k, 1);
  }

  lemma Start(n: nat)
    requires n < 0x1_0000_0000_0000_0000
    ensures Stands(n, 0x8000_0000, n, 0x4000_0000_0000_0000)
  {
    TopBit();
    hide Pow2;
    assert Digits(n, 0x8000_0000, 0, n, 0x4000_0000_0000_0000);
  }

  lemma TopBit()
    ensures Pow2(0x8000_0000)
  {
    assert Pow2(2);
    Pow2Square(2);
    Pow2Square(4);
    Pow2Square(0x10);
    Pow2Square(0x100);
    Pow2Square(0x1_0000);
  }

  // One `if` of the sequence.
  method Next(ghost n: nat, a: nat, b: nat, one: nat, zero: nat, ghost q: nat) returns (a': nat, b': nat)
    requires Stands(n, 2 * q, a, b) && one == 7 * (q * q) && zero == 3 * (q * q)
    ensures Stands(n, q, a', b')
  {
    StageKeeps(n, 2 * q, q, a, b);
    if a >= b {
      a', b' := a - b, Xor(b / 2, one);
    } else {
      a', b' := a, Xor(b / 2, zero);
    }
  }

  // Lines 2979-3240.
  method IntSqrt(n: nat) returns (r: nat)
    requires n < 0x1_0000_0000_0000_0000
    ensures r * r <= n < (r + 1) * (r + 1)
  {
    hide Stands, Xor;
    Start(n);
    var a, b := n, 0x4000_0000_0000_0000;
    a, b := Next(n, a, b, 0x7000_0000_0000_0000, 0x3000_0000_0000_0000, 0x4000_0000);
    a, b := Next(n, a, b, 0x1c00_0000_0000_0000, 0xc00_0000_0000_0000, 0x2000_0000);
    a, b := Next(n, a, b, 0x700_0000_0000_0000, 0x300_0000_0000_0000, 0x1000_0000);
    a, b := Next(n, a, b, 0x1c0_0000_0000_0000, 0xc0_0000_0000_0000, 0x800_0000);
    a, b := Next(n, a, b, 0x70_0000_0000_0000, 0x30_0000_0000_0000, 0x400_0000);
    a, b := Next(n, a, b, 0x1c_0000_0000_0000, 0xc_0000_0000_0000, 0x200_0000);
    a, b := Next(n, a, b, 0x7_0000_0000_0000, 0x3_0000_0000_0000, 0x100_0000);
    a, b := Next(n, a, b, 0x1_c000_0000_0000, 0xc000_0000_0000, 0x80_0000);
    a, b := Next(n, a, b, 0x7000_0000_0000, 0x3000_0000_0000, 0x40_0000);
    a, b := Next(n, a, b, 0x1c00_0000_0000, 0xc00_0000_0000, 0x20_0000);
    a, b := Next(n, a, b, 0x700_0000_0000, 0x300_0000_0000, 0x10_0000);
    a, b := Next(n, a, b, 0x1c0_0000_0000, 0xc0_0000_0000, 0x8_0000);
    a, b := Next(n, a, b, 0x70_0000_0000, 0x30_0000_0000, 0x4_0000);
    a, b := Next(n, a, b, 0x1c_0000_0000, 0xc_0000_0000, 0x2_0000);
    a, b := Next(n, a, b, 0x7_0000_0000, 0x3_0000_0000, 0x1_0000);
    a, b := Next(n, a, b, 0x1_c000_0000, 0xc000_0000, 0x8000);
    a, b := Next(n, a, b, 0x7000_0000, 0x3000_0000, 0x4000);
    a, b := Next(n, a, b, 0x1c00_0000, 0xc00_0000, 0x2000);
    a, b := Next(n, a, b, 0x700_0000, 0x300_0000, 0x1000);
    a, b := Next(n, a, b, 0x1c0_0000, 0xc0_0000, 0x800);
    a, b := Next(n, a, b, 0x70_0000, 0x30_0000, 0x400);
    a, b := Next(n, a, b, 0x1c_0000, 0xc_0000, 0x200);
    a, b := Next(n, a, b, 0x7_0000, 0x3_0000, 0x100);
    a, b := Next(n, a, b, 0x1_c000, 0xc000, 0x80);
    a, b := Next(n, a, b, 0x7000, 0x3000, 0x40);
    a, b := Next(n, a, b, 0x1c00, 0xc00, 0x20);
    a, b := Next(n, a, b, 0x700, 0x300, 0x10);
    a, b := Next(n, a, b, 0x1c0, 0xc0, 0x8);
    a, b := Next(n, a, b, 0x70, 0x30, 0x4);
    a, b := Next(n, a, b, 0x1c, 0xc, 0x2);
    a, b := Next(n, a, b, 0x7, 0x3, 0x1);
    LastStage(n, a, b);
    r := if a >= b then Xor(b / 2, 0x1) else b / 2;
  }
}
