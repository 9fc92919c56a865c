/**
 Bit operations of kernel/linux_func.c on words read as natural numbers: the bit scan
 `fls`, the exclusive or, and the searches through bitmaps.
 */
module Bits {
  import opened Digits

  // Bitwise and.
  function And(x: nat, y: nat): nat {
    if x == 0 || y == 0 then 0 else 2 * And(x / 2, y / 2) + if x % 2 == 1 && y % 2 == 1 then 1 else 0
  }

  // One less than a power of two.
  ghost predicate LowMask(m: nat) {
    m == 0 || (m % 2 == 1 && LowMask(m / 2))
  }

  // Masking with the low bits is a remainder.
  lemma {:induction false} AndLowMask(x: nat, m: nat)
    requires LowMask(m)
    ensures And(x, m) == x % (m + 1)
  {
    if x != 0 && m != 0 {
      AndLowMask(x / 2, m / 2);
      HalfRemainder(x, m / 2 + 1);
    }
  }

  lemma HalfRemainder(x: nat, n: nat)
    requires n > 0
    ensures x % (2 * n) == 2 * ((x / 2) % n) + x % 2
  {
    var q := x / 2 / n;
    assert x / 2 == n * q + (x / 2) % n;
    assert 2 * n * q == 2 * (n * q);
    RemainderIs(x, 2 * n, q, 2 * ((x / 2) % n) + x % 2);
  }

  lemma RemainderIs(x: int, d: int, q: int, r: int)
    requires d > 0 && x == d * q + r && 0 <= r < d
    ensures x % d == r
  {
    var e := x / d - q;
    assert d * e == r - x % d;
    assert e <= -1 ==> d * e <= -d;
    assert e >= 1 ==> d * e >= d;
  }

  // `x >> n`, one bit at a time.
  function Half(x: nat, n: nat): nat {
    if n == 0 then x else Half(x / 2, n - 1)
  }

  // `x ^ y`, bit by bit.
  function Xor(x: nat, y: nat): nat {
    if x == 0 && y == 0 then 0 else 2 * Xor(x / 2, y / 2) + (x + y) % 2
  }

  // The 32-bit pattern of an `int`, read without sign.
  function Unsigned32(x: int): (r: nat)
    requires -0x8000_0000 <= x <= INT_MAX
    ensures r < 0x1_0000_0000
  {
    if x < 0 then x + 0x1_0000_0000 else x
  }

  lemma UnsignedWrap(y: nat)
    requires y < 0x1_0000_0000
    ensures Unsigned32(Wrap32(y)) == y
  {
  }

  lemma {:induction false} HalfHalf(x: nat, m: nat, n: nat)
    ensures Half(Half(x, m), n) == Half(x, m + n)
  {
    if m != 0 {
      HalfHalf(x / 2, m - 1, n);
    }
  }

  lemma HalfBy2(x: nat)
    ensures Half(x, 1) == x / 2 && Half(x, 2) == x / 4
  {
    assert Half(x / 2, 1) == Half(x / 2 / 2, 0);
  }

  lemma HalfBy4(x: nat)
    ensures Half(x, 4) == x / 0x10
  {
    HalfHalf(x, 2, 2);
    HalfBy2(x);
    HalfBy2(x / 4);
  }

  lemma HalfBy8(x: nat)
    ensures Half(x, 8) == x / 0x100
  {
    HalfHalf(x, 4, 4);
    HalfBy4(x);
    HalfBy4(x / 0x10);
  }

  lemma HalfBy16(x: nat)
    ensures Half(x, 16) == x / 0x1_0000
  {
    HalfHalf(x, 8, 8);
    HalfBy8(x);
    HalfBy8(x / 0x100);
  }

  lemma {:induction false} HalfZero(n: nat)
    ensures Half(0, n) == 0
  {
    if n != 0 {
      HalfZero(n - 1);
    }
  }

  // Shifting digits of eight bits is shifting bits.
  lemma {:induction false} HalfShr(x: nat, l: nat)
    ensures Half(x, 8 * l) == Shr(256, x, l)
  {
    if l != 0 {
      HalfShr(x, l - 1);
      HalfHalf(x, 8 * (l - 1), 8);
      HalfBy8(Half(x, 8 * (l - 1)));
    }
  }

  lemma HalfBy31(x: nat)
    ensures Half(x, 31) == x / 0x8000_0000
  {
    HalfHalf(x, 16, 15);
    HalfBy16(x);
    HalfHalf(x / 0x1_0000, 8, 7);
    HalfBy8(x / 0x1_0000);
    HalfHalf(x / 0x100_0000, 4, 3);
    HalfBy4(x / 0x100_0000);
    HalfHalf(x / 0x1000_0000, 2, 1);
    HalfBy2(x / 0x1000_0000);
    HalfBy2(x / 0x4000_0000);
  }

  // Lines 1329-1358: every test halves the range in which the highest bit may be.
  function Fls(mask: int): (r: nat)
    requires -0x8000_0000 <= mask <= INT_MAX
    ensures r <= 32
  {
    if mask == 0 then 0
    else
      var m := Unsigned32(mask);
      1 + if m / 0x1_0000 % 0x1_0000 != 0 then 16 + Fls16(m / 0x1_0000) else Fls16(m)
  }

  function Fls16(m: nat): (r: nat)
    ensures r <= 15
  {
    if m / 0x100 % 0x100 != 0 then 8 + Fls8(m / 0x100) else Fls8(m)
  }

  function Fls8(m: nat): (r: nat)
    ensures r <= 7
  {
    if m / 0x10 % 0x10 != 0 then 4 + Fls4(m / 0x10) else Fls4(m)
  }

  function Fls4(m: nat): (r: nat)
    ensures r <= 3
  {
    if m / 4 % 4 != 0 then 2 + (if m / 4 / 2 % 2 != 0 then 1 else 0) else if m / 2 % 2 != 0 then 1 else 0
  }

  lemma Fls4Top(m: nat)
    requires 0 < m < 0x10
    ensures Half(m, Fls4(m)) == 1
  {
    HalfBy2(m);
    HalfBy2(m / 4);
    HalfHalf(m, 2, 1);
  }

  lemma Fls8Top(m: nat)
    requires 0 < m < 0x100
    ensures Half(m, Fls8(m)) == 1
  {
    if m / 0x10 != 0 {
      Fls4Top(m / 0x10);
      HalfHalf(m, 4, Fls4(m / 0x10));
      HalfBy4(m);
    } else {
      Fls4Top(m);
    }
  }

  lemma Fls16Top(m: nat)
    requires 0 < m < 0x1_0000
    ensures Half(m, Fls16(m)) == 1
  {
    if m / 0x100 != 0 {
      Fls8Top(m / 0x100);
      HalfHalf(m, 8, Fls8(m / 0x100));
      HalfBy8(m);
    } else {
      Fls8Top(m);
    }
  }

  // The bit found is the highest: what is left above its position is one.
  lemma FlsTop(mask: int)
    requires -0x8000_0000 <= mask <= INT_MAX && mask != 0
    ensures Fls(mask) > 0 && Half(Unsigned32(mask), Fls(mask) - 1) == 1
  {
    var m := Unsigned32(mask);
    if m / 0x1_0000 != 0 {
      Fls16Top(m / 0x1_0000);
      HalfHalf(m, 16, Fls16(m / 0x1_0000));
      HalfBy16(m);
    } else {
      Fls16Top(m);
    }
  }

  // `n < fls(x)` iff `x >> n` is not zero.
  lemma FlsAbove(mask: int, n: nat)
    requires -0x8000_0000 <= mask <= INT_MAX
    ensures n < Fls(mask) <==> Half(Unsigned32(mask), n) != 0
  {
    var m := Unsigned32(mask);
    if mask == 0 {
      HalfZero(n);
    } else {
      var r := Fls(mask);
      FlsTop(mask);
      if n < r {
        HalfHalf(m, n, r - 1 - n);
        HalfZero(r - 1 - n);
      } else {
        HalfHalf(m, r - 1, n - r + 1);
        HalfZero(n - r);
      }
    }
  }

  // In digits of eight bits.
  lemma FlsDigits(x: int, l: nat)
    requires -0x8000_0000 <= x <= INT_MAX
    ensures x >= 0 ==> (8 * l < Fls(x) <==> x >= Shl(256, 1, l))
    ensures x < 0 ==> Fls(x) == 32
  {
    FlsAbove(x, 8 * l);
    if x >= 0 {
      HalfShr(x, l);
      ShrLess(256, x, 1, l);
      ShrNonNegative(256, x, l);
    } else {
      FlsAbove(x, 31);
      HalfBy31(Unsigned32(x));
    }
  }

  // Shifting commutes with the exclusive or, which vanishes on equal words only.
  lemma {:induction false} HalfXor(x: nat, y: nat, n: nat)
    ensures Half(Xor(x, y), n) == Xor(Half(x, n), Half(y, n))
  {
    if n != 0 {
      HalfXor(x / 2, y / 2, n - 1);
    }
  }

  lemma {:induction false} XorEqual(x: nat, y: nat)
    ensures Xor(x, y) == 0 <==> x == y
  {
    if x != 0 || y != 0 {
      XorEqual(x / 2, y / 2);
    }
  }

  lemma {:induction false} XorComm(x: nat, y: nat)
    ensures Xor(x, y) == Xor(y, x)
  {
    if x != 0 || y != 0 {
      XorComm(x / 2, y / 2);
    }
  }

  lemma {:induction false} XorZero(x: nat)
    ensures Xor(x, 0) == x
  {
    if x != 0 {
      XorZero(x / 2);
    }
  }

  // `a << n | r` for `r` of `n` bits.
  function Put(a: nat, r: nat, n: nat): nat {
    if n == 0 then a else 2 * Put(a, r / 2, n - 1) + r % 2
  }

  lemma XorStep(x: nat, y: nat)
    ensures Xor(x, y) / 2 == Xor(x / 2, y / 2) && Xor(x, y) % 2 == (x + y) % 2
  {
  }

  lemma XorUnfold(x: nat, y: nat)
    ensures Xor(x, y) == 2 * Xor(x / 2, y / 2) + (x + y) % 2
  {
  }

  lemma {:induction false} XorPut(a: nat, r: nat, s: nat, n: nat)
    ensures Xor(Put(a, r, n), Put(0, s, n)) == Put(a, Xor(r, s), n)
  {
    if n == 0 {
      XorZero(a);
    } else {
      hide Xor;
      XorPut(a, r / 2, s / 2, n - 1);
      XorStep(r, s);
      PutParts(a, r, n);
      PutParts(0, s, n);
      XorUnfold(Put(a, r, n), Put(0, s, n));
      assert Put(a, Xor(r, s), n) == 2 * Put(a, Xor(r / 2, s / 2), n - 1) + (r + s) % 2;
      BitSum(Put(a, r, n), Put(0, s, n), r, s);
    }
  }

  lemma PutParts(a: nat, r: nat, n: nat)
    requires n > 0
    ensures Put(a, r, n) / 2 == Put(a, r / 2, n - 1) && Put(a, r, n) % 2 == r % 2
  {
  }

  lemma BitSum(x: nat, y: nat, r: nat, s: nat)
    requires x % 2 == r % 2 && y % 2 == s % 2
    ensures (x + y) % 2 == (r + s) % 2
  {
  }

  lemma PutNibble(a: nat, r: nat)
    ensures Put(a, r, 4) == 16 * a + r % 16
  {
    assert Put(a, r, 4) == 2 * Put(a, r / 2, 3) + r % 2;
    assert Put(a, r / 2, 3) == 2 * Put(a, r / 4, 2) + r / 2 % 2;
    assert Put(a, r / 4, 2) == 2 * Put(a, r / 8, 1) + r / 4 % 2;
    assert Put(a, r / 8, 1) == 2 * a + r / 8 % 2;
  }

  lemma {:induction false} PutPut(a: nat, r: nat, m: nat, n: nat)
    ensures Put(a, r, m + n) == Put(Put(a, Half(r, m), n), r, m)
  {
    if m != 0 {
      PutPut(a, r / 2, m - 1, n);
    }
  }

  lemma PutByte(a: nat, r: nat)
    requires r < 256
    ensures Put(a, r, 8) == 256 * a + r
  {
    PutPut(a, r, 4, 4);
    HalfBy4(r);
    PutNibble(a, r / 16);
    PutNibble(Put(a, r / 16, 4), r);
  }

  // x ^ n ^ m with n the low byte of x: the byte m takes its place.
  lemma XorByte(x: nat, m: nat)
    requires m < 256
    ensures Xor(Xor(x, x % 256), m) == x - x % 256 + m
  {
    PutByte(x / 256, x % 256);
    PutByte(0, x % 256);
    XorPut(x / 256, x % 256, x % 256, 8);
    XorEqual(x % 256, x % 256);
    PutByte(x / 256, 0);
    PutByte(0, m);
    XorPut(x / 256, 0, m, 8);
    XorComm(0, m);
    XorZero(m);
    PutByte(x / 256, m);
  }

  // `x ^ y` on `int`s.
  function Xor32(x: int, y: int): (r: int)
    requires -0x8000_0000 <= x <= INT_MAX && -0x8000_0000 <= y <= INT_MAX
    ensures -0x8000_0000 <= r <= INT_MAX
  {
    Wrap32(Xor(Unsigned32(x), Unsigned32(y)))
  }

  // `n < fls(x ^ y)`, in digits of eight bits: the words differ from that digit on.
  lemma FlsXor32(x: int, y: int, l: nat)
    requires -0x8000_0000 <= x <= INT_MAX && -0x8000_0000 <= y <= INT_MAX
    ensures 8 * l < Fls(Xor32(x, y)) <==> Shr(256, Unsigned32(x), l) != Shr(256, Unsigned32(y), l)
  {
    var u, v := Unsigned32(x), Unsigned32(y);
    XorBelow(u, v);
    assert Unsigned32(Xor32(x, y)) == Xor(u, v);
    FlsAbove(Xor32(x, y), 8 * l);
    HalfXor(u, v, 8 * l);
    XorEqual(Half(u, 8 * l), Half(v, 8 * l));
    HalfShr(u, l);
    HalfShr(v, l);
  }

  lemma XorBelow(x: nat, y: nat)
    requires x < 0x1_0000_0000 && y < 0x1_0000_0000
    ensures Xor(x, y) < 0x1_0000_0000
  {
    HalfXor(x, y, 32);
    HalfBy32(x);
    HalfBy32(y);
    HalfBy32(Xor(x, y));
  }

  lemma HalfBy32(x: nat)
    ensures Half(x, 32) == x / 0x1_0000_0000
  {
    HalfHalf(x, 16, 16);
    HalfBy16(x);
    HalfBy16(x / 0x1_0000);
  }
}
