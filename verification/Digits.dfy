/**
 Shifts and masks on ids and tree indices, read as arithmetic.

 Both sparse trees cut an index into fixed-width digits: a tree with fan-out `b` uses
 `index >> (log2(b) * level)` to reach a level and masks with `b - 1` to pick a slot.
 On two's-complement words an arithmetic right shift is a Euclidean division and the mask
 is its remainder, for negative values too, so `Shr(b, x, l)` stands for the shift by `l`
 digits, `Shr(b, x, l) % b` for the slot at level `l`, and `Shl(b, c, l)` for the shift
 back up.
 */
module Digits {

  const INT_MAX := 0x7fff_ffff

  function Shr(b: int, x: int, l: nat): int
    requires b > 1
  {
    if l == 0 then x else Shr(b, x, l - 1) / b
  }

  function Shl(b: int, c: int, l: nat): int
    requires b > 1
  {
    if l == 0 then c else Shl(b, c, l - 1) * b
  }

  // Conversion of an exact sum to a 32-bit `int`.
  function Wrap32(x: int): (r: int)
    ensures -0x8000_0000 <= r <= INT_MAX && (x - r) % 0x1_0000_0000 == 0
  {
    (x + 0x8000_0000) % 0x1_0000_0000 - 0x8000_0000
  }

  // The fan-outs in use: 256 for the id tree, 64 for the radix tree.
  ghost predicate FanOut(b: int) {
    b == 64 || b == 256
  }

  // `x >> l < c` iff `x < c << l`: a search may test either side.
  lemma {:induction false} ShrLess(b: int, x: int, c: int, l: nat)
    requires FanOut(b)
    ensures Shr(b, x, l) < c <==> x < Shl(b, c, l)
    decreases l
  {
    if l != 0 {
      ShrLess(b, x, c * b, l - 1);
      ShlStep(b, c, l);
      if b == 64 {
      } else {
      }
    }
  }

  // The digit may be taken off at either end.
  lemma {:induction false} ShlStep(b: int, c: int, l: nat)
    requires b > 1 && l > 0
    ensures Shl(b, c, l) == Shl(b, c * b, l - 1)
    decreases l
  {
    if l > 1 {
      ShlStep(b, c, l - 1);
    }
  }

  lemma {:induction false} ShlGrows(b: int, c: int, d: int, l: nat)
    requires FanOut(b) && c < d
    ensures Shl(b, c, l) < Shl(b, d, l)
  {
    if l != 0 {
      ShlGrows(b, c, d, l - 1);
      if b == 64 {
      } else {
      }
    }
  }

  // Going up and coming back down restores the prefix.
  lemma {:induction false} ShrShl(b: int, c: int, l: nat)
    requires FanOut(b)
    ensures Shr(b, Shl(b, c, l), l) == c
  {
    ShrLess(b, Shl(b, c, l), c, l);
    ShrLess(b, Shl(b, c, l), c + 1, l);
    ShlGrows(b, c, c + 1, l);
  }

  lemma {:induction false} ShrMonotone(b: int, x: int, y: int, l: nat)
    requires FanOut(b) && x <= y
    ensures Shr(b, x, l) <= Shr(b, y, l)
  {
    ShrLess(b, y, Shr(b, y, l) + 1, l);
    ShrLess(b, x, Shr(b, y, l) + 1, l);
  }

  lemma {:induction false} ShrNonNegative(b: int, x: int, l: nat)
    requires FanOut(b) && x >= 0
    ensures 0 <= Shr(b, x, l) <= x
  {
    if l != 0 {
      ShrNonNegative(b, x, l - 1);
      if b == 64 {
      } else {
      }
    }
  }

  // Indices that agree from one digit on agree from every higher digit on.
  lemma {:induction false} ShrAgree(b: int, x: int, y: int, l: nat, m: nat)
    requires b > 1 && l <= m && Shr(b, x, l) == Shr(b, y, l)
    ensures Shr(b, x, m) == Shr(b, y, m)
    decreases m
  {
    if l < m {
      ShrAgree(b, x, y, l, m - 1);
    }
  }

  lemma {:induction false} ShlShl(b: int, c: int, l: nat, m: nat)
    requires b > 1
    ensures Shl(b, Shl(b, c, l), m) == Shl(b, c, l + m)
  {
    if m != 0 {
      ShlShl(b, c, l, m - 1);
    }
  }

  // Rounding up at a digit does not pass a boundary of a higher digit.
  lemma {:induction false} RoundUpBelow(b: int, x: int, c: int, l: nat, m: nat)
    requires FanOut(b) && l <= m && x < Shl(b, c, m)
    ensures Shl(b, Shr(b, x, l) + 1, l) <= Shl(b, c, m)
  {
    var d := Shl(b, c, m - l);
    ShlShl(b, c, m - l, l);
    ShrLess(b, x, d, l);
    if Shr(b, x, l) + 1 < d {
      ShlGrows(b, Shr(b, x, l) + 1, d, l);
    }
  }
}
