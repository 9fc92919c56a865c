/**
 The scans through bitmaps of kernel/linux_func.c, a word at a time.
 */
module Scan {
  import opened IdrTree

  const BITS_PER_LONG := 64

  type Word = seq<bool>

  predicate Words(addr: seq<Word>) {
    forall w :: 0 <= w < |addr| ==> |addr[w]| == BITS_PER_LONG
  }

  // Bit `k` of a bitmap.
  function Bit(addr: seq<Word>, k: nat): bool
    requires Words(addr) && k < BITS_PER_LONG * |addr|
  {
    addr[k / BITS_PER_LONG][k % BITS_PER_LONG]
  }

  // BIT_MASK(offset) - 1
  function Below(offset: nat): (r: Word)
    ensures |r| == BITS_PER_LONG
  {
    seq(BITS_PER_LONG, i => i < offset % BITS_PER_LONG)
  }

  function AndNot(x: Word, y: Word): (r: Word)
    requires |x| == |y| == BITS_PER_LONG
    ensures |r| == BITS_PER_LONG && forall i :: 0 <= i < BITS_PER_LONG ==> r[i] == (x[i] && !y[i])
  {
    seq(BITS_PER_LONG, i requires 0 <= i < BITS_PER_LONG => x[i] && !y[i])
  }

  function Not(x: Word): (r: Word)
    requires |x| == BITS_PER_LONG
    ensures |r| == BITS_PER_LONG && forall i :: 0 <= i < BITS_PER_LONG ==> r[i] == !x[i]
  {
    seq(BITS_PER_LONG, i requires 0 <= i < BITS_PER_LONG => !x[i])
  }

  // One more than the position of the lowest set bit, or 0.
  function Ffsl(x: Word): (r: nat)
    ensures r == 0 <==> true !in x
    ensures r > 0 ==> r <= |x| && x[r - 1] && forall i :: 0 <= i < r - 1 ==> !x[i]
  {
    if x == [] then 0 else if x[0] then 1 else var r := Ffsl(x[1..]); if r == 0 then 0 else r + 1
  }

  // `r` is the first position from `from` on whose bit is `value`, or `size`.
  ghost predicate First(addr: seq<Word>, size: nat, from: nat, value: bool, r: nat)
    requires Words(addr) && size <= BITS_PER_LONG * |addr|
  {
    && r <= size && (from <= size ==> from <= r)
    && (forall k :: from <= k < r ==> Bit(addr, k) != value)
    && (r < size ==> Bit(addr, r) == value)
  }

  lemma BitAt(addr: seq<Word>, q: nat, i: nat)
    requires Words(addr) && q < |addr| && i < BITS_PER_LONG
    ensures BITS_PER_LONG * q + i < BITS_PER_LONG * |addr| && Bit(addr, BITS_PER_LONG * q + i) == addr[q][i]
  {
    assert (BITS_PER_LONG * q + i) / BITS_PER_LONG == q && (BITS_PER_LONG * q + i) % BITS_PER_LONG == i;
  }

  // The masked word shows the bits from `offset` on in its word that have the value.
  lemma Masked(addr: seq<Word>, offset: nat, value: bool, mask: Word, k: nat)
    requires Words(addr) && offset < BITS_PER_LONG * |addr| && |mask| == BITS_PER_LONG
    requires mask == AndNot(if value then addr[offset / BITS_PER_LONG] else Not(addr[offset / BITS_PER_LONG]),
        Below(offset))
    requires offset - offset % BITS_PER_LONG <= k < offset - offset % BITS_PER_LONG + BITS_PER_LONG
    ensures k < BITS_PER_LONG * |addr|
    ensures mask[k - (offset - offset % BITS_PER_LONG)] <==> k >= offset && Bit(addr, k) == value
  {
    BitAt(addr, offset / BITS_PER_LONG, k - (offset - offset % BITS_PER_LONG));
  }

  // Nothing from `from` on in the rest of the word, or the first such bit.
  lemma RestOfWord(addr: seq<Word>, size: nat, from: nat, offset: nat, value: bool, mask: Word)
    requires Words(addr) && from <= offset < size <= BITS_PER_LONG * |addr| && |mask| == BITS_PER_LONG
    requires forall k :: from <= k < offset ==> Bit(addr, k) != value
    requires mask == AndNot(if value then addr[offset / BITS_PER_LONG] else Not(addr[offset / BITS_PER_LONG]),
        Below(offset))
    ensures var base := offset - offset % BITS_PER_LONG;
      && (Ffsl(mask) == 0 ==> forall k :: from <= k < base + BITS_PER_LONG ==> k < size ==> Bit(addr, k) != value)
      && (Ffsl(mask) > 0 ==>
          offset <= base + Ffsl(mask) - 1 < BITS_PER_LONG * |addr| && Bit(addr, base + Ffsl(mask) - 1) == value)
      && (Ffsl(mask) > 0 ==> forall k :: from <= k < base + Ffsl(mask) - 1 ==> Bit(addr, k) != value)
  {
    hide Bit, AndNot, Not, Below;
    var base := offset - offset % BITS_PER_LONG;
    if Ffsl(mask) > 0 {
      Masked(addr, offset, value, mask, base + Ffsl(mask) - 1);
      forall k | offset <= k < base + Ffsl(mask) - 1 ensures k < BITS_PER_LONG * |addr| && Bit(addr, k) != value {
        Masked(addr, offset, value, mask, k);
      }
    } else {
      forall k | offset <= k < base + BITS_PER_LONG ensures k < BITS_PER_LONG * |addr| && Bit(addr, k) != value {
        Masked(addr, offset, value, mask, k);
        assert mask[k - base] in mask;
      }
    }
  }

  // A mask without bits is the one for the start of the next word.
  lemma NextWord(offset: nat, mask: Word)
    requires |mask| == BITS_PER_LONG && true !in mask
    ensures var next := offset - offset % BITS_PER_LONG + BITS_PER_LONG;
      mask == Below(next) && offset + (BITS_PER_LONG - 1 - offset % BITS_PER_LONG) + 1 == next
  {
    var next := offset - offset % BITS_PER_LONG + BITS_PER_LONG;
    assert next % BITS_PER_LONG == 0;
    forall i | 0 <= i < BITS_PER_LONG ensures mask[i] == Below(next)[i] {
      assert mask[i] in mask;
    }
  }

  // Lines 1397-1415.
  method FindNextBit(addr: seq<Word>, size: nat, from: nat) returns (offset: nat)
    requires Words(addr) && size <= BITS_PER_LONG * |addr|
    ensures First(addr, size, from, true, offset)
  {
    hide Bit, AndNot, Not, Below;
    offset := from;
    var mask := Below(offset);
    while offset < size
      invariant from <= offset && (offset >= size || mask == Below(offset))
      invariant forall k :: from <= k < offset && k < size ==> Bit(addr, k) != true
      decreases size - offset
    {
      mask := AndNot(addr[offset / BITS_PER_LONG], mask);
      RestOfWord(addr, size, from, offset, true, mask);
      if true in mask {
        offset := Ffsl(mask) - 1 + (offset - offset % BITS_PER_LONG);
        break;
      }
      NextWord(offset, mask);
      offset := offset + (BITS_PER_LONG - 1 - offset % BITS_PER_LONG) + 1;
    }
    if offset > size {
      offset := size;
    }
  }

  // Lines 1417-1435.
  method FindNextZeroBit(addr: seq<Word>, size: nat, from: nat) returns (offset: nat)
    requires Words(addr) && size <= BITS_PER_LONG * |addr|
    ensures First(addr, size, from, false, offset)
  {
    hide Bit, AndNot, Not, Below;
    offset := from;
    var mask := Below(offset);
    while offset < size
      invariant from <= offset && (offset >= size || mask == Below(offset))
      invariant forall k :: from <= k < offset && k < size ==> Bit(addr, k) != false
      decreases size - offset
    {
      mask := AndNot(Not(addr[offset / BITS_PER_LONG]), mask);
      RestOfWord(addr, size, from, offset, false, mask);
      if true in mask {
        offset := Ffsl(mask) - 1 + (offset - offset % BITS_PER_LONG);
        break;
      }
      NextWord(offset, mask);
      offset := offset + (BITS_PER_LONG - 1 - offset % BITS_PER_LONG) + 1;
    }
    if offset > size {
      offset := size;
    }
  }

  // Lines 1572-1590.
  method BitmapFull(bitmap: seq<Word>, bits: nat) returns (full: bool)
    requires Words(bitmap) && bits <= BITS_PER_LONG * |bitmap|
    ensures full <==> forall k :: 0 <= k < bits ==> Bit(bitmap, k)
  {
    var lim := bits / BITS_PER_LONG;
    var k := 0;
    while k < lim
      invariant 0 <= k <= lim
      invariant forall j :: 0 <= j < BITS_PER_LONG * k ==> Bit(bitmap, j)
    {
      if true in Not(bitmap[k]) {
        var i :| 0 <= i < BITS_PER_LONG && Not(bitmap[k])[i];
        assert !Bit(bitmap, BITS_PER_LONG * k + i);
        return false;
      }
      forall j | BITS_PER_LONG * k <= j < BITS_PER_LONG * (k + 1) ensures Bit(bitmap, j) {
        assert !Not(bitmap[k])[j - BITS_PER_LONG * k];
      }
      k := k + 1;
    }
    lim := bits % BITS_PER_LONG;
    if lim != 0 {
      var rest := Not(bitmap[k])[..lim];
      if true in rest {
        var i :| 0 <= i < lim && rest[i];
        assert !Bit(bitmap, BITS_PER_LONG * k + i);
        return false;
      }
      forall j | BITS_PER_LONG * k <= j < bits ensures Bit(bitmap, j) {
        assert !rest[j - BITS_PER_LONG * k];
      }
    }
    full := true;
  }

  // A bitmap as one sequence.
  function Flat(addr: seq<Word>, size: nat): (r: seq<bool>)
    requires Words(addr) && size <= BITS_PER_LONG * |addr|
    ensures |r| == size && forall k :: 0 <= k < size ==> r[k] == Bit(addr, k)
  {
    seq(size, k requires 0 <= k < size => Bit(addr, k))
  }

  // The scans are what the searches of the id tree rest on.
  lemma ScanIsNextClear(addr: seq<Word>, size: nat, from: nat, r: nat)
    requires Words(addr) && from <= size <= BITS_PER_LONG * |addr| && First(addr, size, from, false, r)
    ensures r == NextClear(Flat(addr, size), from)
  {
    var m := NextClear(Flat(addr, size), from);
    var bits := Flat(addr, size);
    assert forall k :: from <= k < r ==> bits[k];
    assert r < size ==> !bits[r];
  }
}
