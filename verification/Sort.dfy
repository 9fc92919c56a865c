/**
 The heapsort of kernel/linux_func.c, on elements of any size, the counters being offsets in
 bytes. The comparison function may be any total preorder.
 */
module Sort {
  import opened Digits

  ghost predicate Preorder<T(!new)>(cmp: (T, T) -> int) {
    && (forall x, y {:trigger cmp(x, y)} :: cmp(x, y) < 0 <==> cmp(y, x) > 0)
    && (forall x, y, z {:trigger cmp(x, y), cmp(y, z)} :: cmp(x, y) <= 0 && cmp(y, z) <= 0 ==> cmp(x, z) <= 0)
  }

  ghost predicate Sorted<T>(s: seq<T>, cmp: (T, T) -> int) {
    forall i, j :: 0 <= i < j < |s| ==> cmp(s[i], s[j]) <= 0
  }

  // Every node from `lo` on is no less than its children below `hi`; node `r` may be.
  ghost predicate HeapBut<T>(s: seq<T>, lo: int, hi: int, r: int, cmp: (T, T) -> int) {
    && 0 <= lo && hi <= |s|
    && (forall c {:trigger Above(s, c, cmp)} :: 1 <= c < hi && lo <= (c - 1) / 2 != r ==> Above(s, c, cmp))
    && (lo < r ==> forall c {:trigger Over(s, r, c, cmp)} :: 1 <= c < hi && (c - 1) / 2 == r ==> Over(s, r, c, cmp))
  }

  // The parent of `c` is no less than `c`.
  ghost predicate Above<T>(s: seq<T>, c: int, cmp: (T, T) -> int)
    requires 1 <= c < |s|
  {
    cmp(s[c], s[(c - 1) / 2]) <= 0
  }

  // The parent of `r` is no less than `c`, which is a child of `r`.
  ghost predicate Over<T>(s: seq<T>, r: int, c: int, cmp: (T, T) -> int)
    requires 0 < r < |s| && 0 <= c < |s|
  {
    cmp(s[c], s[(r - 1) / 2]) <= 0
  }

  ghost predicate Heap<T>(s: seq<T>, lo: int, hi: int, cmp: (T, T) -> int) {
    HeapBut(s, lo, hi, -1, cmp)
  }

  ghost function Swapped<T>(s: seq<T>, i: int, j: int): seq<T>
    requires 0 <= i < |s| && 0 <= j < |s|
  {
    s[i := s[j]][j := s[i]]
  }

  lemma SwappedKeeps<T>(s: seq<T>, i: int, j: int, hi: int)
    requires 0 <= i < hi <= |s| && 0 <= j < hi
    ensures multiset(Swapped(s, i, j)[..hi]) == multiset(s[..hi]) && Swapped(s, i, j)[hi..] == s[hi..]
  {
    assert Swapped(s, i, j)[..hi] == Swapped(s[..hi], i, j);
  }

  // `c` is a child of `r` that is no less than the other one.
  ghost predicate Greater<T>(s: seq<T>, r: int, hi: int, c: int, cmp: (T, T) -> int) {
    && 0 <= r && hi <= |s| && c < hi && (c == 2 * r + 1 || c == 2 * r + 2)
    && forall d :: 0 <= d < hi && (d == 2 * r + 1 || d == 2 * r + 2) ==> cmp(s[d], s[c]) <= 0
  }

  // A node that is no less than the greater of its children completes the heap.
  lemma SiftDone<T(!new)>(s: seq<T>, lo: int, hi: int, r: int, c: int, cmp: (T, T) -> int)
    requires Preorder(cmp) && HeapBut(s, lo, hi, r, cmp) && Greater(s, r, hi, c, cmp) && cmp(s[c], s[r]) <= 0
    ensures Heap(s, lo, hi, cmp)
  {
    forall d | 1 <= d < hi && lo <= (d - 1) / 2 ensures Above(s, d, cmp) {
      if (d - 1) / 2 == r {
        assert cmp(s[d], s[c]) <= 0;
      }
    }
  }

  lemma SiftLeaf<T>(s: seq<T>, lo: int, hi: int, r: int, cmp: (T, T) -> int)
    requires HeapBut(s, lo, hi, r, cmp) && 2 * r + 1 >= hi
    ensures Heap(s, lo, hi, cmp)
  {
    forall d | 1 <= d < hi && lo <= (d - 1) / 2 ensures Above(s, d, cmp) {
    }
  }

  // Otherwise the exchange moves the exception down.
  lemma SiftStep<T(!new)>(s: seq<T>, lo: int, hi: int, r: int, c: int, cmp: (T, T) -> int)
    requires Preorder(cmp) && HeapBut(s, lo, hi, r, cmp) && lo <= r && Greater(s, r, hi, c, cmp) && cmp(s[r], s[c]) < 0
    ensures HeapBut(Swapped(s, r, c), lo, hi, c, cmp)
  {
    var t := Swapped(s, r, c);
    forall d | 1 <= d < hi && lo <= (d - 1) / 2 != c ensures Above(t, d, cmp) {
      if (d - 1) / 2 == r {
        assert cmp(s[d], s[c]) <= 0;
      } else if d == r {
        assert Over(s, r, c, cmp);
      } else {
        assert Above(s, d, cmp);
      }
    }
    forall d | 1 <= d < hi && (d - 1) / 2 == c ensures Over(t, c, d, cmp) {
      assert Above(s, d, cmp);
    }
  }

  // The first element of a heap is the greatest.
  lemma {:induction false} HeapTop<T(!new)>(s: seq<T>, hi: int, k: int, cmp: (T, T) -> int)
    requires Preorder(cmp) && Heap(s, 0, hi, cmp) && 0 <= k < hi
    ensures cmp(s[k], s[0]) <= 0
    decreases k
  {
    if k > 0 {
      assert Above(s, k, cmp);
      HeapTop(s, hi, (k - 1) / 2, cmp);
    } else {
      assert cmp(s[0], s[0]) < 0 <==> cmp(s[0], s[0]) > 0;
    }
  }

  // The elements from `m` on are in place: sorted, and none before is greater.
  ghost predicate Placed<T>(s: seq<T>, m: int, cmp: (T, T) -> int) {
    && 0 <= m <= |s| && Sorted(s[m..], cmp)
    && forall x, y :: 0 <= x < m <= y < |s| ==> cmp(s[x], s[y]) <= 0
  }

  lemma PlacedNext<T(!new)>(s: seq<T>, m: int, cmp: (T, T) -> int)
    requires Preorder(cmp) && Heap(s, 0, m, cmp) && Placed(s, m, cmp) && m > 0
    ensures Placed(Swapped(s, 0, m - 1), m - 1, cmp) && HeapBut(Swapped(s, 0, m - 1), 0, m - 1, 0, cmp)
  {
    var t := Swapped(s, 0, m - 1);
    forall k | 0 <= k < m ensures cmp(s[k], s[0]) <= 0 {
      HeapTop(s, m, k, cmp);
    }
    var u, v := t[m - 1..], s[m..];
    forall i, j | 0 <= i < j < |u| ensures cmp(u[i], u[j]) <= 0 {
      assert u[j] == s[m - 1 + j] == v[j - 1];
      if i > 0 {
        assert u[i] == v[i - 1];
      }
    }
    forall d | 1 <= d < m - 1 && 0 != (d - 1) / 2 ensures Above(t, d, cmp) {
      assert Above(s, d, cmp);
    }
  }

  // Rearranging the elements before `m` leaves the others in place.
  lemma PlacedKept<T>(s: seq<T>, t: seq<T>, m: int, cmp: (T, T) -> int)
    requires Placed(s, m, cmp) && |t| == |s| && t[m..] == s[m..] && multiset(t[..m]) == multiset(s[..m])
    ensures Placed(t, m, cmp)
  {
    forall x, y | 0 <= x < m <= y < |t| ensures cmp(t[x], t[y]) <= 0 {
      assert t[..m][x] in multiset(t[..m]);
      assert t[x] in s[..m];
      var k :| 0 <= k < m && s[..m][k] == t[x];
      assert t[y] == t[m..][y - m] == s[y];
    }
  }

  lemma AllPlaced<T>(s: seq<T>, m: int, cmp: (T, T) -> int)
    requires Placed(s, m, cmp) && m <= 1
    ensures Sorted(s, cmp)
  {
    forall i, j | 0 <= i < j < |s| ensures cmp(s[i], s[j]) <= 0 {
      if i >= m {
        assert s[i] == s[m..][i - m] && s[j] == s[m..][j - m];
      }
    }
  }

  // The offset in bytes of element `k`.
  ghost function Off(size: nat, k: int): int {
    size * k
  }

  lemma Gap(size: nat, x: int, y: int)
    requires size > 0
    ensures x < y ==> Off(size, x) < Off(size, y)
    ensures x == y ==> Off(size, x) == Off(size, y)
  {
    assert size * y - size * x == size * (y - x);
  }

  lemma OffLess(size: nat, x: int, y: int)
    requires size > 0
    ensures Off(size, x) < Off(size, y) <==> x < y
  {
    Gap(size, x, y);
    Gap(size, y, x);
  }

  lemma OffIndex(size: nat, x: int)
    requires size > 0
    ensures Off(size, x) / size == x
  {
    var q := size * x / size;
    var r := size * x % size;
    assert size * x == size * q + r;
    assert size * (x - q) == r;
    assert x - q >= 1 ==> size * (x - q) >= size;
    assert x - q <= -1 ==> size * (x - q) <= 0 - size;
  }

  lemma OffSteps(size: nat, k: int)
    ensures Off(size, k) + size == Off(size, k + 1) && Off(size, k) - size == Off(size, k - 1)
    ensures 2 * Off(size, k) + size == Off(size, 2 * k + 1) && 2 * Off(size, k) + 2 * size == Off(size, 2 * k + 2)
    ensures Off(size, 0) == 0
  {
  }

  // `r * 2 + size`, where `r * 2` is an int and may wrap, and the sum is a size_t.
  function LeftChild(r: int, size: int): int {
    (Wrap32(2 * r) + size) % 0x1_0000_0000_0000_0000
  }

  // A wrap looks like an offset far out, which is where a leaf's children would be.
  lemma ChildOffset(r: int, size: int, n: int)
    requires 0 <= r && 0 < size && r + size <= n <= INT_MAX
    ensures LeftChild(r, size) < n <==> 2 * r + size < n
    ensures 2 * r + size < n ==> LeftChild(r, size) == 2 * r + size
  {
  }

  lemma Flip<T(!new)>(x: T, y: T, cmp: (T, T) -> int)
    requires Preorder(cmp)
    ensures cmp(x, y) >= 0 <==> cmp(y, x) <= 0
  {
    assert cmp(x, y) < 0 <==> cmp(y, x) > 0;
  }

  // The two comparisons of the inner loops: the greater child of the node at offset `r`.
  method GreaterChild<T(!new)>(a: array<T>, size: nat, r: int, n: int, cmp: (T, T) -> int, ghost k: int, ghost hi: int)
    returns (c: int, ghost j: int)
    requires Preorder(cmp) && 0 < size && 0 <= hi <= a.Length && n == Off(size, hi) && r == Off(size, k) && 0 <= k
      && 2 * k + 1 < hi
    ensures c == Off(size, j) && c / size == j && Greater(a[..], k, hi, j, cmp)
  {
    hide Off;
    OffSteps(size, k);
    OffSteps(size, hi);
    OffLess(size, 2 * k + 1, hi - 1);
    OffIndex(size, 2 * k + 1);
    OffIndex(size, 2 * k + 2);
    Flip(a[2 * k + 1], a[2 * k + 1], cmp);
    c := 2 * r + size;
    j := 2 * k + 1;
    if c < n - size && cmp(a[c / size], a[(c + size) / size]) < 0 {
      c := c + size;
      j := 2 * k + 2;
      Flip(a[j], a[j], cmp);
    }
  }

  // Lines 1750-1757 and 1763-1769: move the element at offset `i` down to its place among the
  // first `n` bytes.
  method SiftDown<T(!new)>(a: array<T>, size: nat, i: int, n: int, cmp: (T, T) -> int, ghost lo: int, ghost hi: int)
    requires Preorder(cmp) && 0 < size && 0 <= lo < hi <= a.Length && i == Off(size, lo)
      && n == Off(size, hi) <= INT_MAX
    requires HeapBut(a[..], lo, hi, lo, cmp)
    modifies a
    ensures Heap(a[..], lo, hi, cmp)
    ensures multiset(a[..hi]) == old(multiset(a[..hi])) && a[hi..] == old(a[hi..])
  {
    hide HeapBut, Greater, Preorder, LeftChild, Off;
    var r := i;
    ghost var k := lo;
    ChildLess(size, k, hi);
    while LeftChild(r, size) < n
      invariant lo <= k < hi && r == Off(size, k) && HeapBut(a[..], lo, hi, k, cmp)
      invariant LeftChild(r, size) < n <==> 2 * k + 1 < hi
      invariant multiset(a[..hi]) == old(multiset(a[..hi])) && a[hi..] == old(a[hi..])
      decreases hi - k
    {
      var c;
      ghost var j;
      c, j := GreaterChild(a, size, r, n, cmp, k, hi);
      GreaterIn(a[..], k, hi, j, cmp);
      OffIndex(size, k);
      Flip(a[k], a[j], cmp);
      if cmp(a[r / size], a[c / size]) >= 0 {
        SiftDone(a[..], lo, hi, k, j, cmp);
        return;
      }
      SiftStep(a[..], lo, hi, k, j, cmp);
      Exchange(a, r / size, c / size, hi);
      r := c;
      k := j;
      ChildLess(size, k, hi);
    }
    SiftLeaf(a[..], lo, hi, k, cmp);
  }

  // The swap function.
  method Exchange<T>(a: array<T>, i: int, j: int, ghost hi: int)
    requires 0 <= i < hi <= a.Length && 0 <= j < hi
    modifies a
    ensures a[..] == Swapped(old(a[..]), i, j)
    ensures multiset(a[..hi]) == old(multiset(a[..hi])) && a[hi..] == old(a[hi..])
  {
    ghost var s := a[..];
    SwappedKeeps(s, i, j, hi);
    a[i], a[j] := a[j], a[i];
    assert a[..] == Swapped(s, i, j);
    assert a[..hi] == a[..][..hi] && a[hi..] == a[..][hi..] && s[..hi] == old(a[..hi]) && s[hi..] == old(a[hi..]);
  }

  lemma ChildLess(size: nat, k: int, hi: int)
    requires 0 < size && 0 <= k < hi && Off(size, hi) <= INT_MAX
    ensures LeftChild(Off(size, k), size) < Off(size, hi) <==> 2 * k + 1 < hi
  {
    hide Off, LeftChild;
    OffSteps(size, k);
    OffLess(size, k, hi - 1);
    OffLess(size, 2 * k + 1, hi);
    OffLess(size, 0, k + 1);
    OffLess(size, k, 0);
    OffSteps(size, hi);
    OffSteps(size, 0);
    ChildOffset(Off(size, k), size, Off(size, hi));
  }

  lemma GreaterIn<T>(s: seq<T>, r: int, hi: int, c: int, cmp: (T, T) -> int)
    requires Greater(s, r, hi, c, cmp)
    ensures 0 <= r < c < hi <= |s|
  {
  }

  lemma HeapOpen<T>(s: seq<T>, lo: int, hi: int, cmp: (T, T) -> int)
    requires Heap(s, lo + 1, hi, cmp) && 0 <= lo
    ensures HeapBut(s, lo, hi, lo, cmp)
  {
  }

  lemma Leaves<T>(s: seq<T>, cmp: (T, T) -> int)
    ensures Heap(s, |s| / 2, |s|, cmp)
  {
  }

  // Lines 1737-1758: make a heap.
  method Heapify<T(!new)>(a: array<T>, size: nat, cmp: (T, T) -> int)
    requires Preorder(cmp) && 0 < size <= INT_MAX && Off(size, a.Length) <= INT_MAX
    modifies a
    ensures Heap(a[..], 0, a.Length, cmp) && multiset(a[..]) == old(multiset(a[..]))
  {
    hide HeapBut, Preorder, Off;
    var num := a.Length;
    ghost var lo := num / 2 - 1;
    FirstOffset(num, size);
    var i := Wrap32((num / 2 - 1) * size);
    var n := num * size;
    Leaves(a[..], cmp);
    OffLess(size, lo, 0);
    OffSteps(size, 0);
    while i >= 0
      invariant -1 <= lo && (lo >= 0 ==> lo < num) && i == Off(size, lo) && (i < 0 <==> lo < 0)
        && Heap(a[..], lo + 1, num, cmp)
      invariant multiset(a[..]) == old(multiset(a[..]))
      decreases lo
    {
      HeapOpen(a[..], lo, num, cmp);
      ghost var s := a[..];
      SiftDown(a, size, i, n, cmp, lo, num);
      assert a[..num] == a[..] && s[..num] == s;
      OffSteps(size, lo);
      i := i - size;
      lo := lo - 1;
      OffLess(size, lo, 0);
    }
  }

  // Lines 1761-1770, one round: the greatest element goes to the end of the heap, and the
  // heap becomes one element smaller.
  method PlaceTop<T(!new)>(a: array<T>, size: nat, i: int, cmp: (T, T) -> int, ghost m: int)
    requires Preorder(cmp) && 0 < size && Off(size, a.Length) <= INT_MAX && 1 < m <= a.Length && i == Off(size, m - 1)
    requires Heap(a[..], 0, m, cmp) && Placed(a[..], m, cmp)
    modifies a
    ensures Heap(a[..], 0, m - 1, cmp) && Placed(a[..], m - 1, cmp) && multiset(a[..]) == old(multiset(a[..]))
  {
    hide HeapBut, Preorder, Sorted, Placed, Off;
    OffIndex(size, m - 1);
    OffLess(size, m - 1, a.Length);
    OffSteps(size, 0);
    PlacedNext(a[..], m, cmp);
    ghost var s := a[..];
    Exchange(a, 0, i / size, a.Length);
    ghost var t := a[..];
    assert s[..a.Length] == s && a[..a.Length] == t;
    Slices(a, m - 1);
    hide Swapped;
    SiftDown(a, size, 0, i, cmp, 0, m - 1);
    Slices(a, m - 1);
    Rearranged(s, t, a[..], m - 1);
    PlacedKept(t, a[..], m - 1, cmp);
  }

  // Lines 1732-1770.
  method Sort<T(!new)>(a: array<T>, size: nat, cmp: (T, T) -> int)
    requires Preorder(cmp) && 0 < size <= INT_MAX && Off(size, a.Length) <= INT_MAX
    modifies a
    ensures Sorted(a[..], cmp) && multiset(a[..]) == old(multiset(a[..]))
  {
    hide HeapBut, Preorder, Sorted, Placed, Off;
    Heapify(a, size, cmp);
    ghost var m := a.Length;
    FirstOffset(a.Length, size);
    OffSteps(size, m);
    var i := a.Length * size - size;
    AllButNone(a[..], cmp);
    OffSteps(size, 0);
    OffLess(size, 0, m - 1);
    while i > 0
      invariant 0 <= m <= a.Length && i == Off(size, m - 1) && (i > 0 <==> m > 1) && Heap(a[..], 0, m, cmp)
        && Placed(a[..], m, cmp)
      invariant multiset(a[..]) == old(multiset(a[..]))
      decreases m
    {
      PlaceTop(a, size, i, cmp, m);
      m := m - 1;
      OffSteps(size, m);
      i := i - size;
      OffLess(size, 0, m - 1);
    }
    AllPlaced(a[..], m, cmp);
  }

  lemma Slices<T>(a: array<T>, m: nat)
    requires m <= a.Length
    ensures a[..m] == a[..][..m] && a[m..] == a[..][m..]
  {
  }

  lemma WrapSmall(x: int)
    requires -0x8000_0000 <= x <= INT_MAX
    ensures Wrap32(x) == x
  {
  }

  lemma Commute(x: int, y: int)
    ensures x * y == y * x
  {
  }

  lemma FirstOffset(num: nat, size: nat)
    requires 0 < size <= INT_MAX && Off(size, num) <= INT_MAX
    ensures Wrap32((num / 2 - 1) * size) == Off(size, num / 2 - 1) && num * size == Off(size, num)
  {
    hide Wrap32;
    Commute(num, size);
    Commute(num / 2 - 1, size);
    Gap(size, num / 2 - 1, num);
    Gap(size, -1, num / 2 - 1);
    WrapSmall(size * (num / 2 - 1));
  }

  lemma AllButNone<T>(s: seq<T>, cmp: (T, T) -> int)
    ensures Placed(s, |s|, cmp)
  {
  }

  lemma Rearranged<T>(s: seq<T>, t: seq<T>, u: seq<T>, m: nat)
    requires multiset(t) == multiset(s) && m <= |t| == |u| && multiset(u[..m]) == multiset(t[..m]) && u[m..] == t[m..]
    ensures multiset(u) == multiset(s)
  {
    assert u == u[..m] + u[m..] && t == t[..m] + t[m..];
  }
}
