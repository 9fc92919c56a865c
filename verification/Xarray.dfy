/**
 The extensible arrays of kernel/linux_xarray.c, which are radix trees with 32-bit indices.
 The lock around each call is left to the caller, as in the functions with two underscores.
 */
module Xarray {
  import opened Bits
  import opened RadixTree
  import opened Radix

  const UINT32_MAX := 0xffff_ffff

  // The least index not in use is `i`.
  ghost predicate LeastFree<V>(m: map<int, V>, i: int) {
    i !in m && forall j :: 0 <= j < i ==> j in m
  }

  // The outcome of an allocation of an index up to `mask`: the least free index, or an error
  // that leaves the entries as they were. Memory is the complaint when every index is taken,
  // or when there really was none.
  ghost predicate Allocated<V>(r: Outcome, index: int, ptr: Slot<V>, mask: int,
      before: map<int, V>, after: map<int, V>, refused: bool) {
    && (r == Failed(EInval) <==> ptr == Nil)
    && (r == Done ==>
        ptr.Item? && 0 <= index <= mask && LeastFree(before, index) && after == before[index := ptr.value])
    && (r != Done ==> after == before)
    && (r == Failed(ENoMem) ==> refused || forall j :: 0 <= j <= mask ==> j in before)
    && r != Failed(EExist)
  }

  lemma NextIndex(i: int, mask: int)
    requires 0 <= i <= mask <= UINT32_MAX && LowMask(mask)
    ensures And((i + 1) % (UINT32_MAX + 1), mask) == if i == mask then 0 else i + 1
  {
    AndLowMask((i + 1) % (UINT32_MAX + 1), mask);
    if i < mask {
      RemainderIs(i + 1, UINT32_MAX + 1, 0, i + 1);
      RemainderIs(i + 1, mask + 1, 0, i + 1);
    } else if mask < UINT32_MAX {
      RemainderIs(i + 1, UINT32_MAX + 1, 0, i + 1);
      RemainderIs(i + 1, mask + 1, 1, 0);
    }
  }

  // The answer a cyclic allocation is meant to give: the least free index from `next` on, or
  // if there is none up to `mask` the least free index of all.
  ghost predicate CyclicAnswer<V>(m: map<int, V>, next: int, mask: int, i: int) {
    && 0 <= i <= mask && i !in m
    && if forall j :: next <= j <= mask ==> j in m then LeastFree(m, i)
       else next <= i && forall j :: next <= j < i ==> j in m
  }

  // The least free index of all is that answer exactly when there is none below `next`, or
  // none from `next` on.
  lemma CyclicIff<V>(m: map<int, V>, next: int, mask: int, i: int)
    requires 0 <= next && 0 <= i <= mask && LeastFree(m, i)
    ensures CyclicAnswer(m, next, mask, i) <==>
      (forall j :: 0 <= j < next ==> j in m) || (forall j :: next <= j <= mask ==> j in m)
  {
    if CyclicAnswer(m, next, mask, i) && !(forall j :: next <= j <= mask ==> j in m) {
      assert forall j :: 0 <= j < next ==> j in m;
    }
  }

  // An empty array, asked to go on from index 1, gives index 0.
  method FirstAgain<V>(ptr: V, mask: int) returns (xa: XArray<V>, r: Outcome, pindex: int)
    requires 1 <= mask <= UINT32_MAX && LowMask(mask)
    ensures r == Done ==> Entries(xa.root.shape) == map[pindex := ptr] && pindex == 0
    ensures r == Done ==> !CyclicAnswer<V>(map[], 1, mask, pindex)
  {
    xa := new XArray();
    var next;
    ghost var tries;
    r, pindex, next, tries := xa.AllocCyclic(Item(ptr), mask, 1);
    var none: map<int, V> := map[];
    assert 0 !in none && 1 !in none;
  }

  class XArray<V> {
    const root: Root<V>

    constructor ()
      ensures root.Valid() && Entries(root.shape) == map[] && fresh(root) && root.owned == {}
    {
      root := new Root();
    }

    // Lines 79-103.
    method Alloc(ptr: Slot<V>, mask: int) returns (r: Outcome, pindex: int)
      requires root.Valid() && !ptr.Sub? && 0 <= mask <= UINT32_MAX
      modifies root, root.owned
      ensures root.Valid() && fresh(root.owned - old(root.owned))
      ensures Allocated(r, pindex, ptr, mask, old(Entries(root.shape)), Entries(root.shape),
          root.refused > old(root.refused))
    {
      hide Entries, Root<V>.Working;
      pindex := 0;
      while true
        invariant 0 <= pindex <= mask && root.Valid() && fresh(root.owned - old(root.owned))
        invariant Entries(root.shape) == old(Entries(root.shape)) && root.refused >= old(root.refused)
        invariant forall j :: 0 <= j < pindex ==> j in Entries(root.shape)
        decreases mask - pindex
      {
        r := root.Insert(pindex, ptr);
        if r != Failed(EExist) {
          return;
        }
        if pindex == mask {
          return Failed(ENoMem), pindex;
        }
        pindex := pindex + 1;
      }
    }

    // Lines 123-154. The index to go on from is set to 0 at the start, whatever it was, so the
    // answer is the least free index here too.
    method AllocCyclic(ptr: Slot<V>, mask: int, next: int)
      returns (r: Outcome, pindex: int, pnextIndex: int, ghost tries: int)
      requires root.Valid() && !ptr.Sub? && 0 <= mask <= UINT32_MAX && LowMask(mask) && 0 <= next <= UINT32_MAX
      modifies root, root.owned
      ensures root.Valid() && fresh(root.owned - old(root.owned))
      ensures Allocated(r, pindex, ptr, mask, old(Entries(root.shape)), Entries(root.shape),
          root.refused > old(root.refused))
      ensures pnextIndex == pindex && 1 <= tries <= 2 * (mask + 1)
      ensures r == Done ==> tries == pindex + 1
      ensures r == Failed(ENoMem) && root.refused == old(root.refused) ==> tries == 2 * (mask + 1)
    {
      hide Entries, Root<V>.Working;
      var timeout := 1;
      pnextIndex := 0;
      tries := 0;
      while true
        invariant 0 <= pnextIndex <= mask && root.Valid() && fresh(root.owned - old(root.owned)) && 0 <= timeout <= 1
        invariant Entries(root.shape) == old(Entries(root.shape)) && root.refused >= old(root.refused)
        invariant forall j :: 0 <= j < (if timeout == 1 then pnextIndex else mask + 1) ==> j in Entries(root.shape)
        invariant tries == pnextIndex + (if timeout == 1 then 0 else mask + 1)
        decreases timeout, mask - pnextIndex
      {
        r := root.Insert(pnextIndex, ptr);
        tries := tries + 1;
        if r != Failed(EExist) {
          break;
        }
        if pnextIndex == mask {
          timeout := timeout - 1;
          if timeout < 0 {
            r := Failed(ENoMem);
            break;
          }
        }
        NextIndex(pnextIndex, mask);
        pnextIndex := And((pnextIndex + 1) % (UINT32_MAX + 1), mask);
      }
      pindex := pnextIndex;
    }

    // Lines 204-226: what was stored before, or an error.
    method Store(index: int, ptr: Slot<V>) returns (r: Outcome, previous: Slot<V>)
      requires root.Valid() && !ptr.Sub? && 0 <= index <= UINT32_MAX
      modifies root, root.owned
      ensures root.Valid() && fresh(root.owned - old(root.owned))
      ensures r == Done ==> previous == old(root.Stored(index))
      ensures r == Done && ptr == Nil ==> Entries(root.shape) == old(Entries(root.shape)) - {index}
      ensures r == Done && ptr != Nil ==> Entries(root.shape) == old(Entries(root.shape))[index := ptr.value]
      ensures r != Done ==> r == Failed(ENoMem) && Entries(root.shape) == old(Entries(root.shape))
    {
      hide Entries, Root<V>.Working, Root<V>.Stored;
      r, previous := root.Store(index, ptr);
    }

    // Lines 34-40.
    method Erase(index: int) returns (previous: Slot<V>)
      requires root.Valid() && 0 <= index <= UINT32_MAX
      modifies root, root.owned
      ensures root.Valid() && root.owned <= old(root.owned)
      ensures previous == old(root.Stored(index)) && Entries(root.shape) == old(Entries(root.shape)) - {index}
    {
      hide Entries, Root<V>.Working, Root<V>.Stored;
      previous := root.Delete(index);
    }

    // Lines 280-290.
    method IsEmpty() returns (empty: bool)
      requires root.Valid()
      ensures empty <==> Entries(root.shape) == map[]
    {
      hide Root<V>.Working;
      var found, index, item := root.IterFind(0);
      empty := !found;
      if found {
        assert index in Entries(root.shape);
      } else {
        assert forall x :: x in Entries(root.shape) ==> root.Stored(x) != Nil;
      }
    }

    // Lines 306-330: the first entry from `pindex` on, or after it.
    method Next(pindex: int, notFirst: bool) returns (entry: Slot<V>, index: int)
      requires root.Valid() && 0 <= pindex <= ULONG_MAX
      ensures entry == Nil ==> index == pindex && forall x :: pindex < x ==> x !in Entries(root.shape)
      ensures entry == Nil && !notFirst ==> pindex !in Entries(root.shape)
      ensures entry != Nil ==> index in Entries(root.shape) && entry == Item(Entries(root.shape)[index])
      ensures entry != Nil ==> (if notFirst then pindex < index else pindex <= index)
      ensures entry != Nil ==>
          forall x :: pindex < x < index || (!notFirst && x == pindex < index) ==> x !in Entries(root.shape)
    {
      hide Root<V>.Working;
      index := pindex;
      var cursor := pindex;
      if notFirst {
        cursor := (cursor + 1) % (ULONG_MAX + 1);
        if cursor == 0 {
          return Nil, index;
        }
      }
      var found, at, item := root.IterFind(cursor);
      assert forall x :: x in Entries(root.shape) ==> root.Stored(x) != Nil;
      if found {
        entry, index := item, at;
      } else {
        entry := Nil;
      }
    }

    // What the loop `xa_for_each` of kernel/linux_xarray.h, lines 65-67, goes through: every
    // entry once, in ascending order.
    method ForEach() returns (visited: seq<int>)
      requires root.Valid()
      ensures forall i, j :: 0 <= i < j < |visited| ==> visited[i] < visited[j]
      ensures forall x :: x in visited <==> x in Entries(root.shape)
    {
      hide Root<V>.Working;
      visited := [];
      var entry: Slot<V> := Nil;
      var index := 0;
      while true
        invariant 0 <= index < INDEX_LIMIT
        invariant if entry == Nil then visited == [] && index == 0 else visited != [] && visited[|visited| - 1] == index
        invariant forall i, j :: 0 <= i < j < |visited| ==> visited[i] < visited[j]
        invariant forall x :: x in visited ==> x in Entries(root.shape)
        invariant forall x :: x in Entries(root.shape) && (x < index || (entry != Nil && x == index)) ==> x in visited
        decreases entry == Nil, INDEX_LIMIT - index
      {
        entry, index := Next(index, entry != Nil);
        if entry == Nil {
          break;
        }
        visited := visited + [index];
      }
    }

    // Lines 263-271: delete every entry, and with the last one the last node goes.
    method Destroy()
      requires root.Valid()
      modifies root, root.owned
      ensures root.Valid() && Entries(root.shape) == map[] && root.rnode == null && root.owned == {}
    {
      hide Root<V>.Working, Root<V>.Stored, Entries;
      var start := 0;
      KeysStored();
      while true
        invariant root.Valid() && 0 <= start <= INDEX_LIMIT && root.owned <= old(root.owned)
        invariant forall x :: x in Entries(root.shape) ==> x >= start
        decreases INDEX_LIMIT + 1 - start
      {
        var found, index, item := root.IterFind(start);
        KeysStored();
        if !found {
          assert forall x :: x !in Entries(root.shape);
          break;
        }
        var deleted := root.Delete(index);
        start := index + 1;
      }
      NothingLeft();
    }

    lemma KeysStored()
      ensures forall x :: x in Entries(root.shape) <==> root.Stored(x) != Nil
      ensures forall x :: x in Entries(root.shape) ==> 0 <= x
    {
    }

    lemma NothingLeft()
      requires root.Valid() && forall x :: x !in Entries(root.shape)
      ensures Entries(root.shape) == map[] && root.rnode == null && root.owned == {}
    {
      EmptyIff(root.shape, root.rnode, root.height);
    }
  }
}
