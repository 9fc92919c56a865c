/**
 The id allocator without pointers, kernel/linux_idr.c from line 849 on: an id tree whose
 values are chunks of `IDA_BITMAP_BITS` bits each.
 */
module Ida {
  import opened Digits
  import opened IdrTree
  import opened Idr

  const IDA_BITMAP_BITS := 960   // with 64-bit words: fifteen of sixteen hold bits

  class IdaBitmap {
    var nrBusy: int
    var bitmap: seq<bool>
    ghost var home: int   // the place in the tree, or -1

    constructor ()
      ensures home == -1
    {
      home := -1;
    }
  }

  // The chunks of a tree by their places.
  datatype Chunk = Chunk(at: IdaBitmap, bits: seq<bool>)

  type Store = map<int, Chunk>

  function NoIds(): (r: seq<bool>)
    ensures |r| == IDA_BITMAP_BITS && forall i :: 0 <= i < IDA_BITMAP_BITS ==> !r[i]
  {
    seq(IDA_BITMAP_BITS, _ => false)
  }

  ghost function BusySet(bits: seq<bool>): set<int> {
    set i | 0 <= i < |bits| && bits[i]
  }

  ghost function Busy(bits: seq<bool>): int {
    |BusySet(bits)|
  }

  ghost predicate IdTaken(s: Store, id: int) {
    var x, i := id / IDA_BITMAP_BITS, id % IDA_BITMAP_BITS;
    x in s && |s[x].bits| == IDA_BITMAP_BITS && s[x].bits[i]
  }

  // What a user sees: the ids handed out.
  ghost function Taken(s: Store): set<int> {
    set id | 0 <= id <= INT_MAX && IdTaken(s, id)
  }

  // A leaf slot holds a chunk, and its bit is set exactly when the chunk is full.
  ghost predicate ChunkAt(t: Shape<IdaBitmap>, s: Store, x: int) {
    && LeafSlot(t, x) == (if x in s then Item(s[x].at) else Nil)
    && (x in s ==> 0 <= x && |s[x].bits| == IDA_BITMAP_BITS)
    && (LeafBit(t, x) <==> x in s && Full(s[x].bits))
  }

  ghost predicate StoreOk(t: Shape<IdaBitmap>, s: Store) {
    forall x {:trigger ChunkAt(t, s, x)} :: ChunkAt(t, s, x)
  }

  // The number of set bits tells whether a chunk is full.
  lemma {:induction false} BusyFull(bits: seq<bool>)
    ensures 0 <= Busy(bits) <= |bits| && (Busy(bits) == |bits| <==> Full(bits))
  {
    if bits != [] {
      var n := |bits| - 1;
      var rest := bits[..n];
      BusyFull(rest);
      assert BusySet(bits) == if bits[n] then BusySet(rest) + {n} else BusySet(rest);
      assert Full(bits) <==> bits[n] && Full(rest);
    }
  }

  lemma BusySetBit(bits: seq<bool>, i: int)
    requires 0 <= i < |bits| && !bits[i]
    ensures Busy(bits[i := true]) == Busy(bits) + 1
  {
    assert BusySet(bits[i := true]) == BusySet(bits) + {i};
  }

  lemma BusyClearBit(bits: seq<bool>, i: int)
    requires 0 <= i < |bits| && bits[i]
    ensures Busy(bits[i := false]) == Busy(bits) - 1
  {
    assert BusySet(bits[i := false]) == BusySet(bits) - {i};
  }

  lemma BusyNone(bits: seq<bool>)
    requires Busy(bits) == 0
    ensures forall i :: 0 <= i < |bits| ==> !bits[i]
  {
    assert forall i :: 0 <= i < |bits| && bits[i] ==> i in BusySet(bits);
  }

  // Line 965: an empty chunk is installed where there is none.
  lemma InstallKeeps<V>(t: Shape<V>, top: Layer?<V>, h: int, x: int, v: Slot<V>)
    requires Tree(t, top, h) && Key(0, x / IDR_SIZE) in t && v.Item?
    requires LeafSlot(t, x) == Nil && !LeafBit(t, x)
    ensures Sized(t[Key(0, x / IDR_SIZE)].data) && Tree(PutSlot(t, x, v), top, h)
    ensures forall y :: LeafBit(PutSlot(t, x, v), y) == LeafBit(t, y)
    ensures forall y :: LeafSlot(PutSlot(t, x, v), y) == if y == x then v else LeafSlot(t, y)
  {
    var k := Key(0, x / IDR_SIZE);
    var s := x % IDR_SIZE;
    assert NodeOk(t, k, h, NO_KEY) && SlotOk(t, k, s, -1);
    var t' := PutSlot(t, x, v);
    assert Occupied(t'[k].data) == Occupied(t[k].data) + {s};
    forall j {:trigger NodeOk(t', j, h, NO_KEY)} | j in t' ensures NodeOk(t', j, h, NO_KEY) {
      assert NodeOk(t, j, h, NO_KEY);
    }
    forall j, r {:trigger SlotOk(t', j, r, -1)} | j in t' && 0 <= r < IDR_SIZE ensures SlotOk(t', j, r, -1) {
      assert SlotOk(t, j, r, -1) && NodeOk(t, j, h, NO_KEY);
    }
  }

  lemma InstallStore(t: Shape<IdaBitmap>, t': Shape<IdaBitmap>, s: Store, x: int, c: IdaBitmap)
    requires StoreOk(t, s) && x >= 0 && !LeafBit(t, x) && LeafSlot(t, x) == Nil && LeafSlot(t', x) == Item(c)
    requires forall y :: LeafBit(t', y) == LeafBit(t, y)
    requires forall y :: y != x ==> LeafSlot(t', y) == LeafSlot(t, y)
    ensures StoreOk(t', s[x := Chunk(c, NoIds())]) && Taken(s[x := Chunk(c, NoIds())]) == Taken(s)
  {
    var s' := s[x := Chunk(c, NoIds())];
    assert ChunkAt(t, s, x);
    assert !NoIds()[0];
    forall y {:trigger ChunkAt(t', s', y)} ensures ChunkAt(t', s', y) {
      assert ChunkAt(t, s, y);
    }
    forall id ensures IdTaken(s', id) == IdTaken(s, id) {
    }
  }

  lemma StoreStable(t: Shape<IdaBitmap>, t': Shape<IdaBitmap>, s: Store)
    requires StoreOk(t, s) && SameLeaves(t, t')
    ensures StoreOk(t', s)
  {
    forall y {:trigger ChunkAt(t', s, y)} ensures ChunkAt(t', s, y) {
      assert ChunkAt(t, s, y);
    }
  }

  // Chunks whose leaf bits are set have no id left.
  lemma CoveredTaken(t: Shape<IdaBitmap>, s: Store, a: int, b: int, x: int)
    requires StoreOk(t, s) && Covered(t, a, b) && a <= x / IDA_BITMAP_BITS < b
    ensures IdTaken(s, x)
  {
    assert ChunkAt(t, s, x / IDA_BITMAP_BITS);
  }

  // The bit of one id changes, in a chunk that is there.
  ghost function PutId(s: Store, x: int, i: int, b: bool): Store
    requires x in s && 0 <= i < |s[x].bits|
  {
    s[x := s[x].(bits := s[x].bits[i := b])]
  }

  lemma PutIdTaken(s: Store, x: int, i: int, b: bool)
    requires x in s && 0 <= i < |s[x].bits| == IDA_BITMAP_BITS && 0 <= x * IDA_BITMAP_BITS + i <= INT_MAX
    ensures Taken(PutId(s, x, i, b)) ==
        if b then Taken(s) + {x * IDA_BITMAP_BITS + i} else Taken(s) - {x * IDA_BITMAP_BITS + i}
  {
    var s' := PutId(s, x, i, b);
    forall y ensures IdTaken(s', y) == if y == x * IDA_BITMAP_BITS + i then b else IdTaken(s, y) {
    }
  }

  // A bit has been set, and the leaf's bit with it if the chunk is full now.
  lemma PutIdStore(t: Shape<IdaBitmap>, t': Shape<IdaBitmap>, s: Store, x: int, i: int, b: bool)
    requires StoreOk(t, s) && x in s && 0 <= i < |s[x].bits|
    requires forall y :: LeafSlot(t', y) == LeafSlot(t, y)
    requires forall y :: LeafBit(t', y) == if y == x then Full(s[x].bits[i := b]) else LeafBit(t, y)
    ensures StoreOk(t', PutId(s, x, i, b))
  {
    forall y {:trigger ChunkAt(t', PutId(s, x, i, b), y)} ensures ChunkAt(t', PutId(s, x, i, b), y) {
      assert ChunkAt(t, s, y);
    }
  }

  // Filling the leaf's slot with the chunk it holds sets the bit and no more.
  lemma MarkChunk(t: Shape<IdaBitmap>, top: Layer?<IdaBitmap>, h: int, s: Store, x: int)
    requires Tree(t, top, h) && StoreOk(t, s) && x in s && !LeafBit(t, x) && PathKey(x, 0) in t
    ensures Sized(t[PathKey(x, 0)].data) && PathKey(x, 0) == Key(0, x / IDR_SIZE)
    ensures var t' := PutBit(t, PathKey(x, 0), x % IDR_SIZE, true);
      && TreeX(t', top, h, x, NO_KEY) && ExactBut(t', h, x, 1)
      && (forall y :: LeafSlot(t', y) == LeafSlot(t, y)) && (forall y :: LeafBit(t', y) == (y == x || LeafBit(t, y)))
  {
    LeafBitAt(t, x);
    assert ChunkAt(t, s, x);
    FillKeeps(t, top, h, x, LeafSlot(t, x));
    var d := t[PathKey(x, 0)].data;
    assert d.ary[x % IDR_SIZE := LeafSlot(t, x)] == d.ary;
    assert FillLeaf(t, x, LeafSlot(t, x)) == PutBit(t, PathKey(x, 0), x % IDR_SIZE, true);
  }

  lemma BusyEmpty()
    ensures Busy(NoIds()) == 0
  {
    assert BusySet(NoIds()) == {};
  }

  lemma FreePlace(t: Shape<IdaBitmap>, s: Store, x: int)
    requires StoreOk(t, s)
    ensures ChunkAt(t, s, x)
  {
  }

  ghost predicate TakenTo(s: Store, a: int, b: int) {
    forall id {:trigger IdTaken(s, id)} :: a <= id < b ==> IdTaken(s, id)
  }

  lemma TakenBelow(s: Store, a: int, b: int)
    requires TakenTo(s, a, b) && 0 <= a
    ensures forall y :: a <= y < b && y <= INT_MAX ==> y in Taken(s)
    ensures b <= INT_MAX && !IdTaken(s, b) ==> b !in Taken(s)
  {
    assert forall y :: a <= y < b ==> IdTaken(s, y);
  }

  // The ids of chunk `x` from `offset` up to its next clear bit are taken.
  lemma ChunkIds(s0: Store, s: Store, x: int, c: IdaBitmap, a: int, offset: int)
    requires x in s && |s[x].bits| == IDA_BITMAP_BITS && !Full(s[x].bits) && 0 <= offset < IDA_BITMAP_BITS
      && s[x].at == c
    requires TakenTo(s0, a, x * IDA_BITMAP_BITS + offset)
    requires if x in s0 then s == s0 else s == s0[x := Chunk(c, NoIds())]
    ensures var m := NextClear(s[x].bits, offset);
      && TakenTo(s, a, x * IDA_BITMAP_BITS + m)
      && (m < IDA_BITMAP_BITS ==> !IdTaken(s, x * IDA_BITMAP_BITS + m))
      && (m == IDA_BITMAP_BITS ==> offset > 0 && s == s0)
  {
    var m := NextClear(s[x].bits, offset);
    forall y {:trigger IdTaken(s, y)} | a <= y < x * IDA_BITMAP_BITS + m ensures IdTaken(s, y) {
      assert y < x * IDA_BITMAP_BITS + offset ==> IdTaken(s0, y);
    }
  }

  // The outcome of an allocation from `start` on: the least free id, or an error that leaves
  // the ids as they were, `ENoSpc` when none is free.
  ghost predicate AllocatedFrom(r: Result, start: int, before: set<int>, after: set<int>) {
    match r
    case Ok(id) => 0 <= start <= id <= INT_MAX && id !in before && after == before + {id}
      && forall y :: start <= y < id ==> y in before
    case Err(ENoSpc) => after == before && forall y :: start <= y <= INT_MAX ==> y in before
    case Err(e) => after == before && e == EAgain
  }

  lemma TakenAt(s: Store, id: int)
    requires 0 <= id <= INT_MAX
    ensures id in Taken(s) <==> IdTaken(s, id)
    ensures id !in Taken(s) ==> Taken(s) - {id} == Taken(s)
  {
  }

  // A place with room loses nothing by having its leaf bit cleared.
  lemma Unmarked(t: Shape<IdaBitmap>, t': Shape<IdaBitmap>, s: Store, x: int)
    requires StoreOk(t, s) && (x in s ==> !Full(s[x].bits))
    requires forall y :: LeafSlot(t', y) == LeafSlot(t, y)
    requires forall y :: LeafBit(t', y) <==> y != x && LeafBit(t, y)
    ensures StoreOk(t', s)
  {
    forall y {:trigger ChunkAt(t', s, y)} ensures ChunkAt(t', s, y) {
      assert ChunkAt(t, s, y);
    }
  }

  lemma DropStore(t: Shape<IdaBitmap>, t1: Shape<IdaBitmap>, t': Shape<IdaBitmap>, s: Store, x: int)
    requires StoreOk(t, s) && x in s && Busy(s[x].bits) == 0 && GivenUp(t1, t', x)
    requires forall y :: LeafSlot(t1, y) == LeafSlot(t, y)
    requires forall y :: LeafBit(t1, y) == (y == x || LeafBit(t, y))
    ensures StoreOk(t', s - {x}) && Taken(s - {x}) == Taken(s)
  {
    BusyNone(s[x].bits);
    forall y {:trigger ChunkAt(t', s - {x}, y)} ensures ChunkAt(t', s - {x}, y) {
      assert ChunkAt(t, s, y);
    }
    forall id ensures IdTaken(s - {x}, id) == IdTaken(s, id) {
    }
  }

  // Line 1034: the leaf's own bit goes too; its slot stays occupied.
  lemma ClearLeaf<V>(t: Shape<V>, top: Layer?<V>, h: int, x: int)
    requires TreeX(t, top, h, x, NO_KEY) && ClearAbove(t, h, x, 1) && PathKey(x, 0) in t
    requires LeafBit(t, x) ==> LeafSlot(t, x) != Nil
    ensures Sized(t[PathKey(x, 0)].data)
    ensures var t' := PutBit(t, PathKey(x, 0), x % IDR_SIZE, false);
      && Tree(t', top, h)
      && (forall y :: LeafSlot(t', y) == LeafSlot(t, y)) && (forall y :: LeafBit(t', y) <==> y != x && LeafBit(t, y))
  {
    var k := PathKey(x, 0);
    var d := x % IDR_SIZE;
    LeafBitAt(t, x);
    assert NodeOk(t, k, h, NO_KEY) && SlotOk(t, k, d, x);
    var t' := PutBit(t, k, d, false);
    assert Occupied(t'[k].data) == Occupied(t[k].data);
    assert !t'[k].data.bitmap[d];
    assert !Full(t'[k].data.bitmap);
    forall j {:trigger NodeOk(t', j, h, NO_KEY)} | j in t' ensures NodeOk(t', j, h, NO_KEY) {
      assert NodeOk(t, j, h, NO_KEY);
    }
    forall j, s {:trigger SlotOk(t', j, s, x)} | j in t' && 0 <= s < IDR_SIZE ensures SlotOk(t', j, s, x) {
      assert SlotOk(t, j, s, x) && NodeOk(t, j, h, NO_KEY);
      if j.level > 0 && ChildKey(j, s) == k {
        assert j == PathKey(x, 1);
      }
    }
    assert ClearAbove(t', h, x, 0);
    ClearDone(t', top, h, x, NO_KEY);
  }

  // The outcome of an allocation in [start, max]: the least free id there, or `ENoSpc` when
  // there is none.
  ghost predicate AllocatedIn(r: Result, start: int, max: int, before: set<int>, after: set<int>) {
    match r
    case Ok(id) => start <= id <= max && id !in before && after == before + {id}
      && forall y :: start <= y < id ==> y in before
    case Err(e) => e == ENoSpc && after == before && forall y :: start <= y <= max ==> y in before
  }

  class Ida {
    const idr: Idr<IdaBitmap>
    var freeBitmap: IdaBitmap?
    ghost var store: Store
    ghost var chunks: set<IdaBitmap>
    ghost var dropped: set<IdaBitmap>   // those given back to the system
    ghost var refused: nat   // how often the system has refused a chunk

    constructor ()
      ensures Valid() && Taken(store) == {} && fresh(idr) && idr.owned == {} && chunks == {}
    {
      idr := new Idr();
      freeBitmap, store, chunks, dropped, refused := null, map[], {}, {}, 0;
      new;
      assert forall x {:trigger ChunkAt(idr.shape, store, x)} :: ChunkAt(idr.shape, store, x);
    }

    // A chunk is where the store says, and counts its set bits.
    ghost predicate Mirrors()
      reads this`store, this`chunks, chunks
    {
      forall x {:trigger store[x]} :: x in store ==>
        var c := store[x].at;
        x >= 0 && c in chunks && c.home == x && c.bitmap == store[x].bits && c.nrBusy == Busy(store[x].bits)
    }

    // Every chunk is in one place: at home in the tree, kept as a spare, or given back.
    ghost predicate SpareOk()
      reads this`freeBitmap, this`chunks, this`dropped, this`store, chunks
    {
      SpareBut(null)
    }

    // The same, but for a chunk at hand.
    ghost predicate SpareBut(b: IdaBitmap?)
      reads this`freeBitmap, this`chunks, this`dropped, this`store, chunks
    {
      && (freeBitmap != null ==> freeBitmap in chunks && freeBitmap.home == -1 && freeBitmap !in dropped)
      && (b != null ==> b in chunks && b.home == -1 && b != freeBitmap && b !in dropped)
      && (forall c {:trigger c in dropped} :: c in dropped ==> c in chunks && c.home == -1)
      && forall c {:trigger c.home} :: c in chunks ==>
          if c.home == -1 then c == b || c == freeBitmap || c in dropped
          else c.home in store && store[c.home].at == c
    }

    // The invariant between calls. Layers that may have a bit set are at the end of the free
    // list, and there are two of them at most.
    ghost predicate Valid()
      reads this, chunks, idr, idr.owned
    {
      && idr.Base(true) && idr.hint == null && idr.dirty <= 2
      && StoreOk(idr.shape, store) && Mirrors() && SpareOk()
    }

    // No allocation comes to a layer that may have a bit set.
    ghost predicate Ample()
      reads idr`idFree, idr`dirty, idr`layers
    {
      idr.Enough(true, Idr<IdaBitmap>.Budget(idr.layers))
    }

    // Lines 868-882.
    method FreeBitmap(bitmap: IdaBitmap)
      requires SpareBut(bitmap)
      modifies this`freeBitmap, this`dropped
      ensures SpareOk() && freeBitmap == (if old(freeBitmap) == null then bitmap else old(freeBitmap))
      ensures dropped == old(dropped) + (if old(freeBitmap) == null then {} else {bitmap})
    {
      if freeBitmap == null {
        freeBitmap := bitmap;
      } else {
        dropped := dropped + {bitmap};
      }
    }

    // Lines 896-914.
    method PreGet() returns (ok: bool)
      requires Valid()
      modifies this`refused, this`freeBitmap, this`chunks, this`dropped, idr`refused, idr`idFree, idr`owned
      ensures idr.refused + refused == old(idr.refused + refused) + (if ok then 0 else 1)
      ensures Valid() && store == old(store) && chunks >= old(chunks) && fresh(chunks - old(chunks))
      ensures idr.owned >= old(idr.owned) && fresh(idr.owned - old(idr.owned))
      ensures |idr.idFree| >= |old(idr.idFree)| && dropped == old(dropped)
      ensures old(freeBitmap) != null ==> freeBitmap == old(freeBitmap) && chunks == old(chunks)
      ensures ok ==> |idr.idFree| >= MAX_IDR_FREE && freeBitmap != null && Ample()
    {
      ok := idr.PreGet();
      Heights();
      hide Mirrors, SpareOk, StoreOk, Idr<IdaBitmap>.Base;
      if ok && freeBitmap == null {
        ok := NewSpare();
      }
    }

    // Lines 904-910.
    method NewSpare() returns (ok: bool)
      requires Mirrors() && SpareOk() && freeBitmap == null
      modifies this`refused, this`freeBitmap, this`chunks, this`dropped
      ensures Mirrors() && SpareOk() && chunks >= old(chunks) && fresh(chunks - old(chunks)) && dropped == old(dropped)
      ensures refused == old(refused) + (if ok then 0 else 1) && (ok ==> freeBitmap != null)
    {
      hide Busy;
      var granted: bool := *;
      if !granted {
        refused := refused + 1;
        return false;
      }
      var bitmap := new IdaBitmap();
      chunks := chunks + {bitmap};
      FreeBitmap(bitmap);
      ok := true;
    }

    // Lines 964-968.
    method Install(id: int, pa: array<Layer?<IdaBitmap>>, bitmap: IdaBitmap)
      requires Valid() && id >= 0 && pa.Length == MAX_IDR_LEVEL + 1 && bitmap == freeBitmap
      requires Descent(idr.shape, idr.layers, id, 0, pa[0], pa[..]) && !LeafBit(idr.shape, id)
        && LeafSlot(idr.shape, id) == Nil
      modifies this`freeBitmap, this`store, chunks, idr`shape, idr.owned
      ensures Valid() && Taken(store) == old(Taken(store)) && freeBitmap == null
      ensures store == old(store)[id := Chunk(bitmap, NoIds())]
      ensures Descent(idr.shape, idr.layers, id, 0, pa[0], pa[..]) && !LeafBit(idr.shape, id)
    {
      assert bitmap in chunks;
      hide TreeX, Descent, LeafBit, LeafSlot, StoreOk, Taken, Mirrors, SpareOk, Busy;
      idr.AtLeaf(true, id, pa[..]);
      InstallKeeps(idr.shape, idr.top, idr.layers, id, Item(bitmap));
      InstallStore(idr.shape, PutSlot(idr.shape, id, Item(bitmap)), store, id, bitmap);
      DescentSlot(idr.shape, idr.layers, id, pa[0], pa[..], Item(bitmap));
      assert ChunkAt(idr.shape, store, id) by { FreePlace(idr.shape, store, id); }
      idr.WriteSlot(pa[0], id, Item(bitmap), true);
      Settle(id, bitmap);
    }

    // Lines 958-959 and 965: the spare chunk is emptied and is one of the tree from now on.
    method Settle(id: int, bitmap: IdaBitmap)
      requires Mirrors() && SpareOk() && bitmap == freeBitmap && id >= 0 && id !in store
      modifies this`freeBitmap, this`store, bitmap
      ensures Mirrors() && SpareOk() && freeBitmap == null && store == old(store)[id := Chunk(bitmap, NoIds())]
    {
      hide Busy;
      BusyEmpty();
      bitmap.nrBusy, bitmap.bitmap, bitmap.home := 0, NoIds(), id;
      store := store[id := Chunk(bitmap, NoIds())];
      freeBitmap := null;
    }

    // Lines 955-970: the chunk of the place found, a new one if there is none.
    method ChunkFor(id: int, pa: array<Layer?<IdaBitmap>>) returns (bitmap: IdaBitmap?)
      requires Valid() && id >= 0 && pa.Length == MAX_IDR_LEVEL + 1
      requires Descent(idr.shape, idr.layers, id, 0, pa[0], pa[..]) && !LeafBit(idr.shape, id)
      modifies this`freeBitmap, this`store, chunks, idr`shape, idr.owned
      ensures Valid() && Taken(store) == old(Taken(store))
      ensures bitmap == null ==> old(freeBitmap) == null
      ensures bitmap != null ==> id in store && store[id].at == bitmap
      ensures id in old(store) ==> bitmap != null && store == old(store) && freeBitmap == old(freeBitmap)
      ensures bitmap != null && id !in old(store) ==> store == old(store)[id := Chunk(bitmap, NoIds())]
      ensures (id in old(store)) == old(LeafSlot(idr.shape, id) != Nil)
      ensures Descent(idr.shape, idr.layers, id, 0, pa[0], pa[..]) && !LeafBit(idr.shape, id)
    {
      hide TreeX, Descent, LeafBit, LeafSlot;
      idr.AtLeaf(true, id, pa[..]);
      assert ChunkAt(idr.shape, store, id);
      if pa[0].ary[id % IDR_SIZE].Item? {
        bitmap := pa[0].ary[id % IDR_SIZE].value;
      } else {
        bitmap := freeBitmap;
        if bitmap != null {
          Install(id, pa, bitmap);
        }
      }
    }

    // A bit of the chunk at `x` changes, and the count of set bits with it.
    method FlipBit(x: int, bitmap: IdaBitmap, i: int, b: bool)
      requires Mirrors() && SpareOk() && x in store && store[x].at == bitmap && 0 <= i < |store[x].bits|
        && store[x].bits[i] == !b
      modifies this`store, bitmap
      ensures Mirrors() && SpareOk() && store == PutId(old(store), x, i, b)
      ensures bitmap.nrBusy == Busy(store[x].bits)
    {
      hide Busy;
      if b {
        BusySetBit(store[x].bits, i);
      } else {
        BusyClearBit(store[x].bits, i);
      }
      bitmap.bitmap := bitmap.bitmap[i := b];
      bitmap.nrBusy := if b then bitmap.nrBusy + 1 else bitmap.nrBusy - 1;
      store := PutId(store, x, i, b);
    }

    lemma ChunkFacts(x: int)
      requires StoreOk(idr.shape, store) && Mirrors() && x in store
      ensures store[x].at in chunks && store[x].at.bitmap == store[x].bits && |store[x].bits| == IDA_BITMAP_BITS
      ensures store[x].at.nrBusy == Busy(store[x].bits) && LeafSlot(idr.shape, x) == Item(store[x].at)
      ensures LeafBit(idr.shape, x) <==> Full(store[x].bits)
    {
      FreePlace(idr.shape, store, x);
    }

    // Lines 984-986: hand out bit `i` of the chunk.
    method TakeBit(x: int, bitmap: IdaBitmap, i: int, pa: array<Layer?<IdaBitmap>>)
      requires Valid() && x in store && store[x].at == bitmap && 0 <= i < |store[x].bits| && !store[x].bits[i]
      requires 0 <= x * IDA_BITMAP_BITS + i <= INT_MAX && pa.Length == MAX_IDR_LEVEL + 1
      requires Descent(idr.shape, idr.layers, x, 0, pa[0], pa[..]) && !LeafBit(idr.shape, x)
      modifies this`store, chunks, idr`shape, idr.owned
      ensures Valid() && Taken(store) == old(Taken(store)) + {x * IDA_BITMAP_BITS + i}
    {
      hide Taken, TreeX, LeafBit, LeafSlot, StoreOk, ExactBut, Busy, Mirrors;
      ghost var s, t := store, idr.shape;
      ChunkFacts(x);
      PutIdTaken(s, x, i, true);
      BusyFull(s[x].bits[i := true]);
      FlipBit(x, bitmap, i, true);
      if bitmap.nrBusy == IDA_BITMAP_BITS {
        idr.AtLeaf(true, x, pa[..]);
        MarkChunk(t, idr.top, idr.layers, s, x);
        idr.MarkFull(pa, x, true);
        MarkedStore(t, idr.shape, s, x, i);
      } else {
        PutIdStore(t, t, s, x, i, true);
      }
    }

    lemma MarkedStore(t: Shape<IdaBitmap>, t': Shape<IdaBitmap>, s: Store, x: int, i: int)
      requires StoreOk(t, s) && x in s && 0 <= i < |s[x].bits| && Full(s[x].bits[i := true])
      requires PathKey(x, 0) in t && Sized(t[PathKey(x, 0)].data)
      requires var t1 := PutBit(t, PathKey(x, 0), x % IDR_SIZE, true);
        && SameLeaves(t1, t')
        && (forall y :: LeafSlot(t1, y) == LeafSlot(t, y)) && (forall y :: LeafBit(t1, y) == (y == x || LeafBit(t, y)))
      ensures StoreOk(t', PutId(s, x, i, true))
    {
      PutIdStore(t, t', s, x, i, true);
    }

    // What one pass of the search has found, in terms of the ids handed out.
    lemma PassTaken(t: Shape<IdaBitmap>, r: Result, x: int, pa: seq<Layer?<IdaBitmap>>, start: int, offset: int)
      requires StoreOk(t, store) && Stable(t, idr.shape) && idr.Sought(r, 0, x, pa) && x >= 0
        && 0 <= offset < IDA_BITMAP_BITS
      requires TakenTo(store, start, x * IDA_BITMAP_BITS + offset)
      ensures StoreOk(idr.shape, store)
      ensures r.Ok? ==>
          && x <= r.id <= INT_MAX
          && TakenTo(store, start, if r.id == x then x * IDA_BITMAP_BITS + offset else r.id * IDA_BITMAP_BITS)
      ensures r == Err(ENoSpc) ==> TakenTo(store, start, INT_MAX + 1)
    {
      StoreStable(t, idr.shape, store);
      forall y | y / IDA_BITMAP_BITS >= x && Covered(idr.shape, x, y / IDA_BITMAP_BITS + 1) ensures IdTaken(store, y) {
        CoveredTaken(idr.shape, store, x, y / IDA_BITMAP_BITS + 1, y);
      }
    }

    lemma PassRoom(pa: seq<Layer?<IdaBitmap>>, x: int, r: Result)
      requires idr.Sought(r, 0, x, pa) && r.Ok?
      ensures pa != [] && Descent(idr.shape, idr.layers, r.id, 0, pa[0], pa) && !LeafBit(idr.shape, r.id)
      ensures 1 <= idr.layers && r.id <= IdrMax(idr.layers)
    {
    }

    // Whether an allocation from `start` on puts a layer over a full root and then runs out of
    // layers: the root is full, there is a layer to spare, and those to spare are too few.
    ghost predicate Tears(start: int)
      reads this, idr`top, idr`layers, idr`idFree, idr.top
    {
      && idr.top != null && Full(idr.top.bitmap) && idr.idFree != [] && idr.layers >= 0
      && start / IDA_BITMAP_BITS > IdrMax(idr.layers + |idr.idFree|)
    }

    lemma TearsTorn(start: int)
      requires Valid()
      ensures Tears(start) <==> Torn(idr.shape, idr.layers, |idr.idFree|, start / IDA_BITMAP_BITS)
    {
      Height(idr.shape, idr.top, idr.layers);
      if idr.top != null {
        RootNode(idr.shape, idr.top, idr.layers);
      }
    }

    // One more layer will do for the first place past the tree.
    lemma NextPlace(x: int)
      requires 0 <= idr.layers && x <= INT_MAX && x <= IdrMax(idr.layers) + 1
      ensures !Torn(idr.shape, idr.layers, |idr.idFree|, x)
    {
      if idr.layers < MAX_IDR_LEVEL - 1 && idr.idFree != [] {
        IdrMaxGrows(idr.layers + 1, idr.layers + |idr.idFree|);
        ShlValues(1);
        assert idr.layers == 0 || idr.layers == 1 || idr.layers == 2;
      }
    }

    // A torn growth leaves two layers at most.
    lemma FewDirty(t: Shape<IdaBitmap>, h: int, q: seq<Layer<IdaBitmap>>, d: nat, x: int)
      requires idr.Mended(t, h, q, d, x) && d <= 2 && x <= INT_MAX && 0 <= h
      ensures idr.dirty <= 2
    {
      assert h + |q| >= MAX_IDR_LEVEL ==> IdrMax(h + |q|) == INT_MAX;
    }

    lemma NoLeaves()
      requires Valid()
      ensures idr.layers == 0 ==> forall x :: LeafSlot(idr.shape, x) == Nil
    {
      if idr.layers == 0 {
        idr.Rootless(true);
      }
    }

    lemma StableSlots(t: Shape<IdaBitmap>, t': Shape<IdaBitmap>)
      requires Stable(t, t')
      ensures forall x :: LeafSlot(t', x) == LeafSlot(t, x)
    {
    }

    // Lines 942-952: the first place from `x` on with room, before which no id is free.
    method FindPlace(x: int, ghost offset: int, pa: array<Layer?<IdaBitmap>>, ghost start: int) returns (r: Result)
      requires Valid() && 0 <= x <= INT_MAX && pa.Length == MAX_IDR_LEVEL + 1
      requires 0 <= offset < IDA_BITMAP_BITS && TakenTo(store, start, x * IDA_BITMAP_BITS + offset)
      requires Ample()
      modifies idr`refused, idr`dirty, idr`top, idr`layers, idr`idFree, idr`shape, idr`owned, idr.owned, pa
      ensures Valid() && idr.refused == old(idr.refused)
      ensures Torn(old(idr.shape), old(idr.layers), |old(idr.idFree)|, x) ==> r == Err(ENoMem)
      ensures idr.Mended(old(idr.shape), old(idr.layers), old(idr.idFree), old(idr.dirty), x)
      ensures old(idr.layers) == 0 && r.Ok? ==> LeafSlot(idr.shape, r.id) == Nil
      ensures r.Ok? ==> 1 <= idr.layers && r.id <= IdrMax(idr.layers)
      ensures idr.owned >= old(idr.owned) && fresh(idr.owned - old(idr.owned))
      ensures r.Ok? ==> Descent(idr.shape, idr.layers, r.id, 0, pa[0], pa[..]) && !LeafBit(idr.shape, r.id)
      ensures r.Ok? ==> x <= r.id && TakenTo(store, start, r.id * IDA_BITMAP_BITS + if r.id == x then offset else 0)
      ensures r == Err(ENoSpc) ==> TakenTo(store, start, INT_MAX + 1)
      ensures r.Err? ==> r == Err(ENoSpc) || r == Err(ENoMem)
      ensures idr.PassCost(true, old(idr.idFree), old(idr.layers), r)
    {
      hide StoreOk, Stable, Covered, Descent, LeafBit, Torn, Idr<IdaBitmap>.PassCost, Idr<IdaBitmap>.Mended;
      ghost var t := idr.shape;
      ghost var h, q, d := idr.layers, idr.idFree, idr.dirty;
      NoLeaves();
      Heights();
      r := idr.GetEmptySlot(x, pa, true);
      FewDirty(t, h, q, d, x);
      StableSlots(t, idr.shape);
      PassTaken(t, r, x, pa[..], start, offset);
      if r.Ok? {
        PassRoom(pa[..], x, r);
      }
    }

    // Lines 954-999: an id of the place `x`, from `offset` on. Without an answer the search
    // goes on from the next place.
    method TakeFrom(x: int, offset: int, pa: array<Layer?<IdaBitmap>>, ghost start: int) returns (r: Result, done: bool)
      requires Valid() && 0 <= x && x * IDA_BITMAP_BITS <= INT_MAX && pa.Length == MAX_IDR_LEVEL + 1
      requires 0 <= offset < IDA_BITMAP_BITS && 0 <= start <= INT_MAX
        && TakenTo(store, start, x * IDA_BITMAP_BITS + offset)
      requires start <= x * IDA_BITMAP_BITS + offset
      requires Descent(idr.shape, idr.layers, x, 0, pa[0], pa[..]) && !LeafBit(idr.shape, x)
      modifies this`freeBitmap, this`store, chunks, idr`idFree, idr`shape, idr.owned
      ensures Valid()
      ensures done ==>
          AllocatedFrom(r, start, old(Taken(store)), Taken(store)) && (r == Err(EAgain) ==> old(freeBitmap) == null)
      ensures done && r.Ok? ==> idr.idFree == if old(idr.idFree) == [] then [] else old(idr.idFree)[1..]
      ensures !done ==> TakenTo(store, start, (x + 1) * IDA_BITMAP_BITS) && offset > 0 && store == old(store)
      ensures !done ==>
          freeBitmap == old(freeBitmap) && idr.idFree == old(idr.idFree) && old(LeafSlot(idr.shape, x) != Nil)
    {
      hide Taken, IdTaken, TakenTo, StoreOk, Descent, LeafBit, LeafSlot, Mirrors, Busy, Idr<IdaBitmap>.Base;
      r, done := Err(EAgain), true;
      ghost var s := store;
      var bitmap := ChunkFor(x, pa);
      if bitmap == null {
        return;
      }
      ChunkFacts(x);
      ChunkIds(s, store, x, bitmap, start, offset);
      var m := NextClear(bitmap.bitmap, offset);
      if m == IDA_BITMAP_BITS {
        done := false;
      } else {
        TakenBelow(store, start, x * IDA_BITMAP_BITS + m);
        if x * IDA_BITMAP_BITS + m > INT_MAX {
          return Err(ENoSpc), true;
        }
        TakeBit(x, bitmap, m, pa);
        idr.DropLayer();
        r := Ok(x * IDA_BITMAP_BITS + m);
      }
    }

    // What finding a place has left in the free list, in terms of the state at the start.
    lemma AfterPlace(t1: Shape<IdaBitmap>, h1: int, q1: seq<Layer<IdaBitmap>>, d: nat, x1: int,
        t: Shape<IdaBitmap>, h: int, q: seq<Layer<IdaBitmap>>, start: int, first: bool)
      requires idr.Mended(t1, h1, q1, d, x1)
      requires first ==> t1 == t && h1 == h && q1 == q && x1 == start / IDA_BITMAP_BITS
      requires !first ==> !Torn(t1, h1, |q1|, x1) && !Torn(t, h, |q|, start / IDA_BITMAP_BITS)
      ensures Torn(t, h, |q|, start / IDA_BITMAP_BITS) ==>
          first && idr.idFree != [] && !Fresh(idr.idFree[0].View()) && idr.dirty == |idr.idFree|
      ensures !Torn(t, h, |q|, start / IDA_BITMAP_BITS) ==> idr.dirty == d
    {
    }

    lemma AmpleFacts()
      requires Ample()
      ensures idr.dirty > 0 ==> |idr.idFree| >= idr.dirty + Idr<IdaBitmap>.Budget(idr.layers)
    {
    }

    lemma StillAmple(h: int, q: seq<Layer<IdaBitmap>>)
      requires 0 < h <= idr.layers && |q| <= |idr.idFree| + idr.layers - h
      requires idr.dirty > 0 ==> |q| >= idr.dirty + Idr<IdaBitmap>.Budget(h)
      ensures Ample()
    {
    }

    // Lines 932-1002: the least id from `startingId` on that is free. The search goes on from
    // the next chunk once at most. Growing that is given up over a full root leaves a layer with
    // a bit set at the front of the free list, and that is the only way to get one there.
    method GetNewAbove(startingId: int) returns (r: Result)
      requires Valid() && Ample() && 0 <= startingId <= INT_MAX
      modifies this`freeBitmap, this`store, chunks, idr`refused, idr`dirty, idr`top, idr`layers, idr`idFree, idr`shape,
          idr`owned, idr.owned
      ensures Valid() && idr.refused == old(idr.refused)
      ensures idr.owned >= old(idr.owned) && fresh(idr.owned - old(idr.owned))
      ensures AllocatedFrom(r, startingId, old(Taken(store)), Taken(store))
      ensures |old(idr.idFree)| >= MAX_IDR_FREE && old(freeBitmap) != null ==> r != Err(EAgain)
      ensures if old(Tears(startingId)) then
          r == Err(EAgain) && idr.idFree != [] && !Fresh(idr.idFree[0].View()) && idr.dirty == |idr.idFree|
        else idr.dirty == old(idr.dirty)
    {
      hide Taken, IdTaken, Torn, Tears, StoreOk, Stable, Descent, LeafBit, LeafSlot, Mirrors, Valid, Ample,
        Idr<IdaBitmap>.Base, Idr<IdaBitmap>.Mended;
      var x := startingId / IDA_BITMAP_BITS;
      var offset := startingId % IDA_BITMAP_BITS;
      var pa := new Layer?<IdaBitmap>[MAX_IDR_LEVEL + 1](_ => null);
      Heights();
      TearsTorn(startingId);
      ghost var t, h, q, d := idr.shape, idr.layers, idr.idFree, idr.dirty;
      ghost var first := true;
      while true
        invariant 0 <= x <= INT_MAX && 0 <= offset < IDA_BITMAP_BITS
          && TakenTo(store, startingId, x * IDA_BITMAP_BITS + offset)
        invariant startingId <= x * IDA_BITMAP_BITS + offset
        invariant Valid() && Ample() && idr.owned >= old(idr.owned) && fresh(idr.owned - old(idr.owned))
        invariant first ==> idr.shape == t && idr.layers == h && idr.idFree == q && x == startingId / IDA_BITMAP_BITS
        invariant !first ==>
            !Torn(idr.shape, idr.layers, |idr.idFree|, x) && !Torn(t, h, |q|, startingId / IDA_BITMAP_BITS)
        invariant idr.refused == old(idr.refused) && idr.dirty == d
        invariant store == old(store) && freeBitmap == old(freeBitmap)
        invariant 0 <= h <= idr.layers && |q| <= |idr.idFree| + idr.layers - h
        decreases offset
      {
        ghost var t1, h1, q1, x1 := idr.shape, idr.layers, idr.idFree, x;
        AmpleFacts();
        r := FindPlace(x, offset, pa, startingId);
        AfterPlace(t1, h1, q1, d, x1, t, h, q, startingId, first);
        if r.Err? {
          if r == Err(ENoMem) {
            r := Err(EAgain);
          } else {
            TakenBelow(store, startingId, INT_MAX + 1);
          }
          return;
        }
        if r.id * IDA_BITMAP_BITS > INT_MAX {
          TakenBelow(store, startingId, INT_MAX + 1);
          return Err(ENoSpc);
        }
        if r.id != x {
          offset := 0;
        }
        x := r.id;
        var done;
        r, done := TakeFrom(x, offset, pa, startingId);
        if done {
          return;
        }
        StillAmple(h1, q1);
        NextPlace(x + 1);
        first := false;
        x := x + 1;
        offset := 0;
      }
    }

    lemma Heights()
      requires Valid()
      ensures 0 <= idr.layers <= MAX_IDR_LEVEL
    {
      Height(idr.shape, idr.top, idr.layers);
    }

    // The bits above level `l` of the way to `x` are clear; `p` is the layer there, if any.
    ghost predicate OnWay(x: int, l: int, p: Layer?<IdaBitmap>, t0: Shape<IdaBitmap>)
      reads idr`top, idr`layers, idr`idFree, idr`dirty, idr`shape, idr`owned, idr.owned
    {
      && idr.Lagging(true, x) && 0 <= l < idr.layers && ClearAbove(idr.shape, idr.layers, x, l + 1)
      && Grown(t0, idr.shape)
      && if p == null then PathKey(x, l) !in idr.shape else At(idr.shape, x, l, p)
    }

    method WayStep(x: int, l: int, p: Layer<IdaBitmap>, ghost t0: Shape<IdaBitmap>) returns (child: Layer?<IdaBitmap>)
      requires OnWay(x, l, p, t0) && l > 0
      modifies idr`shape, idr.owned
      ensures OnWay(x, l - 1, child, t0)
    {
      hide TreeX, ClearAbove, Grown;
      var n := Shr(IDR_SIZE, x, l) % IDR_SIZE;
      idr.AtMirror(x, l, p, x, NO_KEY);
      ClearKeeps(idr.shape, idr.top, idr.layers, x, l);
      GrownByBit(t0, idr.shape, PathKey(x, l), n, false);
      idr.WriteBit(p, PathKey(x, l), n, false, true);
      WayDown(idr.shape, idr.top, idr.layers, x, NO_KEY, x, l, p);
      idr.AtMirror(x, l, p, x, NO_KEY);
      child := match p.ary[n] case Sub(c) => c case _ => null;
    }

    // Lines 1022-1034: clear the bits on the way to place `x` and its own bit. A place that
    // was full has a chunk, and its bit is the only one at the leaves that changes.
    method ClearWay(x: int) returns (p: Layer?<IdaBitmap>)
      requires Valid() && 0 <= x && (idr.layers > 0 ==> x <= IdrMax(idr.layers))
      modifies idr`shape, idr.owned
      ensures idr.Base(true) && idr.hint == null
      ensures forall y :: LeafSlot(idr.shape, y) == old(LeafSlot(idr.shape, y))
      ensures forall y :: LeafBit(idr.shape, y) <==> y != x && old(LeafBit(idr.shape, y))
      ensures p == null ==> old(LeafSlot(idr.shape, x) == Nil)
      ensures p != null ==> At(idr.shape, x, 0, p)
    {
      hide Idr<IdaBitmap>.Lagging, TreeX, LeafBit, LeafSlot, StoreOk, ClearAbove;
      p := idr.top;
      var l := idr.layers - 1;
      FreePlace(idr.shape, store, x);
      WayStart(x);
      ghost var t := idr.shape;
      while l > 0 && p != null
        invariant if idr.top == null then p == null && l < 0 && idr.shape == t && idr.Base(true)
                  else 0 <= l && OnWay(x, l, p, t)
        decreases l
      {
        p := WayStep(x, l, p, t);
        l := l - 1;
      }
      if p == null {
        WayMissing(x, l, t);
      } else {
        WayEnd(x, p, t);
        idr.WriteBit(p, PathKey(x, 0), x % IDR_SIZE, false, true);
      }
    }

    lemma WayStart(x: int)
      requires Valid() && 0 <= x && (idr.layers > 0 ==> x <= IdrMax(idr.layers))
      ensures 0 <= idr.layers <= MAX_IDR_LEVEL && (idr.top == null <==> idr.layers == 0)
      ensures idr.top != null ==> OnWay(x, idr.layers - 1, idr.top, idr.shape)
    {
      Height(idr.shape, idr.top, idr.layers);
      LagMore(idr.shape, idr.top, idr.layers, x);
      if idr.top != null {
        RootOnPath(x, idr.layers);
      }
    }

    lemma WayMissing(x: int, l: int, t: Shape<IdaBitmap>)
      requires StoreOk(t, store)
      requires if idr.top == null then l < 0 && idr.shape == t && idr.Base(true) else 0 <= l && OnWay(x, l, null, t)
      ensures idr.Base(true) && SameLeaves(t, idr.shape) && !LeafBit(t, x) && LeafSlot(t, x) == Nil
    {
      if idr.top == null {
        NoTree(t, -1);
      } else {
        ClearMissing(idr.shape, idr.top, idr.layers, NO_KEY, x, l);
        ClearDone(idr.shape, idr.top, idr.layers, x, NO_KEY);
        LeafBitAt(idr.shape, x);
        assert LeafSlot(idr.shape, x) == Nil;
      }
    }

    lemma WayEnd(x: int, p: Layer<IdaBitmap>, t: Shape<IdaBitmap>)
      requires StoreOk(t, store) && OnWay(x, 0, p, t)
      ensures idr.Mirrors(idr.shape) && idr.PoolOk(true) && p in idr.owned && |p.bitmap| == IDR_SIZE
      ensures PathKey(x, 0) in idr.shape && Sized(idr.shape[PathKey(x, 0)].data) && p == idr.shape[PathKey(x, 0)].at
      ensures var t' := PutBit(idr.shape, PathKey(x, 0), x % IDR_SIZE, false);
        && Tree(t', idr.top, idr.layers) && At(t', x, 0, p)
        && (forall y :: LeafSlot(t', y) == LeafSlot(t, y)) && (forall y :: LeafBit(t', y) <==> y != x && LeafBit(t, y))
    {
      WayDown(idr.shape, idr.top, idr.layers, x, NO_KEY, x, 0, p);
      idr.AtMirror(x, 0, p, x, NO_KEY);
      StoreStable(t, idr.shape, store);
      FreePlace(idr.shape, store, x);
      ClearLeaf(idr.shape, idr.top, idr.layers, x);
    }

    lemma NoPlace(x: int)
      requires Valid() && 0 <= x && x > IdrMax(idr.layers)
      ensures x !in store
    {
      NoLeaf(idr.shape, idr.top, idr.layers, -1, x);
      LeafSlotNone(idr.shape, x);
      FreePlace(idr.shape, store, x);
    }

    lemma LeafAt(x: int, p: Layer<IdaBitmap>)
      requires idr.Base(true) && At(idr.shape, x, 0, p)
      ensures p in idr.owned && |p.ary| == |p.bitmap| == IDR_SIZE && p.ary[x % IDR_SIZE] == LeafSlot(idr.shape, x)
      ensures PathKey(x, 0) in idr.shape && idr.shape[PathKey(x, 0)].at == p && Sized(idr.shape[PathKey(x, 0)].data)
    {
      WayDown(idr.shape, idr.top, idr.layers, -1, NO_KEY, x, 0, p);
      idr.AtMirror(x, 0, p, -1, NO_KEY);
    }

    // Lines 1043-1045: the empty chunk leaves the tree, and is kept for later.
    method DropChunk(x: int, p: Layer<IdaBitmap>, bitmap: IdaBitmap)
      requires Valid() && x in store && store[x].at == bitmap && Busy(store[x].bits) == 0 && At(idr.shape, x, 0, p)
      requires 0 <= x <= INT_MAX && x <= IdrMax(idr.layers) && 0 <= idr.layers && !LeafBit(idr.shape, x)
      modifies this`freeBitmap, this`store, this`dropped, bitmap, idr`top, idr`layers, idr`shape, idr`freed, idr`hint,
          idr.owned
      ensures Valid() && Taken(store) == old(Taken(store)) && store == old(store) - {x}
    {
      hide Taken, TreeX, ExactBut, StoreOk, LeafBit, LeafSlot, Busy, GivenUp, HintIn, Mirrors, Gone, Logged, Grown;
      ghost var s, t := store, idr.shape;
      LeafAt(x, p);
      ChunkFacts(x);
      MarkChunk(t, idr.top, idr.layers, s, x);
      NoHint(PutBit(t, PathKey(x, 0), x % IDR_SIZE, true));
      idr.WriteBit(p, PathKey(x, 0), x % IDR_SIZE, true, true);
      var removed, _ := idr.RemoveEntry(x, true);
      DropStore(t, PutBit(t, PathKey(x, 0), x % IDR_SIZE, true), idr.shape, s, x);
      Retire(x, bitmap);
    }

    // Line 1045.
    method Retire(x: int, bitmap: IdaBitmap)
      requires Mirrors() && SpareOk() && x in store && store[x].at == bitmap
      modifies this`freeBitmap, this`store, this`dropped, bitmap
      ensures Mirrors() && SpareOk() && store == old(store) - {x}
    {
      hide Busy;
      assert bitmap.home == x;
      store := store - {x};
      bitmap.home := -1;
      FreeBitmap(bitmap);
    }

    lemma NoHint(t: Shape<IdaBitmap>)
      ensures HintIn(t, null)
    {
    }

    // Lines 1010-1052: the id is free afterwards, and nothing else has changed.
    method Remove(id: int) returns (removed: bool)
      requires Valid() && 0 <= id <= INT_MAX
      modifies this`freeBitmap, this`store, this`dropped, chunks, idr`top, idr`layers, idr`shape, idr`freed, idr`hint,
        idr.owned
      ensures removed && id / IDA_BITMAP_BITS in store ==> Busy(store[id / IDA_BITMAP_BITS].bits) > 0
      ensures Valid() && chunks == old(chunks) && idr.owned == old(idr.owned) && removed == (id in old(Taken(store)))
        && Taken(store) == old(Taken(store)) - {id}
    {
      hide Taken, Idr<IdaBitmap>.Base, StoreOk, LeafBit, LeafSlot, Mirrors;
      var x := id / IDA_BITMAP_BITS;
      var offset := id % IDA_BITMAP_BITS;
      Heights();
      TakenAt(store, id);
      FreePlace(idr.shape, store, x);
      if x > IdrMax(idr.layers) {
        NoPlace(x);
        return false;
      }
      ghost var t := idr.shape;
      var p := ClearWay(x);
      if p != null {
        LeafAt(x, p);
      }
      if x in store {
        ChunkFacts0(t, x);
      }
      if p == null || !p.ary[x % IDR_SIZE].Item? || !p.ary[x % IDR_SIZE].value.bitmap[offset] {
        Unmarked(t, idr.shape, store, x);
        return false;
      }
      var bitmap := p.ary[x % IDR_SIZE].value;
      PutIdTaken(store, x, offset, false);
      assert !store[x].bits[offset := false][offset];
      PutIdStore(t, idr.shape, store, x, offset, false);
      FlipBit(x, bitmap, offset, false);
      if bitmap.nrBusy == 0 {
        DropChunk(x, p, bitmap);
      }
      removed := true;
    }

    lemma ChunkFacts0(t: Shape<IdaBitmap>, x: int)
      requires StoreOk(t, store) && Mirrors() && x in store
      ensures store[x].at in chunks && store[x].at.bitmap == store[x].bits && |store[x].bits| == IDA_BITMAP_BITS
      ensures LeafSlot(t, x) == Item(store[x].at)
    {
      FreePlace(t, store, x);
    }

    // Lines 926-928: when memory is wanted, the caller goes back to ida_pre_get and asks again.
    // The second answer is the least free id, even if the first call has left a layer with a bit
    // set in the free list.
    method GetAgain(startingId: int) returns (r: Result)
      requires Valid() && Ample() && 0 <= startingId <= INT_MAX
      modifies this, chunks, idr, idr.owned
      ensures Valid() && r != Err(EAgain)
      ensures r != Err(ENoMem) ==> AllocatedFrom(r, startingId, old(Taken(store)), Taken(store))
      ensures r == Err(ENoMem) ==> Taken(store) == old(Taken(store))
      ensures idr.refused + refused == old(idr.refused + refused) + (if r == Err(ENoMem) then 1 else 0)
    {
      hide Taken, Valid, Ample;
      r := GetNewAbove(startingId);
      if r == Err(EAgain) {
        var ok := PreGet();
        if !ok {
          return Err(ENoMem);
        }
        r := GetNewAbove(startingId);
      }
    }

    // Lines 1078-1115. Memory for the worst case has been set aside before the search, so it
    // is never repeated.
    method SimpleGet(start: int, end: int) returns (r: Result)
      requires Valid() && 0 <= start <= INT_MAX && 0 <= end <= INT_MAX && (end == 0 || start <= end)
      modifies this, chunks, idr, idr.owned
      ensures Valid()
      ensures r != Err(ENoMem) ==>
          AllocatedIn(r, start, if end == 0 then INT_MAX else end - 1, old(Taken(store)), Taken(store))
      ensures r == Err(ENoMem) ==> Taken(store) == old(Taken(store))
      ensures idr.refused + refused == old(idr.refused + refused) + (if r == Err(ENoMem) then 1 else 0)
    {
      hide Taken, Idr<IdaBitmap>.Base, StoreOk, Mirrors;
      var max := if end == 0 then 0x8000_0000 else end - 1;
      r := Err(EAgain);
      while r == Err(EAgain)
        invariant Valid() && (r == Err(EAgain) ==> Taken(store) == old(Taken(store)))
        invariant chunks >= old(chunks) && fresh(chunks - old(chunks)) && idr.owned >= old(idr.owned)
          && fresh(idr.owned - old(idr.owned))
        invariant r != Err(ENoMem) && idr.refused + refused == old(idr.refused + refused)
        invariant r != Err(EAgain) ==>
          AllocatedIn(r, start, if end == 0 then INT_MAX else end - 1, old(Taken(store)), Taken(store))
        decreases r == Err(EAgain)
      {
        var ok := PreGet();
        if !ok {
          return Err(ENoMem);
        }
        r := GetNewAbove(start);
        if r.Ok? && r.id > max {
          var removed := Remove(r.id);
          r := Err(ENoSpc);
        }
      }
    }
  }
}
