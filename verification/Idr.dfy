/**
 The id allocator of kernel/linux_idr.c over the tree of module IdrTree.
 */
module Idr {
  import opened Bits
  import opened Digits
  import opened IdrTree

  // The negative results of the allocation routines.
  datatype Error = EInval | ENoMem | ENoSpc | EAgain | ENoEnt

  datatype Result = Ok(id: int) | Err(error: Error)

  class Idr<V> {
    var hint: Layer?<V>
    var top: Layer?<V>
    var layers: int
    var cur: int
    var idFree: seq<Layer<V>>
    ghost var shape: Shape<V>
    ghost var owned: set<Layer<V>>
    ghost var freed: seq<Layer<V>>   // what has been passed to free_layer
    ghost var refused: nat           // how often the system has refused a layer
    ghost var dirty: nat             // how many layers at the end of the free list may have a bit set

    // Lines 838-842.
    constructor ()
      ensures Valid() && Bindings(shape) == map[] && cur == 0
      ensures hint == null && shape == map[] && owned == {} && idFree == [] && freed == [] && dirty == 0
    {
      hint, top, layers, cur, idFree := null, null, 0, 0, [];
      shape, owned, freed, refused, dirty := map[], {}, [], 0, 0;
      new;
      EmptyTree<V>();
    }

    // Every layer of the tree `t` has the contents recorded there.
    ghost predicate Mirrors(t: Shape<V>)
      reads this`owned, owned
    {
      forall k {:trigger t[k]} :: k in t ==>
        t[k].at in owned && t[k].at.View() == t[k].data && t[k].data.key == k && k != NO_KEY
    }

    // The layers kept for later are not in any tree, and none occurs twice. The old
    // interface relies on their having no slot in use and no bit set, which is known of all
    // but the last few.
    ghost predicate PoolOk(clean: bool)
      reads this`idFree, this`dirty, this`owned, owned
    {
      && (forall i :: 0 <= i < |idFree| ==>
            && idFree[i] in owned && idFree[i].key == NO_KEY
            && (clean && i + dirty < |idFree| ==> Fresh(idFree[i].View())))
      && (forall i, j :: 0 <= i < j < |idFree| ==> idFree[i] != idFree[j])
    }

    // An allocation that takes up to `n` layers from the free list comes to none that may
    // have a bit set.
    ghost predicate Enough(fromPool: bool, n: int)
      reads this`idFree, this`dirty
    {
      fromPool && dirty > 0 ==> |idFree| >= dirty + n
    }

    ghost predicate Base(clean: bool)
      reads this`top, this`layers, this`idFree, this`dirty, this`shape, this`owned, owned
    {
      Mirrors(shape) && Tree(shape, top, layers) && PoolOk(clean)
    }

    // Lines 192-202: stock up the free list.
    method PreGet() returns (ok: bool)
      requires Base(true)
      modifies this`refused, this`idFree, this`owned
      ensures Base(true) && owned >= old(owned) && fresh(owned - old(owned))
      ensures |idFree| >= |old(idFree)| && (ok ==> |idFree| >= MAX_IDR_FREE)
      ensures refused == old(refused) + (if ok then 0 else 1)
    {
      while |idFree| < MAX_IDR_FREE
        invariant Base(true) && owned >= old(owned) && fresh(owned - old(owned)) && refused == old(refused)
        invariant |idFree| >= |old(idFree)|
        decreases MAX_IDR_FREE - |idFree|
      {
        var granted: bool := *;
        if !granted {
          refused := refused + 1;
          return false;
        }
        var p := new Layer();
        owned := owned + {p};
        idFree := [p] + idFree;
      }
      ok := true;
    }

    // Lines 995-999: throw one spare layer away.
    method DropLayer()
      requires Base(true)
      modifies this`idFree
      ensures Base(true) && idFree == if old(idFree) == [] then [] else old(idFree)[1..]
    {
      if idFree != [] {
        idFree := idFree[1..];
      }
    }

    // Lines 94-135: from the free list for the old interface, otherwise from the system,
    // which may refuse; then lines 276-277.
    method LayerAlloc(fromPool: bool, layer: int, prefix: int, ghost key: Key) returns (p: Layer?<V>)
      requires PoolOk(fromPool) && Enough(fromPool, 1)
      modifies this`refused, this`idFree, idFree
      ensures PoolOk(fromPool)
      ensures p != null ==> p.View() == Empty(key, layer, prefix) && p !in idFree && (fresh(p) || p in old(idFree))
      ensures !fromPool ==> idFree == old(idFree)
      ensures fromPool ==> (p == null <==> old(idFree) == []) && idFree == if p == null then [] else old(idFree)[1..]
      ensures refused == old(refused) + (if p == null && !fromPool then 1 else 0)
    {
      if fromPool {
        if idFree == [] {
          return null;
        }
        p := idFree[0];
        idFree := idFree[1..];
      } else {
        var granted: bool := *;
        if !granted {
          refused := refused + 1;
          return null;
        }
        p := new Layer();
      }
      p.layer, p.prefix, p.key := layer, prefix, key;
    }

    // Lines 279-280.
    method HangLayer(ghost k: Key, p: Layer<V>, m: int, child: Layer<V>, ghost prefix: int, ghost clean: bool)
      requires Mirrors(shape) && PoolOk(clean) && child !in idFree && child in owned
      requires k.level > 0 && CanLink(shape, layers, k, m, prefix)
      requires p == shape[k].at && ChildKey(k, m) !in shape && ChildKey(k, m) != NO_KEY
      requires child.View() == Empty(ChildKey(k, m), k.level - 1, prefix)
      modifies this`shape, p
      ensures Mirrors(shape) && PoolOk(clean) && shape == Link(old(shape), k, m, child, prefix)
    {
      hide Fresh;
      assert forall j {:trigger shape[j]} :: j in shape ==> shape[j].at != child;
      p.ary := p.ary[m := Sub(child)];
      p.count := p.count + 1;
      shape := Link(shape, k, m, child, prefix);
    }

    // Lines 272-280: hang an empty layer into slot `m` of the layer `k`.
    method AddLayer(ghost k: Key, p: Layer<V>, m: int, id: int, fromPool: bool) returns (child: Layer?<V>)
      requires Mirrors(shape) && PoolOk(fromPool) && Enough(fromPool, 1)
      requires k.level > 0 && CanLink(shape, layers, k, m, LayerPrefix(id, k.level - 1))
      requires p == shape[k].at && p.layer == k.level && ChildKey(k, m) !in shape
      modifies this`refused, this`idFree, this`shape, this`owned, idFree, p
      ensures Mirrors(shape) && PoolOk(fromPool) && owned >= old(owned) && fresh(owned - old(owned))
      ensures child == null ==> shape == old(shape)
      ensures child != null ==> shape == Link(old(shape), k, m, child, LayerPrefix(id, k.level - 1))
      ensures !fromPool ==> idFree == old(idFree)
      ensures fromPool ==>
          (child == null <==> old(idFree) == []) && idFree == if child == null then [] else old(idFree)[1..]
      ensures refused == old(refused) + (if child == null && !fromPool then 1 else 0)
    {
      hide Fresh;
      child := LayerAlloc(fromPool, p.layer - 1, LayerPrefix(id, p.layer - 1), ChildKey(k, m));
      if child != null {
        owned := owned + {child};
        HangLayer(k, p, m, child, LayerPrefix(id, k.level - 1), fromPool);
      }
    }

    // Lines 269-282: the layer under slot `m` of the layer `k`, created if it is missing.
    method LayerBelow(ghost k: Key, p: Layer<V>, m: int, id: int, fromPool: bool) returns (child: Layer?<V>)
      requires Base(fromPool) && Enough(fromPool, 1)
      requires k in shape && k.level > 0 && p == shape[k].at && 0 <= m < IDR_SIZE
      requires 0 <= id <= INT_MAX && Shr(IDR_SIZE, id, k.level) == k.pos * IDR_SIZE + m
      modifies this`refused, this`idFree, this`shape, this`owned, owned
      ensures Base(fromPool) && owned >= old(owned) && fresh(owned - old(owned))
      ensures child != null ==> ChildKey(k, m) in shape && shape[ChildKey(k, m)].at == child
      ensures Spent(fromPool, old(idFree), old(shape), k, child != null, ChildKey(k, m))
      ensures Grown(old(shape), shape)
      ensures refused == old(refused) + (if child == null && !fromPool then 1 else 0)
    {
      assert NodeOk(shape, k, layers, NO_KEY) && SlotOk(shape, k, m, -1);
      if p.ary[m] == Nil {
        ghost var t := shape;
        ghost var prefix := LayerPrefix(id, k.level - 1);
        ShrLess(IDR_SIZE, id, k.pos * IDR_SIZE + m, k.level);
        child := AddLayer(k, p, m, id, fromPool);
        if child != null {
          LinkKeepsTree(t, top, layers, k, m, child, prefix);
          LinkKeepsLeaves(t, top, layers, k, m, child, prefix);
        }
      } else {
        child := p.ary[m].node;
      }
    }

    // What stepping down from layer `k` to `c` has taken from the free list: a layer was
    // taken exactly when none was there, which is always so below an empty layer.
    ghost predicate Spent(fromPool: bool, idFree0: seq<Layer<V>>, t: Shape<V>, k: Key, ok: bool, c: Key)
      reads this
    {
      && (!fromPool ==> idFree == idFree0)
      && (!ok ==> shape == t && idFree == idFree0 && (fromPool ==> idFree == []))
      && (ok ==>
            || (shape == t && idFree == idFree0 && !Blank(t, k))
            || (Blank(shape, c) && (fromPool ==> |idFree| == |idFree0| - 1)))
    }

    // The state of a search for the least clear leaf bit from `start` on. An id that has
    // run past the largest `int` is negative, and then everything from `start` on is taken.
    ghost predicate Searching(start: int, id: int, l: int, p: Layer?<V>, pa: seq<Layer?<V>>)
      reads this
    {
      && 0 <= l < layers <= MAX_IDR_LEVEL && 0 <= start
      && if id >= 0 then
           start <= id <= IdrMax(layers) && Covered(shape, start, id) && Descent(shape, layers, id, l, p, pa)
         else
           id == -0x8000_0000 && layers == MAX_IDR_LEVEL && l == 3 && p == top && Covered(shape, start, INT_MAX + 1)
    }

    // The layer a search stands on; an id past the largest `int` has it at the root.
    ghost function SearchKey(id: int, l: int): Key
      requires 0 <= l
    {
      if id < 0 then Key(l, 0) else Key(l, Shr(IDR_SIZE, id, l + 1))
    }

    lemma SearchingAt(clean: bool, start: int, id: int, l: int, p: Layer?<V>, pa: seq<Layer?<V>>)
      requires Base(clean) && Searching(start, id, l, p, pa)
      ensures 0 <= l < layers <= MAX_IDR_LEVEL && id <= INT_MAX
      ensures var k := SearchKey(id, l);
        && p != null && k in shape && shape[k].at == p && NodeOk(shape, k, layers, NO_KEY) && Sized(p.View())
        && p.View() == shape[k].data
      ensures Tree(shape, top, layers)
    {
      assert NodeOk(shape, SearchKey(id, l), layers, NO_KEY);
    }

    // Lines 229-231: a search may stand at the root.
    lemma SearchStart(clean: bool, start: int, id: int, pa: seq<Layer?<V>>)
      requires Base(clean) && top != null && 0 <= start <= id <= IdrMax(layers) && Covered(shape, start, id)
      ensures 1 <= layers <= MAX_IDR_LEVEL
      ensures |pa| == MAX_IDR_LEVEL + 1 && pa[layers] == null ==> Searching(start, id, layers - 1, top, pa)
    {
      RootOnPath(id, layers);
    }

    // In an empty layer the first slot tried has room.
    lemma NotBlank(clean: bool, start: int, id: int, l: int, p: Layer<V>, pa: seq<Layer?<V>>, m: int)
      requires Base(clean) && Searching(start, id, l, p, pa) && |p.bitmap| == IDR_SIZE
      requires m == NextClear(p.bitmap, Shr(IDR_SIZE, id, l) % IDR_SIZE)
      ensures id >= 0 && Blank(shape, SearchKey(id, l)) ==> m == Shr(IDR_SIZE, id, l) % IDR_SIZE < IDR_SIZE
    {
      SearchingAt(clean, start, id, l, p, pa);
    }

    // Line 242: where a search goes on that has no room left at level `l`.
    lemma CarryFacts(clean: bool, start: int, id: int, l: int, p: Layer<V>, pa: seq<Layer?<V>>, y: int)
      requires Base(clean) && Searching(start, id, l, p, pa) && |p.bitmap| == IDR_SIZE
      requires NextClear(p.bitmap, Shr(IDR_SIZE, id, l) % IDR_SIZE) == IDR_SIZE
      requires y == Shl(IDR_SIZE, Shr(IDR_SIZE, id, l + 1) + 1, l + 1)
      ensures top != null && 0 <= start <= id < y <= INT_MAX + 1 && id <= IdrMax(layers) && Covered(shape, start, y)
      ensures layers < MAX_IDR_LEVEL ==> y <= IdrMax(layers) + 1 <= INT_MAX
      ensures layers == MAX_IDR_LEVEL || y <= IdrMax(layers) ==> l < 3 && l + 1 < layers
    {
      SearchingAt(clean, start, id, l, p, pa);
      if id < 0 {
        SignDigitsClear(shape, top, 128);
        assert false;
      }
      CarryUp(shape, top, layers, id, l, y);
    }

    // Lines 249-259: climb one level or restart from the root.
    method Reposition(ghost clean: bool, ghost start: int, oid: int, id: int, l0: int, ghost p0: Layer<V>,
        pa: array<Layer?<V>>)
      returns (l: int, p: Layer?<V>)
      requires Base(clean) && pa.Length == MAX_IDR_LEVEL + 1 && Searching(start, oid, l0, p0, pa[..])
      requires top != null && 0 <= start <= oid && l0 < 3 && l0 + 1 < layers
      requires if id >= 0 then oid < id <= IdrMax(layers) && Covered(shape, start, id)
               else id == -0x8000_0000 && layers == MAX_IDR_LEVEL && Covered(shape, start, INT_MAX + 1)
      modifies pa
      ensures Searching(start, id, l, p, pa[..])
    {
      hide Base;
      l := l0 + 1;
      // At the top level the shift is by the width of the type; either answer will do.
      var same := *;
      if l < 3 {
        same := Shr(IDR_SIZE, oid, l + 1) == Shr(IDR_SIZE, id, l + 1);
      }
      if same {
        if id >= 0 {
          RootOnPath(oid, layers);
          RootOnPath(id, layers);
          DescentKept(shape, shape, layers, oid, id, l0, l, p0, pa[..]);
        } else {
          ShrNonNegative(IDR_SIZE, oid, l + 1);
          ShrLess(IDR_SIZE, id, 0, l + 1);
          ShlZero(l + 1);
          AtRoot(clean, oid, pa[..], l);
        }
        p := pa[l];
      } else {
        p := top;
        l := layers - 1;
        pa[layers] := null;
        if id >= 0 {
          SearchStart(clean, start, id, pa[..]);
        }
      }
    }

    lemma AtRoot(clean: bool, id: int, pa: seq<Layer?<V>>, l: int)
      requires Base(clean) && top != null && 0 <= id <= IdrMax(layers) && layers == MAX_IDR_LEVEL < |pa| && l == 3
      ensures At(shape, id, l, pa[l]) ==> pa[l] == top
    {
      RootOnPath(id, layers);
    }

    // Lines 239-259: no room from here on at level `l0`.
    method Backtrack(ghost clean: bool, ghost start: int, oid: int, l0: int, p0: Layer<V>, pa: array<Layer?<V>>)
      returns (more: bool, id: int, l: int, p: Layer?<V>)
      requires Base(clean) && pa.Length == MAX_IDR_LEVEL + 1 && Searching(start, oid, l0, p0, pa[..])
      requires |p0.bitmap| == IDR_SIZE && NextClear(p0.bitmap, Shr(IDR_SIZE, oid, l0) % IDR_SIZE) == IDR_SIZE
      modifies pa
      ensures oid >= 0 && (more ==> Searching(start, id, l, p, pa[..]) && (id < 0 || id > oid))
      ensures !more ==> layers < MAX_IDR_LEVEL && id == IdrMax(layers) + 1 && Covered(shape, start, id)
    {
      hide Base, Covered, Descent;
      more, l, p := true, l0, p0;
      id := Wrap32(Shl(IDR_SIZE, Shr(IDR_SIZE, oid, l0 + 1) + 1, l0 + 1));
      CarryFacts(clean, start, oid, l0, p0, pa[..], Shl(IDR_SIZE, Shr(IDR_SIZE, oid, l0 + 1) + 1, l0 + 1));
      if id > IdrMax(layers) {
        more := false;
      } else {
        l, p := Reposition(clean, start, oid, id, l0, p0, pa);
      }
    }

    lemma AdvanceFacts(clean: bool, start: int, id: int, l: int, p: Layer<V>, pa: seq<Layer?<V>>, m: int, y: int)
      requires Base(clean) && Searching(start, id, l, p, pa) && |p.bitmap| == IDR_SIZE
      requires Shr(IDR_SIZE, id, l) % IDR_SIZE < m == NextClear(p.bitmap, Shr(IDR_SIZE, id, l) % IDR_SIZE) < IDR_SIZE
      requires y == Shl(IDR_SIZE, Shr(IDR_SIZE, id, l) - Shr(IDR_SIZE, id, l) % IDR_SIZE + m, l)
      ensures 0 <= id < y < 0x1_0000_0000
      ensures y > INT_MAX ==> Covered(shape, start, INT_MAX + 1)
      ensures y <= INT_MAX ==> Searching(start, y, l, p, pa) && Shr(IDR_SIZE, y, l) % IDR_SIZE == m
    {
      hide Base, NodeOk;
      SearchingAt(clean, start, id, l, p, pa);
      if id < 0 {
        SignDigitsClear(shape, top, 128);
        assert false;
      }
      StepAside(shape, top, layers, id, l, m, y);
      DescentKept(shape, shape, layers, id, y, l, l, p, pa);
    }

    lemma LeafFound(clean: bool, start: int, id: int, p: Layer<V>, pa: seq<Layer?<V>>, m: int)
      requires Base(clean) && Searching(start, id, 0, p, pa) && id >= 0 && Sized(p.View())
      requires Shr(IDR_SIZE, id, 0) % IDR_SIZE == m && !p.bitmap[m]
      ensures !LeafBit(shape, id)
    {
      SearchingAt(clean, start, id, 0, p, pa);
    }

    // Lines 261-266: the digit at level `l` becomes `m`, the next slot with room.
    method Advance(ghost clean: bool, ghost start: int, oid: int, l: int, ghost p: Layer<V>, ghost pa: seq<Layer?<V>>,
        m: int)
      returns (id: int)
      requires Base(clean) && Searching(start, oid, l, p, pa) && Sized(p.View())
      requires m == NextClear(p.bitmap, Shr(IDR_SIZE, oid, l) % IDR_SIZE) < IDR_SIZE
      ensures id < 0 ==> Covered(shape, start, INT_MAX + 1)
      ensures id >= 0 ==> id >= oid >= 0 && Searching(start, id, l, p, pa) && Shr(IDR_SIZE, id, l) % IDR_SIZE == m
      ensures id >= 0 && l == 0 ==> !LeafBit(shape, id)
      ensures oid >= 0 && m == Shr(IDR_SIZE, oid, l) % IDR_SIZE ==> id == oid
    {
      hide Base, LeafBit, Descent, Xor;
      var n := Shr(IDR_SIZE, oid, l) % IDR_SIZE;
      id := oid;
      if m != n {
        AdvanceFacts(clean, start, oid, l, p, pa, m, Shl(IDR_SIZE, Shr(IDR_SIZE, oid, l) - n + m, l));
        ShrNonNegative(IDR_SIZE, oid, l);
        XorByte(Shr(IDR_SIZE, oid, l), m);
        id := Wrap32(Shl(IDR_SIZE, Xor(Xor(Shr(IDR_SIZE, oid, l), n), m), l));
      }
      if id >= 0 && l == 0 {
        LeafFound(clean, start, id, p, pa, m);
      }
    }

    // Lines 269-282, with the record of the way.
    method StepDown(ghost start: int, id: int, l: int, p: Layer<V>, pa: array<Layer?<V>>, fromPool: bool)
      returns (child: Layer?<V>)
      requires Base(fromPool) && Enough(fromPool, 1)
      requires id >= 0 && Searching(start, id, l, p, pa[..]) && l > 0 && pa.Length == MAX_IDR_LEVEL + 1
      modifies this`refused, this`idFree, this`shape, this`owned, owned, pa
      ensures Base(fromPool) && owned >= old(owned) && fresh(owned - old(owned))
      ensures child != null ==> Searching(start, id, l - 1, child, pa[..])
      ensures Spent(fromPool, old(idFree), old(shape), SearchKey(id, l), child != null, SearchKey(id, l - 1))
      ensures Grown(old(shape), shape)
      ensures refused == old(refused) + (if child == null && !fromPool then 1 else 0)
    {
      hide NodeOk, Spent, Tree;
      ghost var t := shape;
      SearchingAt(fromPool, start, id, l, p, pa[..]);
      child := LayerBelow(Key(l, Shr(IDR_SIZE, id, l + 1)), p, Shr(IDR_SIZE, id, l) % IDR_SIZE, id, fromPool);
      if child != null {
        DescentKept(t, shape, layers, id, id, l, l, p, pa[..]);
        DescentDown(shape, layers, id, l, p, child, pa[..]);
        pa[l] := p;
      }
    }

    // Line 285: the search has come to the leaf of the id found.
    lemma SearchEnd(clean: bool, start: int, id: int, p: Layer<V>, pa: seq<Layer?<V>>)
      requires Base(clean) && Searching(start, id, 0, p, pa) && id >= 0
      ensures start <= id <= IdrMax(layers) && Covered(shape, start, id) && Descent(shape, layers, id, 0, p, pa[0 := p])
    {
      forall j {:trigger At(shape, id, j, pa[0 := p][j])} | 0 < j < layers ensures At(shape, id, j, pa[0 := p][j]) {
        assert At(shape, id, j, pa[j]);
      }
    }

    // What a search has taken from the free list by the time it stands at level `l`: once it
    // has created a layer it is in an empty part of the tree and goes straight down.
    ghost predicate Frugal(fromPool: bool, idFree0: seq<Layer<V>>, t: Shape<V>, id: int, l: int)
      reads this
    {
      && l >= 0
      && (!fromPool ==> idFree == idFree0)
      && (fromPool ==> |idFree0| <= |idFree| + layers - 1 - l)
      && (id < 0 || !Blank(shape, SearchKey(id, l)) ==> shape == t && idFree == idFree0)
    }

    lemma FrugalFacts(fromPool: bool, idFree0: seq<Layer<V>>, t: Shape<V>, id: int, l: int)
      requires Frugal(fromPool, idFree0, t, id, l)
      ensures !fromPool ==> idFree == idFree0
      ensures fromPool ==> |idFree0| <= |idFree| + layers - 1 - l
      ensures id < 0 || !Blank(shape, SearchKey(id, l)) ==> shape == t && idFree == idFree0
    {
    }

    // What a search still has to take is there.
    lemma FrugalEnough(fromPool: bool, idFree0: seq<Layer<V>>, t: Shape<V>, id: int, l: int)
      requires Frugal(fromPool, idFree0, t, id, l) && l > 0
      requires fromPool && dirty > 0 ==> |idFree0| >= dirty + layers - 1
      ensures Enough(fromPool, 1)
    {
    }

    lemma FrugalStart(fromPool: bool, id: int)
      requires 1 <= layers
      ensures Frugal(fromPool, idFree, shape, id, layers - 1)
    {
    }

    // A search that moves sideways has created nothing yet.
    lemma FrugalMove(fromPool: bool, start: int, id: int, l: int, p: Layer<V>, pa: seq<Layer?<V>>, m: int,
        idFree0: seq<Layer<V>>, t: Shape<V>, id1: int, l1: int)
      requires Base(fromPool) && Searching(start, id, l, p, pa) && |p.bitmap| == IDR_SIZE
      requires m == NextClear(p.bitmap, Shr(IDR_SIZE, id, l) % IDR_SIZE)
      requires Frugal(fromPool, idFree0, t, id, l)
      ensures id < 0 || m != Shr(IDR_SIZE, id, l) % IDR_SIZE || m == IDR_SIZE ==> shape == t && idFree == idFree0
      ensures id < 0 || m != Shr(IDR_SIZE, id, l) % IDR_SIZE || m == IDR_SIZE || (id1 == id && l1 == l) ==>
                0 <= l1 < layers ==> Frugal(fromPool, idFree0, t, id1, l1)
    {
      hide Base, Searching, Blank, SearchKey;
      NotBlank(fromPool, start, id, l, p, pa, m);
    }

    lemma FrugalStep(fromPool: bool, idFree0: seq<Layer<V>>, t: Shape<V>, id: int, l: int, ok: bool,
        idFree1: seq<Layer<V>>, t1: Shape<V>)
      requires id >= 0 && l > 0 && Spent(fromPool, idFree1, t1, SearchKey(id, l), ok, SearchKey(id, l - 1))
      requires !fromPool ==> idFree1 == idFree0
      requires fromPool ==> |idFree0| <= |idFree1| + layers - 1 - l
      requires !Blank(t1, SearchKey(id, l)) ==> t1 == t && idFree1 == idFree0
      ensures ok ==> Frugal(fromPool, idFree0, t, id, l - 1)
      ensures !ok ==> if fromPool then |idFree0| < layers - 1 else idFree == idFree0
    {
    }

    // What looking for a free id from `start` on without growing the tree promises
    // (lines 212-218).
    ghost predicate Sought(r: Result, id: int, start: int, pa: seq<Layer?<V>>)
      reads this
    {
      match r
      case Ok(v) =>
        && 1 <= layers <= MAX_IDR_LEVEL < |pa| && start <= v <= IdrMax(layers) && top != null
        && Covered(shape, start, v) && !LeafBit(shape, v) && Descent(shape, layers, v, 0, pa[0], pa)
      case Err(EAgain) => 1 <= layers < MAX_IDR_LEVEL && id == IdrMax(layers) + 1 && Covered(shape, start, id)
      case Err(ENoSpc) => Covered(shape, start, INT_MAX + 1)
      case Err(e) => e == ENoMem
    }

    // The outcome of a search that began with the free list `idFree0` and the tree `t`.
    ghost predicate Searched(fromPool: bool, idFree0: seq<Layer<V>>, t: Shape<V>, r: Result, id: int, start: int,
        pa: seq<Layer?<V>>)
      reads this
    {
      && Sought(r, id, start, pa)
      && (r.Ok? ==> Frugal(fromPool, idFree0, t, r.id, 0))
      && (r == Err(EAgain) || r == Err(ENoSpc) ==> shape == t && idFree == idFree0)
      && (r == Err(ENoMem) && fromPool ==> |idFree0| < layers - 1)
      && (!fromPool ==> idFree == idFree0)
    }

    // Lines 239-247, without room at level `l0`.
    method SearchUp(ghost fromPool: bool, ghost start: int, id0: int, l0: int, p0: Layer<V>, pa: array<Layer?<V>>,
        ghost idFree0: seq<Layer<V>>, ghost t0: Shape<V>)
      returns (more: bool, id: int, l: int, p: Layer?<V>)
      requires Base(fromPool) && pa.Length == MAX_IDR_LEVEL + 1 && |p0.bitmap| == IDR_SIZE
      requires Searching(start, id0, l0, p0, pa[..]) && Frugal(fromPool, idFree0, t0, id0, l0)
      requires NextClear(p0.bitmap, Shr(IDR_SIZE, id0, l0) % IDR_SIZE) == IDR_SIZE
      modifies pa
      ensures more ==>
          Searching(start, id, l, p, pa[..]) && Frugal(fromPool, idFree0, t0, id, l) && id0 >= 0 && (id < 0 || id > id0)
      ensures !more ==> Searched(fromPool, idFree0, t0, Err(EAgain), id, start, pa[..])
    {
      hide Base, Searching, SearchKey, Covered, Blank, Frugal;
      SearchingAt(fromPool, start, id0, l0, p0, pa[..]);
      FrugalFacts(fromPool, idFree0, t0, id0, l0);
      ghost var pa0 := pa[..];
      more, id, l, p := Backtrack(fromPool, start, id0, l0, p0, pa);
      FrugalMove(fromPool, start, id0, l0, p0, pa0, IDR_SIZE, idFree0, t0, id, l);
      if more {
        SearchingAt(fromPool, start, id, l, p, pa[..]);
      }
    }

    // Lines 261-283, with room at slot `m` of level `l`. The search is over at the leaf, or
    // for want of ids or memory.
    method SearchDown(ghost start: int, id0: int, l: int, p: Layer<V>, m: int, pa: array<Layer?<V>>, fromPool: bool,
        ghost idFree0: seq<Layer<V>>, ghost t0: Shape<V>)
      returns (more: bool, r: Result, id: int, child: Layer?<V>)
      requires Base(fromPool) && pa.Length == MAX_IDR_LEVEL + 1 && Sized(p.View()) && Grown(t0, shape)
      requires Searching(start, id0, l, p, pa[..]) && Frugal(fromPool, idFree0, t0, id0, l)
      requires m == NextClear(p.bitmap, Shr(IDR_SIZE, id0, l) % IDR_SIZE) < IDR_SIZE
      requires fromPool && dirty > 0 ==> |idFree0| >= dirty + layers - 1
      modifies this`refused, this`idFree, this`shape, this`owned, owned, pa
      ensures Base(fromPool) && owned >= old(owned) && fresh(owned - old(owned)) && Grown(t0, shape)
      ensures more ==>
          && Searching(start, id, l - 1, child, pa[..]) && Frugal(fromPool, idFree0, t0, id, l - 1)
          && id >= id0 >= 0 && l > 0
      ensures !more ==> Searched(fromPool, idFree0, t0, r, id, start, pa[..])
      ensures refused == old(refused) + (if !more && r == Err(ENoMem) && !fromPool then 1 else 0)
    {
      hide Base, Searching, SearchKey, Grown, Covered, Descent, LeafBit, NodeOk, Blank, Spent, Frugal;
      SearchingAt(fromPool, start, id0, l, p, pa[..]);
      more, r, child := false, Err(ENoSpc), null;
      id := Advance(fromPool, start, id0, l, p, pa[..], m);
      FrugalMove(fromPool, start, id0, l, p, pa[..], m, idFree0, t0, id, l);
      FrugalFacts(fromPool, idFree0, t0, id0, l);
      if id < 0 {
        return;
      }
      FrugalFacts(fromPool, idFree0, t0, id, l);
      if l == 0 {
        SearchEnd(fromPool, start, id, p, pa[..]);
        pa[0] := p;
        r := Ok(id);
        return;
      }
      ghost var t, q := shape, idFree;
      FrugalEnough(fromPool, idFree0, t0, id, l);
      child := StepDown(start, id, l, p, pa, fromPool);
      GrownOn(t0, t, shape);
      FrugalStep(fromPool, idFree0, t0, id, l, child != null, q, t);
      more, r := child != null, Err(ENoMem);
    }

    // Lines 220-287: the least id from `startingId` on whose leaf bit is clear, searched
    // for without growing the tree. `pa` receives the layers on the way to it.
    method SubAlloc(startingId: int, pa: array<Layer?<V>>, fromPool: bool) returns (r: Result, id: int)
      requires Base(fromPool) && top != null && Enough(fromPool, layers - 1)
      requires 0 <= startingId <= IdrMax(layers) && pa.Length == MAX_IDR_LEVEL + 1
      modifies this`refused, this`idFree, this`shape, this`owned, owned, pa
      ensures Base(fromPool) && owned >= old(owned) && fresh(owned - old(owned))
      ensures Grown(old(shape), shape)
      ensures Searched(fromPool, old(idFree), old(shape), r, id, startingId, pa[..])
      ensures refused == old(refused) + (if r == Err(ENoMem) && !fromPool then 1 else 0)
    {
      hide Base, Searching, Searched, Grown, Covered, Frugal;
      CoveredNone(shape, startingId);
      SearchStart(fromPool, startingId, startingId, []);
      FrugalStart(fromPool, startingId);
      id := startingId;
      var p := top;
      var l := layers - 1;
      pa[layers] := null;
      GrownSame(shape);
      SearchStart(fromPool, startingId, startingId, pa[..]);
      while true
        invariant Base(fromPool) && owned >= old(owned) && fresh(owned - old(owned))
        invariant Grown(old(shape), shape) && refused == old(refused)
        invariant Searching(startingId, id, l, p, pa[..]) && Frugal(fromPool, old(idFree), old(shape), id, l)
        invariant l >= 0 && id <= INT_MAX
        decreases if id < 0 then 0 else INT_MAX + 1 - id, l
      {
        SearchingAt(fromPool, startingId, id, l, p, pa[..]);
        var m := NextClear(p.bitmap, Shr(IDR_SIZE, id, l) % IDR_SIZE);
        var more;
        if m == IDR_SIZE {
          more, id, l, p := SearchUp(fromPool, startingId, id, l, p, pa, old(idFree), old(shape));
          if !more {
            return Err(EAgain), id;
          }
        } else {
          more, r, id, p := SearchDown(startingId, id, l, p, m, pa, fromPool, old(idFree), old(shape));
          if !more {
            return;
          }
          l := l - 1;
        }
        SearchingAt(fromPool, startingId, id, l, p, pa[..]);
      }
    }

    // What `bitmap_clear(map, 0, IDR_SIZE)` leaves behind: the first word as it was.
    static function AfterBitmapClear(bits: seq<bool>): (r: seq<bool>)
      requires |bits| == IDR_SIZE
    {
      seq(IDR_SIZE, i requires 0 <= i < IDR_SIZE => i < 64 && bits[i])
    }

    ghost predicate MirrorsBelow(g: Shape<V>, j: int)
      reads this, owned
    {
      forall k {:trigger g[k]} :: k in g && k.level < j ==>
        g[k].at in owned && g[k].at.View() == g[k].data && g[k].data.key == k && k != NO_KEY
    }

    method Discard(p: Layer<V>, ghost g: Shape<V>, ghost j: int, ghost clean: bool)
      requires MirrorsBelow(g, j + 1) && PoolOk(clean)
      requires j > 0 && RaisedAt(g, j) && p == g[Key(j, 0)].at && |p.bitmap| == |p.ary| == IDR_SIZE
      modifies this`idFree, this`dirty, p
      ensures MirrorsBelow(g, j) && PoolOk(clean)
      ensures |idFree| == |old(idFree)| + 1 && dirty == if RootFull(g, j) then |idFree| else old(dirty)
      ensures RootFull(g, j) ==> !Fresh(idFree[0].View())
    {
      p.ary := p.ary[0 := Nil];
      p.count := 0;
      p.bitmap := AfterBitmapClear(p.bitmap);
      p.key := NO_KEY;
      idFree := [p] + idFree;
      assert p.ary == NoSlots() && p.bitmap == NoBits()[0 := RootFull(g, j)];
      if RootFull(g, j) {
        assert idFree[0].bitmap[0] && !NoBits()[0];
        dirty := |idFree|;
      }
    }

    // Lines 328-334: the layers built over the old root go to the free list. The first of
    // them has a bit set, and keeps it, if that root is full.
    method Teardown(p0: Layer<V>, ghost g: Shape<V>, ghost lay: int, ghost clean: bool)
      requires Mirrors(g) && Tree(g, p0, lay) && PoolOk(clean)
      requires top != null && layers <= lay && Tree(shape, top, layers) && Above(shape, layers, g, lay)
      modifies this`idFree, this`dirty, owned
      ensures Mirrors(shape) && PoolOk(clean) && |idFree| == |old(idFree)| + lay - layers
      ensures dirty == if lay > layers && RootFull(shape, layers) then |idFree| else old(dirty)
      ensures lay > layers && RootFull(shape, layers) ==> !Fresh(idFree[0].View())
    {
      hide PoolOk, TreeX, Above, RaisedAt, RootFull, Mirrors, MirrorsBelow, Fresh;
      var p: Layer?<V> := p0;
      ghost var j := lay;
      RootNode(shape, top, layers);
      RootNode(g, p0, lay);
      AllBelow(g, lay);
      RaisedFacts(g, j, lay);
      while p != null && p != top
        invariant layers <= j <= lay && Key(j - 1, 0) in g && p == g[Key(j - 1, 0)].at && (p == top <==> j == layers)
        invariant MirrorsBelow(g, j) && PoolOk(clean) && |idFree| == |old(idFree)| + lay - j
        invariant dirty == if layers == j < lay && RootFull(shape, layers) then |idFree| else old(dirty)
        invariant layers == j < lay && RootFull(shape, layers) ==> !Fresh(idFree[0].View())
        decreases j
      {
        var new_ := p;
        RaisedFacts(g, j, lay);
        p := match p.ary[0] case Sub(n) => n case _ => null;
        Discard(new_, g, j - 1, clean);
        j := j - 1;
        RaisedFacts(g, j, lay);
      }
      Restored(g, lay);
    }

    lemma AllBelow(g: Shape<V>, lay: int)
      requires Mirrors(g)
      ensures MirrorsBelow(g, lay)
    {
    }

    // The layers of `g` at levels `j - 1` and below; a layer just put over another is not full.
    lemma RaisedFacts(g: Shape<V>, j: int, lay: int)
      requires top != null && Tree(shape, top, layers) && Above(shape, layers, g, lay) && MirrorsBelow(g, j)
      requires layers <= j <= lay
      ensures Key(j - 1, 0) in g && g[Key(j - 1, 0)].at in owned && (g[Key(j - 1, 0)].at == top <==> j == layers)
      ensures j > layers ==>
        && RaisedAt(g, j - 1) && Key(j - 2, 0) in g
        && var p := g[Key(j - 1, 0)].at;
           && |p.ary| == |p.bitmap| == IDR_SIZE && p.ary[0] == Sub(g[Key(j - 2, 0)].at)
           && RootFull(g, j - 1) == (j - 1 == layers && RootFull(shape, layers))
    {
      RootNode(shape, top, layers);
      assert shape[Key(layers - 1, 0)].at == top;
      if j > layers {
        assert RaisedAt(g, j - 1);
        if j - 1 > layers {
          assert RaisedAt(g, j - 2);
          assert !g[Key(j - 2, 0)].data.bitmap[1];
        }
      }
    }

    // The layers below the new ones are those of the tree in force.
    lemma Restored(g: Shape<V>, lay: int)
      requires Tree(shape, top, layers) && Above(shape, layers, g, lay) && MirrorsBelow(g, layers)
      ensures Mirrors(shape)
    {
      forall k {:trigger shape[k]} | k in shape
        ensures shape[k].at in owned && shape[k].at.View() == shape[k].data && shape[k].data.key == k && k != NO_KEY
      {
        assert NodeOk(shape, k, layers, NO_KEY);
        assert g[k] == shape[k];
      }
    }

    // Lines 322-344: put one more layer over the root `p` of the tree `g`.
    method RaiseRoot(p: Layer<V>, lay: int, id: int, fromPool: bool, ghost g: Shape<V>) returns (root: Layer?<V>)
      requires Mirrors(g) && PoolOk(fromPool) && Enough(fromPool, 1) && lay > 0
      requires Key(lay - 1, 0) in g && g[Key(lay - 1, 0)].at == p && Sized(p.View()) && Key(lay, 0) !in g
      modifies this`refused, this`idFree, this`owned, idFree
      ensures PoolOk(fromPool) && owned >= old(owned) && fresh(owned - old(owned))
      ensures root == null ==> Mirrors(g)
      ensures root != null ==> Mirrors(Raise(g, lay, root, LayerPrefix(id, lay)))
      ensures !fromPool ==> idFree == old(idFree)
      ensures fromPool ==>
          (root == null <==> old(idFree) == []) && idFree == if root == null then [] else old(idFree)[1..]
      ensures refused == old(refused) + (if root == null && !fromPool then 1 else 0)
    {
      root := LayerAlloc(fromPool, lay, LayerPrefix(id, lay), Key(lay, 0));
      if root != null {
        assert forall k {:trigger g[k]} :: k in g ==> g[k].at != root;
        hide Full, PoolOk;
        RootOver(root, p);
        owned := owned + {root};
      }
    }

    // Lines 339-344.
    method RootOver(root: Layer<V>, p: Layer<V>)
      requires |root.ary| == |root.bitmap| == IDR_SIZE && root != p
      modifies root
      ensures root.View() == old(root.View()).(ary := old(root.ary)[0 := Sub(p)], count := 1,
          bitmap := old(root.bitmap)[0 := Full(p.bitmap)])
    {
      root.ary := root.ary[0 := Sub(p)];
      root.count := 1;
      root.bitmap := root.bitmap[0 := Full(p.bitmap)];
    }

    // How many layers growing a tree from `h` to `lay` levels takes: one for every level, but
    // for a first leaf, which is moved upwards.
    static function Rise(h: int, lay: int): int {
      if h == 0 && lay > 0 then 1 else lay - h
    }

    // The growing has taken `levels` layers from the free list at most.
    ghost predicate Thrifty(fromPool: bool, idFree0: seq<Layer<V>>, levels: int)
      reads this`idFree
    {
      if fromPool then |idFree0| <= |idFree| + levels else idFree == idFree0
    }

    // The state between two rounds of the loop at lines 311-345: a tree `g` of `lay` layers
    // under `p` stands beside, or instead of, the tree that is still in force.
    ghost predicate Growing(fromPool: bool, idFree0: seq<Layer<V>>, g: Shape<V>, lay: int, p: Layer?<V>)
      reads this, owned
    {
      && 1 <= lay <= MAX_IDR_LEVEL && layers <= lay
      && p != null && Key(lay - 1, 0) in g && g[Key(lay - 1, 0)].at == p
      && Mirrors(g) && Tree(g, p, lay) && PoolOk(fromPool)
      && Tree(shape, top, layers) && Stable(shape, g)
      && (p.count != 0 ==>
          top != null && Above(shape, layers, g, lay) && (fromPool ==> |idFree0| == |idFree| + lay - layers))
      && (p.count == 0 ==> !RootFull(shape, layers))
      && Thrifty(fromPool, idFree0, Rise(layers, lay))
    }

    lemma GrowStart(fromPool: bool, idFree0: seq<Layer<V>>, g: Shape<V>, lay: int, p: Layer<V>)
      requires Tree(shape, top, layers) && Mirrors(g) && PoolOk(fromPool)
        && Thrifty(fromPool, idFree0, Rise(layers, lay))
      requires top == null ==> lay == 1 && g == Seed(p)
      requires top != null ==> g == shape && lay == layers && p == top && idFree == idFree0
      ensures Growing(fromPool, idFree0, g, lay, p)
    {
      if top == null {
        NoTree(shape, -1);
        SeedIsTree(p);
      } else {
        RootNode(shape, top, layers);
        if RootFull(shape, layers) {
          RootInUse(shape, top, layers);
        }
      }
    }

    // A tree that has been made deep enough has needed no more than the free list had.
    lemma GrownWell(idFree0: seq<Layer<V>>, g: Shape<V>, lay: int, p: Layer?<V>, id: int)
      requires Growing(true, idFree0, g, lay, p) && id <= IdrMax(lay)
      ensures !Torn(shape, layers, |idFree0|, id)
    {
      if RootFull(shape, layers) {
        IdrMaxGrows(lay, layers + |idFree0|);
      }
    }

    // Line 322 has found the free list empty.
    lemma GrowStops(fromPool: bool, idFree0: seq<Layer<V>>, g: Shape<V>, lay: int, p: Layer?<V>, id: int)
      requires Growing(fromPool, idFree0, g, lay, p) && p.count != 0 && id > IdrMax(lay)
      ensures fromPool && idFree == [] ==> |idFree0| == lay - layers
      ensures fromPool && idFree == [] ==>
                (Torn(shape, layers, |idFree0|, id) <==> lay > layers && RootFull(shape, layers))
    {
    }

    // The growing that may be left to do has enough to take.
    lemma GrowEnough(fromPool: bool, idFree0: seq<Layer<V>>, g: Shape<V>, lay: int, p: Layer?<V>)
      requires Growing(fromPool, idFree0, g, lay, p) && p.count != 0 && lay < MAX_IDR_LEVEL
      requires fromPool && dirty > 0 ==> |idFree0| >= dirty + (if layers == 0 then 1 else MAX_IDR_LEVEL - layers)
      ensures Enough(fromPool, 1)
    {
    }

    lemma GrowFacts(fromPool: bool, idFree0: seq<Layer<V>>, g: Shape<V>, lay: int, p: Layer?<V>)
      requires Growing(fromPool, idFree0, g, lay, p)
      ensures 1 <= lay <= MAX_IDR_LEVEL && layers <= lay && p != null && p in owned
      ensures Key(lay - 1, 0) in g && g[Key(lay - 1, 0)].at == p
      ensures Mirrors(g) && Tree(g, p, lay) && PoolOk(fromPool) && Stable(shape, g)
      ensures Thrifty(fromPool, idFree0, Rise(layers, lay)) && (p.count != 0 ==> layers > 0)
    {
    }

    // Lines 313-320.
    method LiftRoot(p: Layer<V>, lay: int, fromPool: bool, ghost idFree0: seq<Layer<V>>, ghost g: Shape<V>)
      requires Growing(fromPool, idFree0, g, lay, p) && p.count == 0 && lay < MAX_IDR_LEVEL
      modifies p
      ensures Growing(fromPool, idFree0, Lift(g, lay), lay + 1, p)
    {
      hide Tree, Above, SameLeaves, KeepsLeaves;
      RootNode(g, p, lay);
      LiftKeepsTree(g, p, lay);
      StableOn(shape, g, Lift(g, lay));
      p.layer := p.layer + 1;
      p.key := Key(lay, 0);
    }

    // What growing a tree `t` of `h` layers for `id`, or giving it up, leaves in the free list,
    // which was `idFree0` before: after a layer has been put over a full root in vain the list
    // is as long as before, and its first layer has a bit set.
    ghost predicate Mended(t: Shape<V>, h: int, idFree0: seq<Layer<V>>, dirty0: nat, id: int)
      reads this`idFree, this`dirty, idFree
    {
      if Torn(t, h, |idFree0|, id) then
        dirty == |idFree| == |idFree0| && idFree != [] && !Fresh(idFree[0].View())
      else dirty == dirty0
    }

    // Lines 322-344.
    method GrowRoot(p: Layer<V>, lay: int, id: int, fromPool: bool, ghost idFree0: seq<Layer<V>>, ghost g: Shape<V>)
      returns (root: Layer?<V>)
      requires Growing(fromPool, idFree0, g, lay, p) && p.count != 0 && lay < MAX_IDR_LEVEL && id > IdrMax(lay)
      requires Enough(fromPool, 1)
      modifies this`refused, this`dirty, this`idFree, this`owned, owned
      ensures owned >= old(owned) && fresh(owned - old(owned))
      ensures root != null ==> Growing(fromPool, idFree0, Raise(g, lay, root, LayerPrefix(id, lay)), lay + 1, root)
      ensures root != null ==> dirty == old(dirty)
      ensures root == null ==> Base(fromPool)
      ensures root == null && fromPool ==> |idFree0| <= lay - layers && Mended(shape, layers, idFree0, old(dirty), id)
      ensures refused == old(refused) + (if root == null && !fromPool then 1 else 0)
    {
      hide Tree, SameLeaves, KeepsLeaves, Extends, Above, RootFull;
      RootNode(g, p, lay);
      GrowFacts(fromPool, idFree0, g, lay, p);
      GrowStops(fromPool, idFree0, g, lay, p, id);
      root := RaiseRoot(p, lay, id, fromPool, g);
      if root == null {
        Teardown(p, g, lay, fromPool);
      } else {
        RaiseKeepsTree(g, p, lay, root, LayerPrefix(id, lay));
        StableOn(shape, g, Raise(g, lay, root, LayerPrefix(id, lay)));
        AboveRaise(shape, layers, g, lay, root, LayerPrefix(id, lay));
      }
    }

    // Lines 311-345.
    method GrowLoop(p0: Layer<V>, lay0: int, id: int, fromPool: bool, ghost idFree0: seq<Layer<V>>, ghost g0: Shape<V>)
      returns (p: Layer?<V>, lay: int, ghost g: Shape<V>)
      requires Growing(fromPool, idFree0, g0, lay0, p0) && 0 <= id <= INT_MAX
      requires fromPool && dirty > 0 ==> |idFree0| >= dirty + (if layers == 0 then 1 else MAX_IDR_LEVEL - layers)
      modifies this`refused, this`dirty, this`idFree, this`owned, owned
      ensures owned >= old(owned) && fresh(owned - old(owned))
      ensures p != null ==> Growing(fromPool, idFree0, g, lay, p) && 0 <= lay && id <= IdrMax(lay)
      ensures p != null ==> dirty == old(dirty)
      ensures p == null ==> Base(fromPool)
      ensures p == null && fromPool ==>
          |idFree0| < MAX_IDR_LEVEL - layers && Mended(shape, layers, idFree0, old(dirty), id)
      ensures refused == old(refused) + (if p == null && !fromPool then 1 else 0)
    {
      hide Growing, Base, Mended;
      p, lay, g := p0, lay0, g0;
      GrowFacts(fromPool, idFree0, g, lay, p);
      while id > IdrMax(lay)
        invariant p != null && 1 <= lay <= MAX_IDR_LEVEL && refused == old(refused)
        invariant dirty == old(dirty)
        invariant Growing(fromPool, idFree0, g, lay, p) && owned >= old(owned) && fresh(owned - old(owned))
        decreases MAX_IDR_LEVEL - lay
      {
        GrowFacts(fromPool, idFree0, g, lay, p);
        if p.count == 0 {
          LiftRoot(p, lay, fromPool, idFree0, g);
          g := Lift(g, lay);
        } else {
          GrowEnough(fromPool, idFree0, g, lay, p);
          var root := GrowRoot(p, lay, id, fromPool, idFree0, g);
          if root == null {
            return null, lay, g;
          }
          g := Raise(g, lay, root, LayerPrefix(id, lay));
          p := root;
        }
        lay := lay + 1;
      }
    }

    // Lines 299-306: the tree in force, or a first leaf.
    method Plant(fromPool: bool) returns (p: Layer?<V>, lay: int, ghost g: Shape<V>)
      requires Base(fromPool) && (layers == 0 ==> Enough(fromPool, 1))
      modifies this`refused, this`idFree, this`owned, idFree
      ensures owned >= old(owned) && fresh(owned - old(owned))
      ensures p != null ==> Growing(fromPool, old(idFree), g, lay, p)
      ensures p == null ==> Base(fromPool) && layers == 0 && (fromPool ==> old(idFree) == [])
      ensures refused == old(refused) + (if p == null && !fromPool then 1 else 0)
    {
      hide Growing, Tree;
      Height(shape, top, layers);
      p, lay, g := top, layers, shape;
      if p == null {
        p := LayerAlloc(fromPool, 0, 0, Key(0, 0));
        if p == null {
          return;
        }
        owned := owned + {p};
        lay := 1;
        g := Seed(p);
      }
      GrowStart(fromPool, old(idFree), g, lay, p);
    }

    lemma NoRoot(id: int)
      requires layers == 0
      ensures forall n: nat :: !Torn(shape, layers, n, id)
    {
    }

    // Lines 299-345: a tree deep enough for `id`, beside the tree that is still in force.
    method GrowBeside(id: int, fromPool: bool) returns (p: Layer?<V>, lay: int, ghost g: Shape<V>)
      requires Base(fromPool) && 0 <= id <= INT_MAX
        && Enough(fromPool, if layers == 0 then 1 else MAX_IDR_LEVEL - layers)
      modifies this`refused, this`dirty, this`idFree, this`owned, owned
      ensures owned >= old(owned) && fresh(owned - old(owned))
      ensures p != null ==> Growing(fromPool, old(idFree), g, lay, p) && 0 <= lay && id <= IdrMax(lay)
      ensures p != null && fromPool ==> !Torn(shape, layers, |old(idFree)|, id)
      ensures fromPool ==> Mended(shape, layers, old(idFree), old(dirty), id)
      ensures p == null ==> Base(fromPool)
      ensures p == null && fromPool ==> |old(idFree)| < MAX_IDR_LEVEL - layers
      ensures refused == old(refused) + (if p == null && !fromPool then 1 else 0)
    {
      hide Growing, Base, Tree, Mirrors, Torn;
      BaseParts(fromPool);
      p, lay, g := Plant(fromPool);
      if p == null {
        NoRoot(id);
      } else {
        GrowFacts(fromPool, old(idFree), g, lay, p);
        p, lay, g := GrowLoop(p, lay, id, fromPool, old(idFree), g);
        if p != null && fromPool {
          GrownWell(old(idFree), g, lay, p, id);
        }
      }
    }

    // Lines 298-347: make the tree deep enough for `id`.
    method Grow(id: int, fromPool: bool) returns (ok: bool)
      requires Base(fromPool) && 0 <= id <= INT_MAX
        && Enough(fromPool, if layers == 0 then 1 else MAX_IDR_LEVEL - layers)
      modifies this`refused, this`dirty, this`top, this`layers, this`idFree, this`shape, this`owned, owned
      ensures Base(fromPool) && owned >= old(owned)
        && fresh(owned - old(owned))
      ensures ok ==> top != null && id <= IdrMax(layers) && layers >= old(layers)
      ensures ok ==> Thrifty(fromPool, old(idFree), Rise(old(layers), layers))
      ensures !ok ==> shape == old(shape) && top == old(top) && layers == old(layers)
      ensures !ok && fromPool ==> |old(idFree)| < MAX_IDR_LEVEL - old(layers)
      ensures fromPool && Torn(old(shape), old(layers), |old(idFree)|, id) ==> !ok
      ensures fromPool ==> Mended(old(shape), old(layers), old(idFree), old(dirty), id)
      ensures Stable(old(shape), shape)
      ensures refused == old(refused) + (if !ok && !fromPool then 1 else 0)
    {
      hide Growing, Stable, Tree, Mirrors, PoolOk, Thrifty, Torn, Mended;
      StableSame(shape);
      var p, lay;
      ghost var g;
      p, lay, g := GrowBeside(id, fromPool);
      ok := p != null;
      if ok {
        GrowFacts(fromPool, old(idFree), g, lay, p);
        top := p;
        layers := lay;
        shape := g;
      }
    }

    lemma SoughtOn(start0: int, start: int, r: Result, id: int, pa: seq<Layer?<V>>)
      requires Sought(r, id, start, pa) && start0 <= start <= IdrMax(if 1 <= layers then layers else 1)
        && Covered(shape, start0, start)
      ensures Sought(r, id, start0, pa)
      ensures r == Err(EAgain) ==> start < id <= INT_MAX && id > IdrMax(layers)
    {
      ShlValues(1);
      assert layers < MAX_IDR_LEVEL && 1 <= layers ==> layers == 1 || layers == 2 || layers == 3;
    }

    // What a pass has taken from the free list.
    ghost predicate PassCost(fromPool: bool, idFree0: seq<Layer<V>>, layers0: int, r: Result)
      reads this
    {
      && layers0 <= layers
      && match r
         case Ok(id) => Thrifty(fromPool, idFree0,
             Rise(layers0, layers) + if LeafSlot(shape, id) != Nil then 0 else layers - 1)
         case Err(ENoMem) => fromPool ==> |idFree0| < MAX_IDR_FREE - 1 - layers0
         case Err(_) => Thrifty(fromPool, idFree0, Rise(layers0, layers))
    }

    lemma PassCostOf(fromPool: bool, idFree0: seq<Layer<V>>, layers0: int, r: Result, id: int, start: int,
        pa: seq<Layer?<V>>, idFree1: seq<Layer<V>>, t: Shape<V>)
      requires 0 <= layers0 <= layers <= MAX_IDR_LEVEL && Sought(r, id, start, pa) && start >= 0
      requires if fromPool then |idFree0| <= |idFree1| + Rise(layers0, layers) else idFree1 == idFree0
      requires r.Ok? ==> Frugal(fromPool, idFree1, t, r.id, 0)
      requires r == Err(EAgain) || r == Err(ENoSpc) ==> idFree == idFree1
      requires r == Err(ENoMem) && fromPool ==> |idFree1| < layers - 1
      ensures PassCost(fromPool, idFree0, layers0, r)
    {
      if r.Ok? && LeafSlot(shape, r.id) != Nil {
        assert Shr(IDR_SIZE, r.id, 1) == r.id / IDR_SIZE;
        assert !Blank(shape, SearchKey(r.id, 0));
      }
    }

    // The most layers that an allocation in a tree of `h` layers takes.
    static function Budget(h: int): int {
      if h == 0 then MAX_IDR_LEVEL else 2 * MAX_IDR_LEVEL - 1 - h
    }

    lemma MendedSame(t: Shape<V>, h: int, idFree0: seq<Layer<V>>, dirty0: nat, id: int)
      requires !Torn(t, h, |idFree0|, id)
      ensures Mended(t, h, idFree0, dirty0, id) <==> dirty == dirty0
    {
    }

    lemma Rootless(clean: bool)
      requires Base(clean) && layers == 0
      ensures shape == map[]
    {
      NoTree(shape, -1);
    }

    // Lines 299-350: one pass, growing the tree for `id0` and then searching it.
    method Pass(ghost start: int, id0: int, pa: array<Layer?<V>>, fromPool: bool) returns (r: Result, id: int)
      requires Base(fromPool) && 0 <= start <= id0 <= INT_MAX && pa.Length == MAX_IDR_LEVEL + 1
      requires Covered(shape, start, id0) && Enough(fromPool, Budget(layers))
      modifies this`refused, this`dirty, this`top, this`layers, this`idFree, this`shape, this`owned, owned, pa
      ensures Base(fromPool) && owned >= old(owned) && fresh(owned - old(owned))
      ensures fromPool && Torn(old(shape), old(layers), |old(idFree)|, id0) ==> r == Err(ENoMem)
      ensures fromPool ==> Mended(old(shape), old(layers), old(idFree), old(dirty), id0)
      ensures r == Err(EAgain) ==> 1 <= layers < MAX_IDR_LEVEL && id == IdrMax(layers) + 1 && old(layers) > 0
      ensures Stable(old(shape), shape)
      ensures Sought(r, id, start, pa[..]) && (r == Err(EAgain) ==> id0 < id <= INT_MAX && Covered(shape, start, id))
      ensures PassCost(fromPool, old(idFree), old(layers), r)
      ensures refused == old(refused) + (if r == Err(ENoMem) && !fromPool then 1 else 0)
    {
      hide Mended, Covered, LeafBit, Descent, Frugal, SameLeaves, KeepsLeaves, Tree, Mirrors, PoolOk, Torn;
      Height(shape, top, layers);
      id := id0;
      if layers == 0 {
        Rootless(fromPool);
      }
      var ok := Grow(id, fromPool);
      if !ok {
        return Err(ENoMem), id;
      }
      ghost var t, q := shape, idFree;
      if fromPool {
        MendedSame(old(shape), old(layers), old(idFree), old(dirty), id0);
      }
      CoveredStable(old(shape), shape, start, id0);
      Height(shape, top, layers);
      r, id := SubAlloc(id, pa, fromPool);
      StableOn(old(shape), t, shape);
      CoveredStable(t, shape, start, id0);
      SoughtOn(start, id0, r, id, pa[..]);
      if r == Err(EAgain) {
        CoveredStable(old(shape), shape, start, id);
        CoveredSome(old(shape), start, id, id0);
      }
      if fromPool {
        MendedSame(old(shape), old(layers), old(idFree), old(dirty), id0);
      }
      PassCostOf(fromPool, old(idFree), old(layers), r, id, start, pa[..], q, t);
    }

    // Lines 289-352.
    method GetEmptySlot(startingId: int, pa: array<Layer?<V>>, fromPool: bool) returns (r: Result)
      requires Base(fromPool) && 0 <= startingId <= INT_MAX && pa.Length == MAX_IDR_LEVEL + 1
      requires Enough(fromPool, Budget(layers))
      modifies this`refused, this`dirty, this`top, this`layers, this`idFree, this`shape, this`owned, owned, pa
      ensures Base(fromPool) && owned >= old(owned) && fresh(owned - old(owned))
      ensures fromPool && Torn(old(shape), old(layers), |old(idFree)|, startingId) ==> r == Err(ENoMem)
      ensures fromPool ==> Mended(old(shape), old(layers), old(idFree), old(dirty), startingId)
      ensures Stable(old(shape), shape)
      ensures r != Err(EAgain) && Sought(r, 0, startingId, pa[..])
      ensures PassCost(fromPool, old(idFree), old(layers), r)
      ensures refused == old(refused) + (if r == Err(ENoMem) && !fromPool then 1 else 0)
    {
      hide Base, Stable, Covered, Sought, Torn, Mended, PoolOk;
      var id := startingId;
      ghost var first := true;
      CoveredNone(shape, id);
      StableSame(shape);
      while true
        invariant Base(fromPool) && owned >= old(owned) && fresh(owned - old(owned))
        invariant Stable(old(shape), shape) && Enough(fromPool, Budget(layers))
        invariant startingId <= id <= INT_MAX && Covered(shape, startingId, id) && refused == old(refused)
        invariant old(layers) <= layers && Thrifty(fromPool, old(idFree), Rise(old(layers), layers))
        invariant first ==> shape == old(shape) && layers == old(layers) && idFree == old(idFree) && id == startingId
        invariant !first ==> 0 < old(layers) && 1 <= layers < MAX_IDR_LEVEL && id == IdrMax(layers) + 1
        invariant !first && fromPool ==> !Torn(old(shape), old(layers), |old(idFree)|, startingId)
        invariant fromPool ==> dirty == old(dirty)
        decreases INT_MAX - id
      {
        ghost var t, h, q, d := shape, layers, idFree, dirty;
        if !first {
          NextNotTorn(id);
          MendedSame(t, h, q, d, id);
        }
        ghost var id0 := id;
        r, id := Pass(startingId, id, pa, fromPool);
        StableOn(old(shape), t, shape);
        if fromPool && !Torn(t, h, |q|, id0) {
          MendedSame(t, h, q, d, id0);
        }
        if fromPool && !Torn(old(shape), old(layers), |old(idFree)|, startingId) {
          MendedSame(old(shape), old(layers), old(idFree), old(dirty), startingId);
        }
        if r != Err(EAgain) {
          SoughtAny(r, id, startingId, pa[..]);
          return;
        }
        first := false;
      }
    }

    // One more layer will do for the first id past the tree.
    lemma NextNotTorn(id: int)
      requires 1 <= layers < MAX_IDR_LEVEL && id == IdrMax(layers) + 1
      ensures !Torn(shape, layers, |idFree|, id)
    {
      ShlValues(1);
      assert layers == 1 || layers == 2 || layers == 3;
      if idFree != [] {
        IdrMaxGrows(layers + 1, layers + |idFree|);
      }
    }

    lemma SoughtAny(r: Result, id: int, start: int, pa: seq<Layer?<V>>)
      requires Sought(r, id, start, pa) && r != Err(EAgain)
      ensures Sought(r, 0, start, pa)
    {
    }

    method WriteBit(p: Layer<V>, ghost k: Key, s: int, b: bool, ghost clean: bool)
      requires Mirrors(shape) && PoolOk(clean) && k in shape && p == shape[k].at && 0 <= s < |p.bitmap|
      modifies this`shape, p
      ensures Mirrors(shape) && PoolOk(clean)
      ensures 0 <= s < |old(shape)[k].data.bitmap| && shape == PutBit(old(shape), k, s, b)
    {
      p.bitmap := p.bitmap[s := b];
      shape := PutBit(shape, k, s, b);
    }

    // The bits on the way to `id` are right up to level `l` at least, whose layer `p` is.
    ghost predicate Marking(clean: bool, id: int, l: int, p: Layer?<V>, pa: seq<Layer?<V>>, t0: Shape<V>)
      reads this, owned
    {
      && 0 <= l < layers <= MAX_IDR_LEVEL < |pa| && Descent(shape, layers, id, 0, pa[0], pa)
      && p == pa[l] && At(shape, id, l, p)
      && Mirrors(shape) && PoolOk(clean)
      && TreeX(shape, top, layers, id, NO_KEY) && ExactBut(shape, layers, id, l + 1)
      && Grown(t0, shape)
    }

    // Line 188.
    method MarkAbove(ghost clean: bool, id: int, l: int, p0: Layer<V>, p: Layer<V>, pa: seq<Layer?<V>>,
        ghost t0: Shape<V>)
      requires Marking(clean, id, l, p0, pa, t0) && Full(p0.bitmap) && l + 1 < layers && p == pa[l + 1]
      modifies this`shape, owned
      ensures Marking(clean, id, l + 1, p, pa, t0)
    {
      assert At(shape, id, l + 1, pa[l + 1]);
      ghost var k := PathKey(id, l + 1);
      SetBitKeeps(shape, top, layers, id, l + 1);
      DescentPut(shape, layers, id, pa[0], pa, k, Shr(IDR_SIZE, id, l + 1) % IDR_SIZE, true);
      GrownOn(t0, shape, PutBit(shape, k, Shr(IDR_SIZE, id, l + 1) % IDR_SIZE, true));
      WriteBit(p, k, Shr(IDR_SIZE, id, l + 1) % IDR_SIZE, true, clean);
    }

    lemma MarkDone(clean: bool, id: int, l: int, p: Layer?<V>, pa: seq<Layer?<V>>, t0: Shape<V>)
      requires Marking(clean, id, l, p, pa, t0)
      ensures p != null && 0 <= l < layers <= MAX_IDR_LEVEL < MAX_IDR_LEVEL + 1 && layers < |pa|
      ensures pa[layers] == null && (l + 1 < layers ==> pa[l + 1] != null) && Grown(t0, shape)
      ensures !Full(p.bitmap) || l + 1 == layers ==> Base(clean)
    {
      assert l + 1 < layers ==> At(shape, id, l + 1, pa[l + 1]);
      if !Full(p.bitmap) || l + 1 == layers {
        forall j {:trigger Exact(shape, id, j)} | 1 <= j < layers ensures Exact(shape, id, j) {
          if j == l + 1 {
            assert PathKey(id, l) in shape && shape[PathKey(id, l)].at == p;
          }
        }
        LagDone(shape, top, layers, id, NO_KEY);
      }
    }

    // Lines 172-190: set the bit of `id`, and the bits above it as far as layers fill up.
    method MarkFull(pa: array<Layer?<V>>, id: int, ghost clean: bool)
      requires Mirrors(shape) && PoolOk(clean) && pa.Length == MAX_IDR_LEVEL + 1
      requires 0 < layers <= MAX_IDR_LEVEL && Descent(shape, layers, id, 0, pa[0], pa[..])
        && Sized(shape[PathKey(id, 0)].data)
      requires var t := PutBit(shape, PathKey(id, 0), id % IDR_SIZE, true);
        TreeX(t, top, layers, id, NO_KEY) && ExactBut(t, layers, id, 1)
      modifies this`shape, owned
      ensures Base(clean)
      ensures Grown(PutBit(old(shape), PathKey(id, 0), id % IDR_SIZE, true), shape)
    {
      hide Base, TreeX, ExactBut, Grown;
      var p := pa[0];
      var l := 0;
      ghost var t0 := PutBit(shape, PathKey(id, 0), id % IDR_SIZE, true);
      DescentPut(shape, layers, id, p, pa[..], PathKey(id, 0), id % IDR_SIZE, true);
      WriteBit(p, PathKey(id, 0), id % IDR_SIZE, true, clean);
      GrownSame(t0);
      MarkDone(clean, id, l, p, pa[..], t0);
      while Full(p.bitmap)
        invariant p != null && Marking(clean, id, l, p, pa[..], t0)
        decreases layers - l
      {
        hide Marking;
        MarkDone(clean, id, l, p, pa[..], t0);
        l := l + 1;
        if pa[l] == null {
          return;
        }
        MarkAbove(clean, id, l - 1, p, pa[l], pa[..], t0);
        p := pa[l];
      }
      MarkDone(clean, id, l, p, pa[..], t0);
    }

    // The cached leaf is a leaf of the tree, and in use.
    ghost predicate HintOk()
      reads this
    {
      HintIn(shape, hint)
    }

    // The invariant of an allocator of pointers between calls.
    ghost predicate Valid()
      reads this, owned
    {
      Base(false) && NilWhenClear(shape) && HintOk()
    }

    lemma AtLeaf(clean: bool, id: int, pa: seq<Layer?<V>>)
      requires Base(clean) && pa != [] && Descent(shape, layers, id, 0, pa[0], pa)
      ensures PathKey(id, 0) == Key(0, id / IDR_SIZE) && PathKey(id, 0) in shape && pa[0] != null && pa[0] in owned
      ensures shape[PathKey(id, 0)].at == pa[0] && pa[0].View() == shape[PathKey(id, 0)].data && Sized(pa[0].View())
      ensures pa[0].ary[id % IDR_SIZE] == LeafSlot(shape, id) && pa[0].bitmap[id % IDR_SIZE] == LeafBit(shape, id)
    {
      assert Shr(IDR_SIZE, id, 1) == id / IDR_SIZE;
      assert NodeOk(shape, PathKey(id, 0), layers, NO_KEY);
    }

    // Lines 364-365.
    method WriteSlot(leaf: Layer<V>, id: int, ptr: Slot<V>, ghost clean: bool)
      requires Mirrors(shape) && PoolOk(clean) && Key(0, id / IDR_SIZE) in shape
        && leaf == shape[Key(0, id / IDR_SIZE)].at
      requires Sized(leaf.View())
      modifies this`shape, leaf
      ensures Mirrors(shape) && PoolOk(clean)
      ensures Sized(old(shape)[Key(0, id / IDR_SIZE)].data) && shape == PutSlot(old(shape), id, ptr)
    {
      leaf.ary := leaf.ary[id % IDR_SIZE := ptr];
      leaf.count := leaf.count + 1;
      shape := PutSlot(shape, id, ptr);
    }

    // Lines 358-367: install the pointer at the id found and mark it taken.
    method FillSlot(ptr: Slot<V>, id: int, pa: array<Layer?<V>>)
      requires Base(false) && NilWhenClear(shape) && !ptr.Sub? && pa.Length == MAX_IDR_LEVEL + 1
      requires 0 < layers <= MAX_IDR_LEVEL && 0 <= id <= INT_MAX
      requires Descent(shape, layers, id, 0, pa[0], pa[..]) && !LeafBit(shape, id)
      modifies this`hint, this`shape, owned
      ensures Base(false) && NilWhenClear(shape) && HintOk() && hint == pa[0]
      ensures Bindings(shape) == Bindings(old(shape))[id := ptr]
    {
      hide TreeX, ExactBut, Bindings, Grown, LeafBit, LeafSlot;
      AtLeaf(false, id, pa[..]);
      hint := pa[0];
      ghost var t := shape;
      FillInSteps(t, id, ptr);
      FillKeeps(t, top, layers, id, ptr);
      WriteSlot(pa[0], id, ptr, false);
      DescentSlot(t, layers, id, pa[0], pa[..], ptr);
      MarkFull(pa, id, false);
      FillDone(t, shape, top, layers, id, ptr);
    }

    // A tree that has only changed where no id is taken keeps the cached leaf.
    lemma HintStable(t: Shape<V>)
      requires Stable(t, shape) && HintIn(t, hint)
      ensures HintOk()
    {
      if hint != null {
        var q {:trigger Key(0, q)} :| Key(0, q) in t && t[Key(0, q)].at == hint && t[Key(0, q)].data.count > 0;
        assert Key(0, q) in shape && shape[Key(0, q)] == t[Key(0, q)];
      }
    }

    // What the search found, in terms of what users see.
    lemma SoughtBindings(r: Result, start: int, pa: seq<Layer?<V>>, t: Shape<V>)
      requires Sought(r, 0, start, pa) && Stable(t, shape) && 0 <= start
      ensures Bindings(shape) == Bindings(t) && (NilWhenClear(t) ==> NilWhenClear(shape))
      ensures r.Ok? ==> 0 < layers <= MAX_IDR_LEVEL < |pa| && start <= r.id <= INT_MAX && r.id !in Bindings(t)
      ensures r.Ok? ==> forall x :: start <= x < r.id ==> x in Bindings(t)
      ensures r == Err(ENoSpc) ==> forall x :: start <= x <= INT_MAX ==> x in Bindings(t)
      ensures r != Err(EInval) && r != Err(ENoEnt)
    {
      SameBindings(t, shape);
    }

    lemma SoughtFound(id: int, start: int, pa: seq<Layer?<V>>)
      requires Sought(Ok(id), 0, start, pa)
      ensures pa != [] && Descent(shape, layers, id, 0, pa[0], pa) && !LeafBit(shape, id)
    {
    }

    // Lines 450-473.
    method Alloc(ptr: Slot<V>, start: int, end: int) returns (r: Result)
      requires Valid() && !ptr.Sub? && start <= INT_MAX && end <= INT_MAX
      modifies this`refused, this`dirty, this`hint, this`top, this`layers, this`idFree, this`shape, this`owned, owned
      ensures Valid() && owned >= old(owned) && fresh(owned - old(owned))
      ensures Allocated(r, ptr, start, end, old(Bindings(shape)), Bindings(shape))
      ensures r.Ok? ==> start <= r.id <= INT_MAX && (end > 0 ==> r.id < end)
      ensures r == Err(ENoSpc) ==>
          forall x :: start <= x <= INT_MAX && (end > 0 ==> x < end) ==> x in old(Bindings(shape))
      ensures refused == old(refused) + (if r == Err(ENoMem) then 1 else 0)
    {
      hide Base, Stable, Bindings, NilWhenClear, HintIn, Sought;
      var max := if end > 0 then end - 1 else INT_MAX;
      var pa := new Layer?<V>[MAX_IDR_LEVEL + 1](_ => null);
      if start < 0 {
        return Err(EInval);
      }
      if max < start {
        return Err(ENoSpc);
      }
      ghost var t := shape;
      r := GetEmptySlot(start, pa, false);
      SoughtBindings(r, start, pa[..], t);
      HintStable(t);
      if r.Err? {
        return;
      }
      if r.id > max {
        return Err(ENoSpc);
      }
      SoughtFound(r.id, start, pa[..]);
      FillSlot(ptr, r.id, pa);
    }

    // Lines 488-500.
    method AllocCyclic(ptr: Slot<V>, start: int, end: int) returns (r: Result)
      requires Valid() && !ptr.Sub? && start <= INT_MAX && end <= INT_MAX && cur <= INT_MAX
      modifies this`refused, this`dirty, this`hint, this`top, this`layers, this`cur, this`idFree, this`shape,
          this`owned,
          owned
      ensures Valid() && owned >= old(owned) && fresh(owned - old(owned))
      ensures AllocatedCyclic(r, ptr, start, old(cur), end, old(Bindings(shape)), Bindings(shape))
      ensures r.Ok? ==> start <= r.id <= INT_MAX && (end > 0 ==> r.id < end)
      ensures r == Err(ENoSpc) ==>
          forall x :: start <= x <= INT_MAX && (end > 0 ==> x < end) ==> x in old(Bindings(shape))
      ensures cur == if r.Err? then old(cur) else if r.id == INT_MAX then -0x8000_0000 else r.id + 1
      ensures refused == old(refused) + (if r == Err(ENoMem) then 1 else 0)
    {
      hide Bindings, Tree, NilWhenClear;
      r := Alloc(ptr, if start > cur then start else cur, end);
      if r == Err(ENoSpc) {
        r := Alloc(ptr, start, end);
      }
      if r.Ok? {
        cur := Wrap32(r.id + 1);
      }
    }

    // Ids from 1 << 24 on take a tree of full depth.
    lemma DeepTree(id: int)
      requires Base(false) && 0x100_0000 <= id && LeafBit(shape, id)
      ensures layers == MAX_IDR_LEVEL && Key(3, 0) in shape
    {
      hide TreeX;
      Height(shape, top, layers);
      if top == null || id > IdrMax(layers) {
        NoLeaf(shape, top, layers, -1, id);
      }
      RootNode(shape, top, layers);
      ShlValues(1);
      assert layers == 1 || layers == 2 || layers == 3 || layers == 4;
    }

    // What an id is bound to: `Nil` for a null pointer and for an id that is not taken.
    ghost function Lookup(id: int): Slot<V>
      reads this
    {
      if id in Bindings(shape) then Bindings(shape)[id] else Nil
    }

    lemma LookupLeaf(id: int)
      requires NilWhenClear(shape) && id <= INT_MAX
      ensures Lookup(id) == if id < 0 then Nil else LeafSlot(shape, id)
    {
    }

    // Lines 642-665 of linux_idr.c.
    method FindSlowpath(id: int) returns (r: Slot<V>)
      requires Valid() && id <= INT_MAX
      ensures r == Lookup(id)
    {
      hide HintIn, TreeX, Bindings, Lookup, LeafSlot;
      LookupLeaf(id);
      if id < 0 {
        return Nil;
      }
      Height(shape, top, layers);
      if top == null || id > IdrMax(layers) {
        NoLeaf(shape, top, layers, -1, id);
        LeafSlotNone(shape, id);
      }
      var p := top;
      if p == null {
        return Nil;
      }
      RootNode(shape, top, layers);
      if id > IdrMax(p.layer + 1) {
        return Nil;
      }
      var l := p.layer;
      RootOnPath(id, layers);
      r := Sub(p);
      while l >= 0 && r != Nil
        invariant -1 <= l < layers
        invariant l >= 0 && r != Nil ==> r.Sub? && At(shape, id, l, r.node)
        invariant l < 0 || r == Nil ==> r == LeafSlot(shape, id)
        decreases l
      {
        p := r.node;
        WayDown(shape, top, layers, -1, NO_KEY, id, l, p);
        assert p.layer == l;
        r := p.ary[Shr(IDR_SIZE, id, l) % IDR_SIZE];
        l := l - 1;
      }
    }

    // The fast path of headers/linux/idr.h: the cached leaf answers for the ids of its prefix.
    method Find(id: int) returns (r: Slot<V>)
      requires Valid() && id <= INT_MAX
      ensures r == Lookup(id)
    {
      hide HintIn, TreeX, Bindings, Lookup;
      if hint != null {
        HintAnswers(id);
        if id - id % IDR_SIZE == hint.prefix {
          return hint.ary[id % IDR_SIZE];
        }
      }
      r := FindSlowpath(id);
    }

    // The cached leaf agrees with the tree.
    lemma HintAnswers(id: int)
      requires Valid() && id <= INT_MAX && hint != null
      ensures hint in owned && |hint.ary| == IDR_SIZE
      ensures id - id % IDR_SIZE == hint.prefix ==> hint.ary[id % IDR_SIZE] == Lookup(id)
    {
      var q {:trigger Key(0, q)} :| Key(0, q) in shape && shape[Key(0, q)].at == hint
        && shape[Key(0, q)].data.count > 0;
      assert NodeOk(shape, Key(0, q), layers, NO_KEY);
      LookupLeaf(id);
    }

    // Lines 801-815: the leaf of `id`, if there is one.
    method SeekLeaf(id: int) returns (p: Layer?<V>)
      requires Base(false) && 0 <= id <= INT_MAX
      ensures p == null ==> !LeafBit(shape, id)
      ensures p != null ==> PathKey(id, 0) in shape && shape[PathKey(id, 0)].at == p && p in owned && Sized(p.View())
      ensures p != null ==> p.View() == shape[PathKey(id, 0)].data
      ensures p != null ==> p.bitmap[id % IDR_SIZE] == LeafBit(shape, id) && p.ary[id % IDR_SIZE] == LeafSlot(shape, id)
    {
      hide TreeX;
      Height(shape, top, layers);
      if top == null || id > IdrMax(layers) {
        NoLeaf(shape, top, layers, -1, id);
      }
      p := top;
      if p == null {
        return;
      }
      RootNode(shape, top, layers);
      if id > IdrMax(p.layer + 1) {
        return null;
      }
      var l := p.layer;
      RootOnPath(id, layers);
      while l > 0 && p != null
        invariant 0 <= l < layers
        invariant p != null ==> At(shape, id, l, p)
        invariant p == null ==> !LeafBit(shape, id)
        decreases l
      {
        WayDown(shape, top, layers, -1, NO_KEY, id, l, p);
        p := match p.ary[Shr(IDR_SIZE, id, l) % IDR_SIZE] case Sub(n) => n case _ => null;
        l := l - 1;
      }
      if p != null {
        WayDown(shape, top, layers, -1, NO_KEY, id, 0, p);
      }
    }

    // Line 819.
    method WriteValue(p: Layer<V>, id: int, ptr: Slot<V>)
      requires Mirrors(shape) && PoolOk(false) && PathKey(id, 0) in shape && p == shape[PathKey(id, 0)].at
        && Sized(p.View())
      modifies this`shape, p
      ensures Mirrors(shape) && PoolOk(false)
      ensures Sized(old(shape)[PathKey(id, 0)].data) && shape == Rebind(old(shape), id, ptr)
    {
      p.ary := p.ary[id % IDR_SIZE := ptr];
      shape := Rebind(shape, id, ptr);
    }

    // Lines 793-822: `r` is what the id was bound to.
    method Replace(ptr: Slot<V>, id: int) returns (r: Slot<V>, e: Result)
      requires Valid() && !ptr.Sub? && id <= INT_MAX
      modifies this`shape, owned
      ensures Valid()
      ensures e == if id < 0 then Err(EInval) else if id in old(Bindings(shape)) then Ok(id) else Err(ENoEnt)
      ensures e.Ok? ==> r == old(Lookup(id)) && Bindings(shape) == old(Bindings(shape))[id := ptr]
      ensures e.Err? ==> Bindings(shape) == old(Bindings(shape))
    {
      hide HintIn, TreeX, Bindings, LeafBit, LeafSlot, Lookup;
      r := Nil;
      if id < 0 {
        LookupLeaf(id);
        return r, Err(EInval);
      }
      BoundLeaf(id);
      var p := SeekLeaf(id);
      if p == null || !p.bitmap[id % IDR_SIZE] {
        return r, Err(ENoEnt);
      }
      r := p.ary[id % IDR_SIZE];
      RebindKeeps(shape, top, layers, id, ptr);
      RebindDone(shape, id, ptr, hint);
      WriteValue(p, id, ptr);
      e := Ok(id);
    }

    lemma BoundLeaf(id: int)
      requires 0 <= id <= INT_MAX
      ensures id in Bindings(shape) <==> LeafBit(shape, id)
      ensures LeafBit(shape, id) ==> Lookup(id) == LeafSlot(shape, id)
    {
    }

    // Where `ClearPath` stands before it looks at level `l`.
    ghost predicate Clearing(clean: bool, id: int, l: int, p: Layer?<V>, refs: seq<SlotRef<V>>, t0: Shape<V>)
      reads this`top, this`layers, this`idFree, this`dirty, this`shape, this`owned, owned
    {
      && Mirrors(shape) && PoolOk(clean) && TreeX(shape, top, layers, id, NO_KEY)
      && 0 <= l < layers && ClearAbove(shape, layers, id, l + 1)
      && (if p == null then PathKey(id, l) !in shape else At(shape, id, l, p) && Refs(shape, layers, id, l, refs))
      && Grown(t0, shape)
    }

    lemma AtMirror(id: int, l: int, p: Layer?<V>, lag: int, debt: Key)
      requires Mirrors(shape) && TreeX(shape, top, layers, lag, debt) && 0 <= l && At(shape, id, l, p)
      ensures p != null && p in owned && l < layers <= MAX_IDR_LEVEL
      ensures PathKey(id, l) in shape && shape[PathKey(id, l)].at == p
      ensures p.View() == shape[PathKey(id, l)].data && Sized(p.View())
    {
      assert NodeOk(shape, PathKey(id, l), layers, debt);
    }

    // Lines 520-523.
    method ClearStep(ghost clean: bool, id: int, l: int, p: Layer<V>, pa: array<SlotRef<V>>, ghost t0: Shape<V>)
      returns (child: Layer?<V>)
      requires Clearing(clean, id, l, p, pa[..], t0) && l > 0 && pa.Length == MAX_IDR_LEVEL + 1
      modifies this`shape, owned, pa
      ensures Clearing(clean, id, l - 1, child, pa[..], t0) && SameLayers(old(shape), shape)
    {
      hide Mirrors, PoolOk, TreeX, ClearAbove, Grown, Refs;
      AtMirror(id, l, p, id, NO_KEY);
      var n := Shr(IDR_SIZE, id, l) % IDR_SIZE;
      ghost var k, refs := PathKey(id, l), pa[..];
      ClearKeeps(shape, top, layers, id, l);
      GrownByBit(t0, shape, k, n, false);
      RefsPush(shape, layers, id, l, refs, refs[layers - l + 1 := AryRef(p, n)]);
      RefsKept(shape, PutBit(shape, k, n, false), layers, id, l - 1, refs[layers - l + 1 := AryRef(p, n)]);
      WriteBit(p, k, n, false, clean);
      pa[layers - l + 1] := AryRef(p, n);
      assert pa[..] == refs[layers - l + 1 := AryRef(p, n)];
      WayDown(shape, top, layers, id, NO_KEY, id, l, p);
      AtMirror(id, l, p, id, NO_KEY);
      child := match p.ary[n] case Sub(c) => c case _ => null;
    }

    // The bits on the way to `id` are clear; `p` is its leaf, if it has one.
    ghost predicate Cleared(clean: bool, id: int, p: Layer?<V>, refs: seq<SlotRef<V>>, t0: Shape<V>)
      reads this`top, this`layers, this`idFree, this`dirty, this`shape, this`owned, owned
    {
      if p != null then Clearing(clean, id, 0, p, refs, t0)
      else Lagging(clean, id) && ClearAbove(shape, layers, id, 0) && PathKey(id, 0) !in shape && Grown(t0, shape)
    }

    lemma ClearedFrom(clean: bool, id: int, l: int, p: Layer?<V>, refs: seq<SlotRef<V>>, t0: Shape<V>)
      requires if top == null then p == null && Lagging(clean, id) && t0 == shape
               else Clearing(clean, id, l, p, refs, t0) && (l == 0 || p == null)
      ensures Cleared(clean, id, p, refs, t0)
    {
      if top == null {
        NoTree(shape, id);
        GrownSame(shape);
      } else if p == null {
        ClearMissing(shape, top, layers, NO_KEY, id, l);
      }
    }

    // Lines 516-525: clear the bits on the way to `id`, and remember the way.
    method ClearPath(ghost clean: bool, id: int, pa: array<SlotRef<V>>) returns (p: Layer?<V>)
      requires Lagging(clean, id) && 0 <= id && (layers > 0 ==> id <= IdrMax(layers)) && pa.Length == MAX_IDR_LEVEL + 1
      modifies this`shape, owned, pa
      ensures Cleared(clean, id, p, pa[..], old(shape)) && SameLayers(old(shape), shape)
    {
      hide Lagging, Clearing;
      p := top;
      pa[0] := NoRef;
      pa[1] := TopRef;
      LaggingHeight(clean, id);
      var l := layers - 1;
      if p != null {
        ClearStart(clean, id, pa[..]);
      }
      while l > 0 && p != null
        invariant if top == null then p == null && l < 0 && Lagging(clean, id) && shape == old(shape)
                  else 0 <= l && Clearing(clean, id, l, p, pa[..], old(shape))
        invariant SameLayers(old(shape), shape)
        decreases l
      {
        p := ClearStep(clean, id, l, p, pa, old(shape));
        l := l - 1;
      }
      ClearedFrom(clean, id, l, p, pa[..], old(shape));
    }

    lemma LaggingHeight(clean: bool, id: int)
      requires Lagging(clean, id)
      ensures 0 <= layers <= MAX_IDR_LEVEL && (top == null <==> layers == 0)
    {
    }

    lemma ClearStart(clean: bool, id: int, refs: seq<SlotRef<V>>)
      requires Lagging(clean, id) && top != null && 0 <= layers && 0 <= id <= IdrMax(layers)
      requires |refs| == MAX_IDR_LEVEL + 1 && refs[0] == NoRef && refs[1] == TopRef
      ensures Clearing(clean, id, layers - 1, top, refs, shape)
    {
      RootOnPath(id, layers);
      GrownSame(shape);
    }

    // Lines 145-150.
    method FreeLayer(p: Layer<V>)
      modifies this`hint, this`freed
      ensures freed == old(freed) + [p]
      ensures hint == if old(hint) == p then null else old(hint)
    {
      if hint == p {
        hint := null;
      }
      freed := freed + [p];
    }

    // The layer of level `j` on the way to `id` has lost a slot its count has yet to follow;
    // the layers below it on the way are gone from the tree, `toFree` being the last of them.
    ghost predicate Climbing(clean: bool, id: int, j: int, refs: seq<SlotRef<V>>, toFree: Layer?<V>, t0: Shape<V>)
      reads this, owned
    {
      && Mirrors(shape) && PoolOk(clean) && 0 <= j <= layers <= MAX_IDR_LEVEL && 0 < layers
      && Refs(shape, layers, id, j, refs)
      && (j < layers ==> PathKey(id, j) in shape && TreeX(shape, top, layers, -1, PathKey(id, j)))
      && (j == layers ==> shape == map[] && top == null)
      && SameLeaves(t0, shape)
      && (HintIn(shape, hint) || hint == toFree)
    }

    lemma DecrementLayers(t: Shape<V>, k: Key)
      requires k in t
      ensures SameLayers(t, Decrement(t, k))
    {
    }

    // Line 531, the count.
    method PayDebt(ghost clean: bool, id: int, ghost j: int, ghost refs: seq<SlotRef<V>>, p: Layer<V>,
        ghost toFree: Layer?<V>, ghost t0: Shape<V>)
      requires Climbing(clean, id, j, refs, toFree, t0) && j < layers && p == shape[PathKey(id, j)].at
      modifies this`shape, owned
      ensures Base(clean) && SameLeaves(t0, shape) && Refs(shape, layers, id, j, refs) && SameLayers(old(shape), shape)
      ensures PathKey(id, j) in shape && shape[PathKey(id, j)].at == p && p.View() == shape[PathKey(id, j)].data
      ensures p.count >= 0
      ensures p.count > 0 ==> HintIn(shape, hint) || hint == toFree
      ensures p.count == 0 ==> HintIn(shape, hint) || hint == toFree || hint == p
    {
      hide TreeX, SameLeaves, Refs, SameLayers;
      ghost var k := PathKey(id, j);
      DecrementKeeps(shape, top, layers, k);
      RefsKept(shape, Decrement(shape, k), layers, id, j, refs);
      SameLeavesOn(t0, shape, Decrement(shape, k));
      DecrementLayers(shape, k);
      p.count := p.count - 1;
      shape := Decrement(shape, k);
    }

    // Lines 534-535: the slot `ref` that holds the idle layer `p` is emptied.
    method Unlink(ghost clean: bool, id: int, ghost j: int, ghost refs: seq<SlotRef<V>>, ref: SlotRef<V>,
        ghost p: Layer<V>, ghost t0: Shape<V>)
      requires Base(clean) && SameLeaves(t0, shape) && Refs(shape, layers, id, j, refs)
      requires 0 <= j < layers && layers - j < |refs| && ref == refs[layers - j]
      requires PathKey(id, j) in shape && shape[PathKey(id, j)].at == p && shape[PathKey(id, j)].data.count == 0
      requires HintIn(shape, hint) || hint == p
      modifies this`top, this`shape, owned
      ensures layers == old(layers) && Climbing(clean, id, j + 1, refs, p, t0)
        && Less(old(shape), shape, PathKey(id, j))
    {
      hide TreeX, SameLeaves, LeafBit, LeafSlot;
      ghost var k, t := PathKey(id, j), shape;
      Height(shape, top, layers);
      assert RefAt(shape, layers, id, j, refs);
      if ref == TopRef {
        RootOfPath(shape, top, layers, -1, NO_KEY, id);
        IdleTree(shape, top, layers);
        SameLeavesOn(t0, shape, map[]);
        top := null;
        shape := map[];
        RefsKept(t, shape, layers, id, j + 1, refs);
      } else {
        UnlinkBelow(clean, id, j, refs, ref, p, t0);
      }
    }

    method UnlinkBelow(ghost clean: bool, id: int, ghost j: int, ghost refs: seq<SlotRef<V>>, ref: SlotRef<V>,
        ghost p: Layer<V>, ghost t0: Shape<V>)
      requires Base(clean) && SameLeaves(t0, shape) && Refs(shape, layers, id, j, refs)
      requires 0 <= j && j + 1 < layers && RefAt(shape, layers, id, j, refs) && ref == refs[layers - j]
      requires PathKey(id, j) in shape && shape[PathKey(id, j)].at == p && shape[PathKey(id, j)].data.count == 0
      requires HintIn(shape, hint) || hint == p
      modifies this`shape, owned
      ensures Climbing(clean, id, j + 1, refs, p, t0) && Less(old(shape), shape, PathKey(id, j))
    {
      hide TreeX, SameLeaves, LeafBit, LeafSlot, Refs;
      ghost var k, t := PathKey(id, j), shape;
      Height(shape, top, layers);
      RefHolds(shape, top, layers, -1, NO_KEY, id, j);
      UnhangKeeps(shape, top, layers, k);
      RefsKept(t, Unhang(shape, k), layers, id, j, refs);
      RefsFewer(Unhang(shape, k), layers, id, j, refs);
      SameLeavesOn(t0, t, Unhang(shape, k));
      if hint != p {
        HintCut(t, Unhang(shape, k), hint, k);
      }
      ref.node.ary := ref.node.ary[ref.index := Nil];
      shape := Unhang(shape, k);
    }

    function Deref(ref: SlotRef<V>): Layer?<V>
      reads this, match ref case AryRef(n, _) => {n} case _ => {}
    {
      match ref
      case AryRef(n, i) => if 0 <= i < |n.ary| && n.ary[i].Sub? then n.ary[i].node else null
      case _ => top
    }

    lemma DerefAt(clean: bool, id: int, j: int, refs: seq<SlotRef<V>>, toFree: Layer?<V>, t0: Shape<V>)
      requires Climbing(clean, id, j, refs, toFree, t0)
      ensures j < layers ==>
          layers - j < |refs| && refs[layers - j] != NoRef && Deref(refs[layers - j]) == shape[PathKey(id, j)].at
      ensures j < layers ==> shape[PathKey(id, j)].at in owned
      ensures refs != [] && (j == layers ==> refs[0] == NoRef)
    {
      if j < layers {
        assert RefAt(shape, layers, id, j, refs);
        if j + 1 < layers {
          RefHolds(shape, top, layers, -1, PathKey(id, j), id, j);
        } else {
          RootOfPath(shape, top, layers, -1, PathKey(id, j), id);
        }
      }
    }

    lemma ClimbFacts(clean: bool, id: int, j: int, refs: seq<SlotRef<V>>, toFree: Layer?<V>, t0: Shape<V>)
      requires Climbing(clean, id, j, refs, toFree, t0)
      ensures 0 <= j <= layers <= MAX_IDR_LEVEL && SameLeaves(t0, shape) && (HintIn(shape, hint) || hint == toFree)
      ensures j < layers ==> PathKey(id, j) in shape
      ensures j == layers ==> shape == map[] && top == null && PoolOk(clean)
    {
    }

    lemma EmptyBase(clean: bool)
      requires shape == map[] && top == null && layers == 0 && PoolOk(clean)
      ensures Base(clean)
    {
      EmptyTree<V>();
    }

    // What a climb has taken out of the tree `t`, now `t1`, all of it freed but for `toFree`.
    ghost predicate Dropped(t: Shape<V>, t1: Shape<V>, gone: seq<Key>, toFree: Layer?<V>, before: seq<Layer<V>>)
      reads this`freed
    {
      && Gone(t, t1, gone)
      && (toFree == null ==> gone == [] && freed == before)
      && (toFree != null ==>
            && gone != [] && gone[|gone| - 1] in t && t[gone[|gone| - 1]].at == toFree
            && Logged(t, gone[..|gone| - 1], before, freed))
    }

    // Line 533.
    method FreeDropped(toFree: Layer?<V>, ghost t: Shape<V>, ghost gone: seq<Key>, ghost before: seq<Layer<V>>)
      requires Dropped(t, shape, gone, toFree, before)
      modifies this`hint, this`freed
      ensures Gone(t, shape, gone) && Logged(t, gone, before, freed)
      ensures hint == if toFree != null && old(hint) == toFree then null else old(hint)
    {
      hide Gone, Logged;
      LoggedNone(t, before);
      if toFree != null {
        LoggedOne(t, gone[..|gone| - 1], before, freed, gone[|gone| - 1]);
        assert gone == gone[..|gone| - 1] + [gone[|gone| - 1]];
        FreeLayer(toFree);
      }
    }

    lemma DroppedOne(t: Shape<V>, t1: Shape<V>, gone: seq<Key>, k: Key, toFree: Layer<V>, before: seq<Layer<V>>)
      requires Gone(t, t1, gone) && Logged(t, gone, before, freed) && Less(t1, shape, k) && t1[k].at == toFree
      ensures Dropped(t, shape, gone + [k], toFree, before)
    {
      GoneOne(t, t1, shape, gone, k);
      assert (gone + [k])[..|gone|] == gone;
    }

    // Lines 531-539: one layer loses a slot; if it is idle now it leaves the tree, and the
    // one below it is freed.
    method ClimbStep(ghost clean: bool, id: int, ghost j: int, ghost refs: seq<SlotRef<V>>, ref: SlotRef<V>,
        toFree: Layer?<V>, ghost t0: Shape<V>, ghost t: Shape<V>, ghost gone0: seq<Key>, ghost before: seq<Layer<V>>)
      returns (idle: bool, p: Layer?<V>, ghost gone: seq<Key>)
      requires Climbing(clean, id, j, refs, toFree, t0) && Dropped(t, shape, gone0, toFree, before)
      requires j < layers && layers - j < |refs| && ref == refs[layers - j]
      modifies this`top, this`hint, this`shape, this`freed, owned
      ensures layers == old(layers) && (old(hint) == null ==> hint == null)
      ensures idle ==> Climbing(clean, id, j + 1, refs, p, t0) && p != null
      ensures !idle ==> p == toFree && Base(clean) && SameLeaves(t0, shape) && (HintIn(shape, hint) || hint == toFree)
      ensures Dropped(t, shape, gone, p, before)
    {
      hide Base, Climbing, SameLeaves, HintIn, Gone, Logged, SameLayers, Less, Dropped;
      DerefAt(clean, id, j, refs, toFree, t0);
      ClimbFacts(clean, id, j, refs, toFree, t0);
      p, gone := Deref(ref), gone0;
      ghost var t1 := shape;
      PayDebt(clean, id, j, refs, p, toFree, t0);
      DroppedSame(t, t1, gone, toFree, before);
      idle := p.count == 0;
      if !idle {
        p := toFree;
        return;
      }
      FreeDropped(toFree, t, gone, before);
      t1 := shape;
      HintFree();
      Unlink(clean, id, j, refs, ref, p, t0);
      DroppedOne(t, t1, gone, PathKey(id, j), p, before);
      gone := gone + [PathKey(id, j)];
    }

    lemma HintFree()
      ensures hint == null ==> HintIn(shape, hint)
    {
    }

    // Lines 531-540: walk up as long as layers become idle, and free those.
    method Climb(id: int, pa: array<SlotRef<V>>, ghost clean: bool, ghost t0: Shape<V>) returns (ghost gone: seq<Key>)
      requires pa.Length == MAX_IDR_LEVEL + 1 && Climbing(clean, id, 0, pa[..], null, t0)
      modifies this`top, this`layers, this`hint, this`shape, this`freed, owned
      ensures Base(clean) && SameLeaves(t0, shape) && HintIn(shape, hint)
      ensures old(hint) == null ==> hint == null
      ensures Gone(old(shape), shape, gone) && Logged(old(shape), gone, old(freed), freed)
    {
      hide Base, Climbing, SameLeaves, HintIn, Gone, Logged, Dropped;
      var paa := layers;
      var toFree: Layer?<V> := null;
      ghost var j := 0;
      gone := [];
      DroppedNone();
      ClimbFacts(clean, id, j, pa[..], toFree, t0);
      DerefAt(clean, id, j, pa[..], toFree, t0);
      while pa[paa] != NoRef
        invariant layers == old(layers) && 0 <= j <= layers <= MAX_IDR_LEVEL && paa == layers - j
        invariant old(hint) == null ==> hint == null
        invariant Climbing(clean, id, j, pa[..], toFree, t0) && (pa[paa] == NoRef <==> j == layers)
        invariant Dropped(old(shape), shape, gone, toFree, old(freed))
        decreases paa
      {
        var idle;
        idle, toFree, gone := ClimbStep(clean, id, j, pa[..], pa[paa], toFree, t0, old(shape), gone, old(freed));
        if !idle {
          break;
        }
        paa := paa - 1;
        j := j + 1;
        ClimbFacts(clean, id, j, pa[..], toFree, t0);
        DerefAt(clean, id, j, pa[..], toFree, t0);
      }
      if pa[paa] == NoRef {
        ClimbFacts(clean, id, j, pa[..], toFree, t0);
        layers := 0;
        EmptyBase(clean);
      }
      FreeDropped(toFree, old(shape), gone, old(freed));
      HintFree();
    }

    lemma DroppedNone()
      ensures Dropped(shape, shape, [], null, freed)
    {
    }

    lemma DroppedSame(t0: Shape<V>, t: Shape<V>, gone: seq<Key>, toFree: Layer?<V>, before: seq<Layer<V>>)
      requires SameLayers(t, shape) && Dropped(t0, t, gone, toFree, before)
      ensures Dropped(t0, shape, gone, toFree, before)
    {
      GoneSame(t0, t, shape, gone);
    }

    // The tree is as it should be, but for bits that may be missing on the way to `id`.
    ghost predicate Lagging(clean: bool, id: int)
      reads this`top, this`layers, this`idFree, this`dirty, this`shape, this`owned, owned
    {
      Mirrors(shape) && PoolOk(clean) && TreeX(shape, top, layers, id, NO_KEY)
    }

    method EmptyCell(ghost clean: bool, id: int, p: Layer<V>)
      requires Mirrors(shape) && PoolOk(clean) && PathKey(id, 0) in shape && p == shape[PathKey(id, 0)].at
        && Sized(p.View())
      modifies this`shape, p
      ensures Mirrors(shape) && PoolOk(clean)
      ensures PathKey(id, 0) in old(shape) && Sized(old(shape)[PathKey(id, 0)].data)
        && shape == EmptySlot(old(shape), id)
    {
      p.bitmap := p.bitmap[id % IDR_SIZE := false];
      p.ary := p.ary[id % IDR_SIZE := Nil];
      shape := EmptySlot(shape, id);
    }

    // Lines 528-529.
    method EmptyLeaf(ghost clean: bool, id: int, p: Layer<V>, ghost refs: seq<SlotRef<V>>, ghost t0: Shape<V>)
      requires Clearing(clean, id, 0, p, refs, t0) && HintIn(shape, hint)
      requires Sized(p.View()) && p.bitmap[id % IDR_SIZE] && layers <= MAX_IDR_LEVEL
      modifies this`shape, owned
      ensures PathKey(id, 0) in old(shape) && Sized(old(shape)[PathKey(id, 0)].data) && old(LeafBit(shape, id))
      ensures shape == EmptySlot(old(shape), id) && Climbing(clean, id, 0, refs, null, shape)
    {
      hide TreeX, ClearAbove, Refs, HintIn, SameLeaves, Mirrors, PoolOk;
      AtMirror(id, 0, p, id, NO_KEY);
      WayDown(shape, top, layers, id, NO_KEY, id, 0, p);
      LeafBitAt(shape, id);
      EmptySlotKeeps(shape, top, layers, id);
      HintEmptied(shape, id, hint);
      RefsKept(shape, EmptySlot(shape, id), layers, id, 0, refs);
      EmptyCell(clean, id, p);
      SameLeavesSelf(shape);
    }

    lemma LeafNow(clean: bool, id: int, p: Layer?<V>, refs: seq<SlotRef<V>>, t0: Shape<V>)
      requires Cleared(clean, id, p, refs, t0)
      ensures Grown(t0, shape)
      ensures p == null ==> !LeafBit(shape, id)
      ensures p != null ==>
          p in owned && Sized(p.View()) && layers <= MAX_IDR_LEVEL && p.bitmap[id % IDR_SIZE] == LeafBit(shape, id)
      ensures !LeafBit(shape, id) ==> Base(clean)
    {
      LeafBitAt(shape, id);
      if p != null {
        AtMirror(id, 0, p, id, NO_KEY);
      }
      if !LeafBit(shape, id) {
        assert ClearAbove(shape, layers, id, 0);
        ClearDone(shape, top, layers, id, NO_KEY);
      }
    }

    lemma EmptiedLayers(t0: Shape<V>, t: Shape<V>, id: int)
      requires SameLayers(t0, t) && PathKey(id, 0) in t && Sized(t[PathKey(id, 0)].data)
      ensures SameLayers(t0, EmptySlot(t, id))
    {
    }

    // Lines 508-543.
    method SubRemove(id: int, ghost clean: bool) returns (removed: bool, ghost gone: seq<Key>)
      requires Lagging(clean, id) && HintIn(shape, hint)
      requires 0 <= id && (layers > 0 ==> id <= IdrMax(layers))
      modifies this`top, this`layers, this`hint, this`shape, this`freed, owned
      ensures Base(clean) && HintIn(shape, hint)
      ensures removed == old(LeafBit(shape, id)) && GivenUp(old(shape), shape, id)
      ensures old(hint) == null ==> hint == null
      ensures Gone(old(shape), shape, gone) && Logged(old(shape), gone, old(freed), freed)
    {
      hide Lagging, Clearing, Base, HintIn, SameLeaves, Extends, GivenUp, Climbing, Gone, Logged, SameLayers;
      var pa := new SlotRef<V>[MAX_IDR_LEVEL + 1](_ => NoRef);
      ghost var t0 := shape;
      var p := ClearPath(clean, id, pa);
      ghost var t1 := shape;
      LeafNow(clean, id, p, pa[..], t0);
      HintGrown(t0, t1, hint);
      CoveredStable(t0, t1, id, id + 1);
      removed := p != null && p.bitmap[id % IDR_SIZE];
      if removed {
        EmptyLeaf(clean, id, p, pa[..], t0);
        ghost var t2 := shape;
        gone := Climb(id, pa, clean, shape);
        GivenUpBy(t0, t1, shape, id);
        EmptiedLayers(t0, t1, id);
        GoneFrom(t0, t2, shape, gone, old(freed), freed);
      } else {
        GivenUpNot(t0, t1, id);
        gone := [];
        GoneNone(t0, t1);
        LoggedNone(t0, freed);
      }
    }

    lemma ShrinkFacts(clean: bool)
      requires Base(clean) && HintIn(shape, hint)
      requires top != null && top.count == 1 && layers > 1 && |top.ary| == IDR_SIZE && top.ary[0] != Nil
      ensures Key(layers - 1, 0) in shape && shape[Key(layers - 1, 0)].at == top && top in owned
      ensures Key(layers - 2, 0) in shape && top.ary[0] == Sub(shape[Key(layers - 2, 0)].at)
      ensures Tree(shape - {Key(layers - 1, 0)}, shape[Key(layers - 2, 0)].at, layers - 1)
      ensures SameLeaves(shape, shape - {Key(layers - 1, 0)}) && |top.bitmap| == IDR_SIZE
      ensures hint != top ==> HintIn(shape - {Key(layers - 1, 0)}, hint)
      ensures Less(shape, shape - {Key(layers - 1, 0)}, Key(layers - 1, 0))
    {
      hide TreeX, SameLeaves;
      RootNode(shape, top, layers);
      ShrinkKeeps(shape, top, layers);
      HintCut(shape, shape - {Key(layers - 1, 0)}, hint, Key(layers - 1, 0));
    }

    // Lines 564-579: a root with the leftmost layer only below it is given up.
    method Shrink(ghost clean: bool)
      requires Base(clean) && HintIn(shape, hint)
      requires top != null && top.count == 1 && layers > 1 && |top.ary| == IDR_SIZE && top.ary[0] != Nil
      modifies this`top, this`layers, this`hint, this`shape, this`freed, owned
      ensures Base(clean) && HintIn(shape, hint) && SameLeaves(old(shape), shape)
      ensures old(hint) == null ==> hint == null
      ensures Less(old(shape), shape, Key(old(layers) - 1, 0))
        && freed == old(freed) + [old(shape)[Key(old(layers) - 1, 0)].at]
    {
      hide Tree, SameLeaves, Less;
      ShrinkFacts(clean);
      var toFree := top;
      top := top.ary[0].node;
      layers := layers - 1;
      shape := shape - {Key(layers, 0)};
      toFree.count := 0;
      toFree.bitmap := AfterBitmapClear(toFree.bitmap);
      FreeLayer(toFree);
    }

    lemma RootSized(clean: bool)
      requires Base(clean)
      ensures top != null ==> top in owned && |top.ary| == IDR_SIZE
    {
      if top != null {
        RootNode(shape, top, layers);
      }
    }

    // Lines 550-580, for a tree in which bits may be missing on the way to `id`.
    method RemoveEntry(id: int, ghost clean: bool) returns (removed: bool, ghost gone: seq<Key>)
      requires Lagging(clean, id) && HintIn(shape, hint) && 0 <= id <= INT_MAX && layers >= 0
      modifies this`top, this`layers, this`hint, this`shape, this`freed, owned
      ensures HintIn(shape, hint) && removed == old(LeafBit(shape, id)) && GivenUp(old(shape), shape, id)
      ensures if id <= IdrMax(old(layers)) then Base(clean) else !removed && Base(clean) == old(Base(clean))
      ensures old(hint) == null ==> hint == null
      ensures Gone(old(shape), shape, gone) && Logged(old(shape), gone, old(freed), freed)
    {
      hide TreeX, HintIn, SameLeaves, GivenUp, Gone, Logged, Less;
      if id > IdrMax(layers) {
        NoLeaf(shape, top, layers, id, id);
        LeafBitAt(shape, id);
        SameLeavesSelf(shape);
        GivenUpNot(shape, shape, id);
        GoneNone(shape, shape);
        LoggedNone(shape, freed);
        return false, [];
      }
      removed, gone := SubRemove(id, clean);
      RootSized(clean);
      if top != null && top.count == 1 && layers > 1 && top.ary[0] != Nil {
        ghost var t, f, k := shape, freed, Key(layers - 1, 0);
        Shrink(clean);
        GivenUpOn(old(shape), t, shape, id);
        GoneOne(old(shape), t, shape, gone, k);
        LoggedOne(old(shape), gone, old(freed), f, k);
        gone := gone + [k];
      }
    }

    // Lines 550-580: the id is free afterwards, and nothing else has changed. The layers that
    // leave the tree, and only those, are passed to free_layer, each once.
    method Remove(id: int) returns (removed: bool, ghost gone: seq<Key>)
      requires Valid() && id <= INT_MAX
      modifies this`top, this`layers, this`hint, this`shape, this`freed, owned
      ensures Valid()
      ensures removed == (id in old(Bindings(shape))) && Bindings(shape) == old(Bindings(shape)) - {id}
      ensures Gone(old(shape), shape, gone) && Logged(old(shape), gone, old(freed), freed)
    {
      hide TreeX, HintIn, GivenUp, NilWhenClear, Gone, Logged;
      if id < 0 {
        GoneNone(shape, shape);
        LoggedNone(shape, freed);
        return false, [];
      }
      LagMore(shape, top, layers, id);
      Height(shape, top, layers);
      ghost var t := shape;
      removed, gone := RemoveEntry(id, false);
      GivenUpBindings(t, shape, id);
    }

    // Lines 599-603, 701-705 and 752-756: go down from level `l0` to level `low` of the way
    // to `id` or to where the way ends, in the tree `t` of `h` layers. The layers read on the
    // way are `seen`.
    method Descend(ghost t: Shape<V>, ghost root: Layer?<V>, h: int, id: int, l0: int, low: int, pa: array<Slot<V>>)
      returns (l: int, p: Slot<V>, ghost seen: seq<Key>)
      requires Mirrors(t) && Tree(t, root, h) && pa.Length == MAX_IDR_LEVEL + 1
      requires 0 <= low && 0 <= l0 <= h && InStep(t, h, id, l0, pa[..])
      modifies pa
      ensures 0 <= l <= l0 && (low <= l0 ==> low <= l) && InStep(t, h, id, l, pa[..])
      ensures p == Content(t, id, l) && (l <= low || p == Nil)
      ensures forall m :: l < m <= l0 ==> Content(t, id, m) != Nil
      ensures |seen| == l0 - l && forall i :: 0 <= i < |seen| ==> seen[i] == PathKey(id, l0 - 1 - i) && seen[i] in t
    {
      hide TreeX, LeafSlot;
      Height(t, root, h);
      l, seen := l0, [];
      assert Content(t, id, l) == Content(t, id, l);
      p := pa[h - l];
      while l > low && p != Nil
        invariant 0 <= l <= l0 && (low <= l0 ==> low <= l) && InStep(t, h, id, l, pa[..])
        invariant p == Content(t, id, l)
        invariant forall m :: l < m <= l0 ==> Content(t, id, m) != Nil
        invariant |seen| == l0 - l && forall i :: 0 <= i < |seen| ==> seen[i] == PathKey(id, l0 - 1 - i) && seen[i] in t
        decreases l
      {
        ContentDown(t, root, h, id, l);
        ghost var old' := pa[..];
        l := l - 1;
        assert p.node == t[PathKey(id, l)].at;
        seen := seen + [PathKey(id, l)];
        p := p.node.ary[Shr(IDR_SIZE, id, l) % IDR_SIZE];
        pa[h - l] := p;
        InStepPush(t, h, id, l, old', pa[..]);
      }
    }

    // Lines 714-717 and 771-774: climb to the level of the highest bit of the new id.
    method Ascend(id: int, l0: int) returns (l: int)
      requires -0x8000_0000 <= id <= INT_MAX && 0 <= l0 <= MAX_IDR_LEVEL
      ensures l0 <= l <= if l0 > 4 then l0 else 4
      ensures id >= 0 ==> id < Shl(IDR_SIZE, 1, l) && (l > l0 ==> id >= Shl(IDR_SIZE, 1, l - 1))
    {
      l := l0;
      while 8 * l < Fls(id)
        invariant l0 <= l <= 4
        invariant id >= 0 && l > l0 ==> id >= Shl(IDR_SIZE, 1, l - 1)
        decreases 4 - l
      {
        FlsDigits(id, l);
        l := l + 1;
      }
      FlsDigits(id, l);
    }

    lemma LeafContent(id: int)
      ensures Content(shape, id, 0) == LeafSlot(shape, id)
    {
    }

    // Lines 770-774: past an empty place at level `l0`.
    method Skip(x: int, l0: int, ghost pa: seq<Slot<V>>) returns (id: int, l: int)
      requires Base(false) && top != null && 0 <= l0 <= layers && 0 <= x <= IdrMax(layers)
      requires Content(shape, x, l0) == Nil && InStep(shape, layers, x, l0, pa)
      ensures id < 0 || id > x
      ensures forall z :: x <= z < (if id < 0 then INT_MAX + 1 else id) ==> LeafSlot(shape, z) == Nil
      ensures 0 <= id <= IdrMax(layers) ==> 0 <= l <= layers && InStep(shape, layers, id, l, pa)
    {
      hide TreeX, LeafSlot, PoolOk, InStep, Mirrors, Content;
      Height(shape, top, layers);
      id := Wrap32(Shl(IDR_SIZE, Shr(IDR_SIZE, x, l0) + 1, l0));
      GoneBy(shape, top, layers, x, l0, Shl(IDR_SIZE, Shr(IDR_SIZE, x, l0) + 1, l0));
      l := Ascend(id, l0);
      if 0 <= id <= IdrMax(layers) {
        InStepClimb(shape, layers, x, id, l0, l, pa);
        if l > l0 {
          ClimbBelow(layers, id, l);
        }
      }
    }

    // Lines 736-777: the next id from `nextid` on that is bound to a pointer.
    method GetNext(nextid: int) returns (r: Slot<V>, id: int)
      requires Base(false) && -0x8000_0000 <= nextid <= INT_MAX
      ensures r != Nil ==> nextid <= id <= INT_MAX && 0 <= nextid && r == LeafSlot(shape, id)
      ensures r != Nil ==> forall x :: nextid <= x < id ==> LeafSlot(shape, x) == Nil
      ensures r == Nil && 0 <= nextid ==> forall x :: nextid <= x <= INT_MAX ==> LeafSlot(shape, x) == Nil
    {
      hide TreeX, LeafSlot, PoolOk, InStep, Content;
      id := nextid;
      var pa := new Slot<V>[MAX_IDR_LEVEL + 1](_ => Nil);
      r := Nil;
      if top == null {
        Height(shape, top, layers);
        NothingAbove(shape, top, layers, 0);
        return;
      }
      RootNode(shape, top, layers);
      pa[0] := Sub(top);
      var l := top.layer + 1;
      var max := IdrMax(top.layer + 1);
      NothingAbove(shape, top, layers, max + 1);
      if 0 <= id <= max {
        InStepStart(shape, top, layers, id, pa[..]);
      }
      while 0 <= id <= max
        invariant r == Nil
        invariant id >= 0 ==> nextid <= id && forall x :: nextid <= x < id ==> LeafSlot(shape, x) == Nil
        invariant id < 0 && 0 <= nextid ==> forall x :: nextid <= x <= INT_MAX ==> LeafSlot(shape, x) == Nil
        invariant 0 <= id <= max ==> 0 <= l <= layers && InStep(shape, layers, id, l, pa[..])
        decreases if id < 0 then 0 else INT_MAX + 1 - id
      {
        ghost var seen;
        l, r, seen := Descend(shape, top, layers, id, l, 0, pa);
        if r != Nil {
          LeafContent(id);
          return;
        }
        id, l := Skip(id, l, pa[..]);
      }
    }

    // What has been visited when the walk has come to `id`.
    ghost predicate Visited(visited: seq<int>, id: int, fn: (int, Slot<V>) -> int)
      reads this`shape
    {
      && (forall i, j :: 0 <= i < j < |visited| ==> visited[i] < visited[j])
      && (forall x :: x in visited ==> 0 <= x < id && LeafSlot(shape, x) != Nil && fn(x, LeafSlot(shape, x)) == 0)
      && (forall x :: 0 <= x < id && LeafSlot(shape, x) != Nil ==> x in visited)
    }

    lemma VisitNone(visited: seq<int>, id: int, id': int, fn: (int, Slot<V>) -> int)
      requires Visited(visited, id, fn) && id <= id'
      requires forall x :: id <= x < id' ==> LeafSlot(shape, x) == Nil
      ensures Visited(visited, id', fn)
    {
    }

    lemma VisitOne(visited: seq<int>, id: int, fn: (int, Slot<V>) -> int)
      requires Visited(visited, id, fn) && 0 <= id && LeafSlot(shape, id) != Nil && fn(id, LeafSlot(shape, id)) == 0
      ensures Visited(visited + [id], id + 1, fn)
    {
      assert forall i :: 0 <= i < |visited| ==> visited[i] in visited;
    }

    lemma WalkStart(pa: seq<Slot<V>>, fn: (int, Slot<V>) -> int)
      requires Base(false) && pa != [] && pa[0] == if top == null then Nil else Sub(top)
      ensures layers >= 0 && InStep(shape, layers, 0, layers, pa) && NilAligned(shape, layers, 0) && Visited([], 0, fn)
      ensures layers > 0 ==> Content(shape, 0, layers) != Nil
    {
      InStepStart(shape, top, layers, 0, pa);
      ContentTop(shape, top, layers, 0);
      NilAlignedZero(shape, layers);
    }

    // The walk has stopped at level `l` of the way to `x` and moves on by `1 << n`.
    lemma WalkOn(visited: seq<int>, x: int, l: int, p: Slot<V>, fn: (int, Slot<V>) -> int)
      requires Base(false) && 0 <= l <= layers && 0 <= x <= IdrMax(layers) && NilAligned(shape, layers, x)
      requires p == Content(shape, x, l) && (l == 0 || p == Nil)
      requires layers > 0 ==> l < layers && Content(shape, x, l + 1) != Nil
      requires Visited(visited, if p == Nil then x else x + 1, fn)
      ensures x < x + Shl(IDR_SIZE, 1, l) <= INT_MAX + 1
      ensures Visited(visited, x + Shl(IDR_SIZE, 1, l), fn) && NilAligned(shape, layers, x + Shl(IDR_SIZE, 1, l))
      ensures forall m :: l < m <= layers ==> Content(shape, x, m) != Nil
    {
      hide Visited;
      var y := Shl(IDR_SIZE, Shr(IDR_SIZE, x, l) + 1, l);
      if layers == 0 {
        assert Aligned(x + 1, 0);
        NothingAbove(shape, top, layers, 0);
        VisitNone(visited, x, x + 1, fn);
      } else {
        assert Aligned(x, l);
        AlignNext(shape, top, layers, x, l, y);
        if p == Nil {
          GoneBy(shape, top, layers, x, l, y);
          VisitNone(visited, x, y, fn);
        }
      }
    }

    // The walk stands before `id`, with the stack in step from level `l` up.
    ghost predicate Walking(visited: seq<int>, id: int, l: int, pa: seq<Slot<V>>, fn: (int, Slot<V>) -> int)
      reads this`layers, this`shape
    {
      && -0x8000_0000 <= id <= INT_MAX && 0 <= layers <= MAX_IDR_LEVEL
      && (if id >= 0 then Visited(visited, id, fn) else Visited(visited, INT_MAX + 1, fn))
      && (0 <= id <= IdrMax(layers) ==>
          0 <= l <= layers && InStep(shape, layers, id, l, pa) && NilAligned(shape, layers, id))
      && (0 <= id <= IdrMax(layers) && layers > 0 ==> Content(shape, id, l) != Nil)
    }

    // Lines 713-717.
    method MoveOn(ghost visited: seq<int>, x: int, l0: int, ghost p: Slot<V>, ghost pa: seq<Slot<V>>,
        ghost fn: (int, Slot<V>) -> int)
      returns (id: int, l: int)
      requires Base(false) && 0 <= l0 <= layers <= MAX_IDR_LEVEL && 0 <= x <= IdrMax(layers)
      requires NilAligned(shape, layers, x) && InStep(shape, layers, x, l0, pa)
      requires p == Content(shape, x, l0) && (l0 == 0 || p == Nil)
      requires layers > 0 ==> l0 < layers && Content(shape, x, l0 + 1) != Nil
      requires Visited(visited, if p == Nil then x else x + 1, fn)
      ensures Walking(visited, id, l, pa, fn) && (id < 0 || id > x)
    {
      hide Base, InStep, Visited, NilAligned, Content;
      WalkOn(visited, x, l0, p, fn);
      id := Wrap32(x + Shl(IDR_SIZE, 1, l0));
      l := Ascend(id, l0);
      if 0 <= id <= IdrMax(layers) {
        InStepClimb(shape, layers, x, id, l0, l, pa);
        ClimbBelow(layers, id, l);
        ContentClimbed(shape, x, id, l);
      }
    }

    lemma BaseParts(clean: bool)
      requires Base(clean)
      ensures Mirrors(shape) && Tree(shape, top, layers) && PoolOk(clean)
    {
    }

    // Lines 686-721: call `fn` for every id bound to a pointer, as long as it answers 0.
    method ForEach(fn: (int, Slot<V>) -> int) returns (error: int, visited: seq<int>)
      requires Base(false)
      ensures error == 0 ==> Visited(visited, INT_MAX + 1, fn)
      ensures error != 0 ==> Stopped(visited, error, fn)
    {
      hide Base, Mirrors, Tree, InStep, Visited, NilAligned, Content, LeafSlot;
      WalkEnds();
      error, visited := 0, [];
      var pa := new Slot<V>[MAX_IDR_LEVEL + 1](_ => Nil);
      pa[0] := if top == null then Nil else Sub(top);
      var l := layers;
      var max := IdrMax(layers);
      var id := 0;
      WalkStart(pa[..], fn);
      while 0 <= id <= max
        invariant error == 0 && Walking(visited, id, l, pa[..], fn)
        decreases if id < 0 then 0 else INT_MAX + 1 - id
      {
        var p;
        ghost var l0 := l;
        BaseParts(false);
        ghost var seen;
        l, p, seen := Descend(shape, top, layers, id, l, 0, pa);
        DescendedOne(id, l0, l);
        if p != Nil {
          error := fn(id, p);
          if error != 0 {
            StopAt(visited, id, p, fn);
            visited := visited + [id];
            break;
          }
          VisitOne(visited, id, fn);
          visited := visited + [id];
        }
        id, l := MoveOn(visited, id, l, p, pa[..], fn);
      }
      if error == 0 && id >= 0 {
        VisitNone(visited, id, INT_MAX + 1, fn);
      }
    }

    // Lines 845-853: a pool of ids is empty when no id is bound to a pointer.
    method IsEmpty() returns (empty: bool)
      requires Base(false)
      ensures empty <==> forall x :: 0 <= x <= INT_MAX ==> LeafSlot(shape, x) == Nil
    {
      hide Base, LeafSlot;
      var error, visited := ForEach((_, _) => 1);
      empty := error == 0;
      assert error == 0 ==> forall x :: x in visited ==> false;
    }

    // The walk has been cut short by the last id visited.
    ghost predicate Stopped(visited: seq<int>, error: int, fn: (int, Slot<V>) -> int)
      reads this`shape
    {
      && visited != []
      && var last := visited[|visited| - 1];
         && 0 <= last <= INT_MAX && LeafSlot(shape, last) != Nil && error == fn(last, LeafSlot(shape, last))
         && Visited(visited[..|visited| - 1], last, fn)
    }

    lemma StopAt(visited: seq<int>, id: int, p: Slot<V>, fn: (int, Slot<V>) -> int)
      requires Visited(visited, id, fn) && 0 <= id <= INT_MAX && p == Content(shape, id, 0) && p != Nil
      ensures Stopped(visited + [id], fn(id, p), fn)
    {
      assert (visited + [id])[..|visited|] == visited;
    }

    lemma WalkEnds()
      requires Base(false)
      ensures 0 <= layers <= MAX_IDR_LEVEL
      ensures forall x :: IdrMax(layers) < x ==> LeafSlot(shape, x) == Nil
    {
      Height(shape, top, layers);
      NothingAbove(shape, top, layers, IdrMax(layers) + 1);
    }

    lemma DescendedOne(id: int, l0: int, l: int)
      requires Base(false) && 0 <= l <= l0 <= layers && (layers > 0 ==> Content(shape, id, l0) != Nil)
      requires l == 0 || Content(shape, id, l) == Nil
      requires forall m :: l < m <= l0 ==> Content(shape, id, m) != Nil
      ensures layers > 0 ==> l < layers && Content(shape, id, l + 1) != Nil
      ensures Content(shape, id, 0) == LeafSlot(shape, id)
    {
      LeafBitAt(shape, id);
    }

    // Lines 609-610.
    method FreeStacked(ghost t: Shape<V>, h: int, ghost x: int, ghost l0: int, l: int, pa: array<Slot<V>>,
        ghost order0: seq<Key>, ghost order: seq<Key>, ghost before: seq<Layer<V>>)
      returns (ghost order': seq<Key>)
      requires pa.Length == MAX_IDR_LEVEL + 1 && 1 <= l0 <= l <= h <= MAX_IDR_LEVEL && InStep(t, h, x, l0, pa[..])
      requires order0 <= order && Logged(t, order[|order0|..], before, freed) && FreedMid(t, order, x, l0, l)
        && HintLive(t, order, hint)
      modifies this`hint, this`freed
      ensures order0 <= order' && Logged(t, order'[|order0|..], before, freed) && FreedMid(t, order', x, l0, l + 1)
        && HintLive(t, order', hint)
    {
      hide InStep, FreedMid, HintLive;
      FreeNext(t, order, x, l0, l);
      StackTop(t, h, x, l0, l, pa[..]);
      order' := order;
      if pa[h - l] != Nil {
        ghost var k := PathKey(x, l - 1);
        HintFreed(t, order, hint, k);
        FreeLayer(pa[h - l].node);
        order' := order + [k];
        assert order'[|order0|..] == order[|order0|..] + [k];
      }
    }

    // Lines 605-613: having dealt with the place of `x` at level `l0`, free the layers on the
    // way whose last id is past.
    method FreePast(ghost t: Shape<V>, ghost root: Layer?<V>, h: int, x: int, l0: int, id: int, pa: array<Slot<V>>,
        ghost order0: seq<Key>)
      returns (l: int, ghost order: seq<Key>)
      requires Mirrors(t) && Tree(t, root, h) && pa.Length == MAX_IDR_LEVEL + 1
      requires 1 <= l0 <= h <= MAX_IDR_LEVEL && InStep(t, h, x, l0, pa[..])
      requires 0 <= x <= IdrMax(h) && Aligned(x, l0) && -0x8000_0000 <= id <= INT_MAX
        && Unsigned32(id) == x + Shl(IDR_SIZE, 1, l0) <= INT_MAX + 1
      requires FreedTo(t, order0, x) && HintLive(t, order0, hint)
      modifies this`hint, this`freed
      ensures order0 <= order && Logged(t, order[|order0|..], old(freed), freed)
      ensures FreedMid(t, order, x, l0, l) && HintLive(t, order, hint)
      ensures l0 <= l && Shr(IDR_SIZE, x, l) == Shr(IDR_SIZE, Unsigned32(id), l)
      ensures forall n :: l0 <= n < l ==> Shr(IDR_SIZE, x, n) != Shr(IDR_SIZE, Unsigned32(id), n)
    {
      assert Unsigned32(x) == x;
      hide Tree, InStep, FreedTo, FreedMid, HintLive, Xor32, Aligned, Unsigned32, Logged;
      l, order := l0, order0;
      FreeStart(t, order, x, l);
      LoggedNone(t, freed);
      assert order[|order0|..] == [];
      while 8 * l < Fls(Xor32(id, x))
        invariant l0 <= l <= h + 1
        invariant order0 <= order && Logged(t, order[|order0|..], old(freed), freed)
        invariant FreedMid(t, order, x, l0, l) && HintLive(t, order, hint)
        invariant forall n :: l0 <= n < l ==> Shr(IDR_SIZE, x, n) != Shr(IDR_SIZE, Unsigned32(id), n)
        decreases h + 1 - l
      {
        FlsXor32(id, x, l);
        StopsAbove(h, x, l0, Unsigned32(id), l);
        order := FreeStacked(t, h, x, l0, l, pa, order0, order, old(freed));
        l := l + 1;
      }
      FlsXor32(id, x, l);
    }

    // Lines 597-614: one round of the walk.
    method RemoveRound(ghost t: Shape<V>, ghost root: Layer?<V>, h: int, x: int, l0: int, pa: array<Slot<V>>,
        ghost order0: seq<Key>)
      returns (id: int, l: int, ghost order: seq<Key>, ghost seen: seq<Key>)
      requires Mirrors(t) && Tree(t, root, h) && pa.Length == MAX_IDR_LEVEL + 1
      requires Emptying(t, h, x, l0, pa[..], order0, hint) && 0 <= x <= IdrMax(h)
      modifies this`hint, this`freed, pa
      ensures Emptying(t, h, id, l, pa[..], order, hint) && (id < 0 || id > x)
      ensures order0 <= order && Logged(t, order[|order0|..], old(freed), freed)
      ensures forall k :: k in seen ==> k in t && k !in order0
    {
      hide Mirrors, Tree, InStep, LeafAligned, Content, FreedTo, FreedMid, HintLive, Aligned;
      ghost var pa0 := pa[..];
      var p;
      l, p, seen := Descend(t, root, h, x, l0, 1, pa);
      SeenLive(t, order0, x, l0, seen);
      id := Wrap32(x + Shl(IDR_SIZE, 1, l));
      if h == 0 {
        // the root pointer is null and there is nothing to climb
        EmptyingNone(t, root, x, l, pa[..], order0, hint);
        order := order0;
      } else {
        ghost var l1 := l;
        EmptyingStep(t, root, h, x, l0, l, pa0, order0, hint);
        ShlGrowsIn(0, l);
        UnsignedWrap(x + Shl(IDR_SIZE, 1, l));
        l, order := FreePast(t, root, h, x, l, id, pa, order0);
        EmptyingNext(t, root, h, x, l1, Unsigned32(id), id, l, pa[..], order, hint);
      }
    }

    lemma EmptyingNone(t: Shape<V>, root: Layer?<V>, x: int, l: int, pa: seq<Slot<V>>, order: seq<Key>, hint: Layer?<V>)
      requires Tree(t, root, 0) && Emptying(t, 0, x, 0, pa, order, hint) && x == 0 && l == 0
      ensures Emptying(t, 0, 1, l, pa, order, hint)
    {
      Height(t, root, 0);
      NoTree(t, -1);
    }

    lemma RootKept(t: Shape<V>, root: Layer?<V>, h: int, order: seq<Key>, before: seq<Layer<V>>)
      requires Mirrors(t) && Tree(t, root, h) && Logged(t, order, before, freed)
      ensures h == MAX_IDR_LEVEL && Key(3, 0) !in order ==> root != null && root !in freed[|before|..]
    {
      if h == MAX_IDR_LEVEL && Key(3, 0) !in order {
        var late := freed[|before|..];
        forall i | 0 <= i < |late| ensures late[i] != root {
          assert order[i] in order && t[order[i]].at.key == order[i];
        }
      }
    }

    // Lines 583-616: free all layers of the tree. What is done with the layers, in order, is
    // the trace.
    method RemoveAll() returns (ghost order: seq<Key>, ghost trace: seq<Touch>)
      requires Base(false) && HintIn(shape, hint)
      modifies this`top, this`layers, this`hint, this`shape, this`freed
      ensures Base(false) && shape == map[] && layers == 0
      ensures Logged(old(shape), order, old(freed), freed) && ChildrenFirst(order)
      ensures forall k :: k in order <==> k in old(shape) && !(old(layers) == MAX_IDR_LEVEL && k == Key(3, 0))
      ensures hint == null
      ensures Frees(trace) == order && NoLateRead(trace) && Within(old(shape), trace)
      ensures old(layers) == MAX_IDR_LEVEL ==> old(top) != null && old(top) !in freed[|old(freed)|..]
    {
      hide Base, Mirrors, Tree, Emptying, PoolOk, NoLateRead, Frees;
      BaseParts(false);
      Height(shape, top, layers);
      ghost var t, root := shape, top;
      var h := layers;
      var pa := new Slot<V>[MAX_IDR_LEVEL + 1](_ => Nil);
      pa[0] := if top == null then Nil else Sub(top);
      EmptyingStart(t, root, h, pa[..], hint);
      var l := layers;
      top := null;
      var max := IdrMax(h);
      order, trace := [], [];
      TraceNone();
      var id := 0;
      while 0 <= id <= max
        invariant Mirrors(t) && PoolOk(false) && top == null
        invariant Emptying(t, h, id, l, pa[..], order, hint) && Logged(t, order, old(freed), freed)
        invariant Frees(trace) == order && NoLateRead(trace) && Within(t, trace)
        decreases if id < 0 then 0 else INT_MAX + 1 - id
      {
        ghost var order0, f := order, freed;
        ghost var seen;
        id, l, order, seen := RemoveRound(t, root, h, id, l, pa, order);
        LoggedOn(t, order0, order, old(freed), f, freed);
        TraceRound(trace, order0, seen, order[|order0|..]);
        assert order == order0 + order[|order0|..];
        trace := trace + Reading(seen) + Freeing(order[|order0|..]);
      }
      EmptyingEnd(t, root, h, id, l, pa[..], order, hint);
      RootKept(t, root, h, order, old(freed));
      layers := 0;
      shape := map[];
      EmptyBase(false);
    }
  }

  // A pool that has handed out a large id keeps its root when everything is freed.
  method LeakingRun<V>(ptr: Slot<V>) returns (r: Result, root: Layer?<V>, idr: Idr<V>)
    requires !ptr.Sub?
    ensures r.Ok? ==> root != null && root !in idr.freed && idr.shape == map[]
  {
    idr := new Idr<V>();
    r := idr.Alloc(ptr, 0x100_0000, 0);
    root := idr.top;
    if r.Ok? {
      idr.BoundLeaf(r.id);
      idr.DeepTree(r.id);
    }
    ghost var order, trace := idr.RemoveAll();
    assert idr.freed[0..] == idr.freed;
  }

  // The outcome of a cyclic allocation: from the larger of `start` and `cur` on if an id is
  // free there, else from `start` on.
  ghost predicate AllocatedCyclic<V>(r: Result, ptr: Slot<V>, start: int, cur: int, end: int,
      before: map<int, Slot<V>>, after: map<int, Slot<V>>) {
    var first := if start > cur then start else cur;
    if r != Err(ENoSpc) && Allocated(r, ptr, first, end, before, after) then true
    else
      && (forall x :: first <= x <= INT_MAX && (end > 0 ==> x < end) ==> x in before)
      && Allocated(r, ptr, start, end, before, after)
  }

  // The outcome of an allocation from `start` on, and below `end` if that is positive: the
  // least id that is free there, or an error that leaves everything bound as it was.
  ghost predicate Allocated<V>(r: Result, ptr: Slot<V>, start: int, end: int, before: map<int, Slot<V>>,
      after: map<int, Slot<V>>) {
    match r
    case Ok(id) =>
      && 0 <= start <= id <= INT_MAX && (end > 0 ==> id < end) && id !in before && after == before[id := ptr]
      && forall x :: start <= x < id ==> x in before
    case Err(e) =>
      && after == before
      && (e == EInval <==> start < 0) && e != EAgain && e != ENoEnt
      && (e == ENoSpc ==> forall x :: start <= x <= INT_MAX && (end > 0 ==> x < end) ==> x in before)
  }
}
