/**
 The radix tree of kernel/linux_radix.c over the tree of module RadixTree: a map from
 indices to items that are not null.
 */
module Radix {
  import opened Digits
  import opened RadixTree

  datatype Errno = EInval | ENoMem | EExist

  datatype Outcome = Done | Failed(error: Errno)

  class Root<V> {
    var rnode: Node?<V>
    var height: int
    ghost var shape: Shape<V>
    ghost var owned: set<Node<V>>   // nodes taken from malloc and not freed
    ghost var refused: int          // how often malloc has had no memory

    // Every node of the tree `t` but `gone`, which has been freed, has the contents recorded there.
    ghost predicate Mirrors(t: Shape<V>, gone: Key)
      reads this`owned, owned
    {
      forall k {:trigger t[k]} :: k in t && k != gone ==>
        t[k].at in owned && t[k].at.View() == t[k].data && t[k].data.key == k && k != NO_KEY
    }

    // No node is lost: whatever has not been freed is in the tree, or among the `spare` ones.
    ghost predicate NoLeak(t: Shape<V>, gone: Key, spare: set<Node<V>>)
      reads this`owned, owned
    {
      && spare <= owned
      && (forall p {:trigger p.View()} :: p in spare ==> p.View() == Empty(NO_KEY))
      && (forall p {:trigger p in owned} :: p in owned && p !in spare ==>
          p.key in t && p.key != gone && t[p.key].at == p)
    }

    // The state inside an operation: node `idle` may have no slot in use.
    ghost predicate Working(idle: Key, spare: set<Node<V>>)
      reads this`rnode, this`height, this`shape, this`owned, owned
    {
      Mirrors(shape, NO_KEY) && NoLeak(shape, NO_KEY, spare) && Tree(shape, rnode, height, idle)
    }

    // The invariant between calls.
    ghost predicate Valid()
      reads this`rnode, this`height, this`shape, this`owned, owned
    {
      Working(NO_KEY, {})
    }

    constructor ()
      ensures Valid() && Entries(shape) == map[] && owned == {}
    {
      rnode, height, shape, owned, refused := null, 0, map[], {}, 0;
    }

    method Malloc() returns (p: Node?<V>)
      modifies this`owned, this`refused
      ensures p == null ==> owned == old(owned) && refused == old(refused) + 1
      ensures p != null ==>
          fresh(p) && owned == old(owned) + {p} && p.View() == Empty(NO_KEY) && refused == old(refused)
    {
      var granted: bool := *;
      if !granted {
        refused := refused + 1;
        return null;
      }
      p := new Node();
      owned := owned + {p};
    }

    method Free(p: Node<V>)
      requires p in owned
      modifies this`owned
      ensures owned == old(owned) - {p}
    {
      owned := owned - {p};
    }

    // What is stored at an index.
    ghost function Stored(index: int): Slot<V>
      reads this`shape
    {
      if index in Entries(shape) then Item(Entries(shape)[index]) else Nil
    }

    lemma StoredIs(index: int)
      requires Valid() && 0 <= index
      ensures Stored(index) == LeafSlot(shape, index)
    {
      InRange(shape, rnode, height, NO_KEY, index);
      if PathKey(index, 0) in shape {
        WayDown(shape, rnode, height, NO_KEY, index, 0, shape[PathKey(index, 0)].at);
      }
    }

    // A node on the way, as the heap has it.
    lemma AtNode(idle: Key, spare: set<Node<V>>, index: int, l: int, p: Node?<V>)
      requires Working(idle, spare) && 0 <= l && At(shape, index, l, p)
      ensures p != null && p in owned && p !in spare && l < height < RADIX_TREE_MAX_HEIGHT
      ensures |p.slots| == MAP_SIZE && p.View() == shape[PathKey(index, l)].data
      ensures var v := p.slots[RadixPos(index, l)];
        && (l == 0 ==> v == LeafSlot(shape, index) && !v.Sub?)
        && (l > 0 && v == Nil ==> PathKey(index, l - 1) !in shape)
        && (l > 0 && v != Nil ==> v.Sub? && At(shape, index, l - 1, v.node))
    {
      WayDown(shape, rnode, height, idle, index, l, p);
    }

    lemma AtRoot(idle: Key, spare: set<Node<V>>, index: int)
      requires Working(idle, spare) && 0 <= index
      ensures 0 <= height < RADIX_TREE_MAX_HEIGHT && (rnode == null <==> height == 0)
      ensures rnode != null && index <= RadixMax(height) ==> At(shape, index, height - 1, rnode)
      ensures height == 0 || index > RadixMax(height) ==> LeafSlot(shape, index) == Nil
    {
      InRange(shape, rnode, height, idle, index);
      if rnode != null && index <= RadixMax(height) {
        RootOnPath(shape, rnode, height, idle, index);
      }
    }

    lemma NoWay(l: int, index: int)
      requires Valid() && 0 < l < height && PathKey(index, l - 1) !in shape
      ensures LeafSlot(shape, index) == Nil
    {
      WayEnds(shape, rnode, height, NO_KEY, index, l, index);
    }

    // Lines 51-72.
    method Lookup(index: int) returns (item: Slot<V>)
      requires Valid() && 0 <= index <= ULONG_MAX
      ensures item == Stored(index)
    {
      hide Tree, Entries, LeafSlot, Mirrors, NoLeak, Stored;
      StoredIs(index);
      AtRoot(NO_KEY, {}, index);
      item := Nil;
      var node := rnode;
      var h := height - 1;
      if index > RadixMax(height) {
        return;
      }
      while h != 0 && node != null
        invariant node != null ==> 0 <= h < height && At(shape, index, h, node)
        invariant node == null ==> LeafSlot(shape, index) == Nil
        decreases if node == null then 0 else h + 1
      {
        AtNode(NO_KEY, {}, index, h, node);
        if node.slots[RadixPos(index, h)] == Nil {
          NoWay(h, index);
        }
        node := match node.slots[RadixPos(index, h)] case Sub(n) => n case _ => null;
        h := h - 1;
      }
      if node != null {
        AtNode(NO_KEY, {}, index, 0, node);
        item := node.slots[RadixPos(index, 0)];
      }
    }

    // The cursor may move on to `y`: nothing is stored from `index` up to there.
    lemma StepOver(index: int, l: int, p: Node<V>, y: int)
      requires Valid() && 0 <= index <= RadixMax(height) && 0 <= l < height && At(shape, index, l, p)
      requires |p.slots| == MAP_SIZE && p.slots[RadixPos(index, l)] == Nil
      requires y == Shl(MAP_SIZE, Shr(MAP_SIZE, index + Shl(MAP_SIZE, 1, l), l), l)
      ensures index < y <= RadixMax(height) + 1
      ensures forall z :: index <= z < y ==> LeafSlot(shape, z) == Nil
      ensures RadixPos(y, l) != 0 ==> At(shape, y, l, p) && y <= RadixMax(height)
    {
      var q := Shr(MAP_SIZE, index, l);
      ShrNext(index, l);
      ShrLess(MAP_SIZE, index, q + 1, l);
      AtNode(NO_KEY, {}, index, l, p);
      forall z | index <= z < y ensures LeafSlot(shape, z) == Nil {
        ShrMonotone(MAP_SIZE, index, z, l);
        ShrLess(MAP_SIZE, z, q + 1, l);
        if l == 0 {
          assert z == index;
        } else {
          WayEnds(shape, rnode, height, NO_KEY, index, l, z);
        }
      }
      RoundUpBelow(MAP_SIZE, index, 1, l, height);
      ShrShl(MAP_SIZE, q + 1, l);
      if RadixPos(y, l) != 0 {
        assert Shr(MAP_SIZE, y, l + 1) == Shr(MAP_SIZE, index, l + 1);
        ShrAgree(MAP_SIZE, index, y, l + 1, height);
        ShrLess(MAP_SIZE, index, 1, height);
        ShrLess(MAP_SIZE, y, 1, height);
      }
    }

    lemma ShrNext(x: int, l: nat)
      ensures Shr(MAP_SIZE, x + Shl(MAP_SIZE, 1, l), l) == Shr(MAP_SIZE, x, l) + 1
    {
      var q := Shr(MAP_SIZE, x, l);
      var y := x + Shl(MAP_SIZE, 1, l);
      ShlSum(q, l);
      ShlSum(q + 1, l);
      ShrLess(MAP_SIZE, x, q, l);
      ShrLess(MAP_SIZE, x, q + 1, l);
      ShrLess(MAP_SIZE, y, q + 1, l);
      ShrLess(MAP_SIZE, y, q + 2, l);
    }

    lemma {:induction false} ShlSum(c: int, l: nat)
      ensures Shl(MAP_SIZE, c + 1, l) == Shl(MAP_SIZE, c, l) + Shl(MAP_SIZE, 1, l)
    {
      if l > 0 {
        ShlSum(c, l - 1);
      }
    }

    // Lines 74-111: the smallest index from `start` on at which something is stored. A step
    // past the last slot of a node starts again from the root.
    method IterFind(start: int) returns (found: bool, index: int, item: Slot<V>)
      requires Valid() && 0 <= start <= ULONG_MAX
      ensures found ==> start <= index < INDEX_LIMIT && item.Item? && item == Stored(index)
      ensures found ==> forall x :: start <= x < index ==> Stored(x) == Nil
      ensures !found ==> index == start && forall x :: start <= x ==> Stored(x) == Nil
    {
      hide Tree, Entries, LeafSlot, Mirrors, NoLeak, RadixPos, Stored;
      var cursor := start;
      index, item := start, Nil;
      while true
        invariant start <= cursor && index == start
        invariant forall x :: start <= x < cursor ==> LeafSlot(shape, x) == Nil
        decreases INDEX_LIMIT + start - cursor
      {
        AtRoot(NO_KEY, {}, cursor);
        var node := rnode;
        if node == null || height == 0 || cursor > RadixMax(height) {
          NothingFrom(start, cursor);
          return false, index, Nil;
        }
        var h := height - 1;
        ghost var from := cursor;
        var restart := false;
        while h != -1 && !restart
          invariant -1 <= h < height < RADIX_TREE_MAX_HEIGHT && from <= cursor <= RadixMax(height) + 1
          invariant forall x :: start <= x < cursor ==> LeafSlot(shape, x) == Nil
          invariant !restart && h >= 0 ==> cursor <= RadixMax(height) && node != null && At(shape, cursor, h, node)
          invariant restart ==> from < cursor && h >= 0
          invariant h == -1 ==> cursor < INDEX_LIMIT && item.Item? && item == LeafSlot(shape, cursor)
          decreases !restart, h, INDEX_LIMIT - cursor
        {
          AtNode(NO_KEY, {}, cursor, h, node);
          var next := node.slots[RadixPos(cursor, h)];
          if next == Nil {
            var step := Shl(MAP_SIZE, 1, h);
            StepOver(cursor, h, node, Shl(MAP_SIZE, Shr(MAP_SIZE, cursor + step, h), h));
            cursor := cursor + step;
            cursor := Shl(MAP_SIZE, Shr(MAP_SIZE, cursor, h), h);
            restart := RadixPos(cursor, h) == 0;
          } else {
            if h == 0 {
              item := next;
            } else {
              node := next.node;
            }
            h := h - 1;
          }
        }
        if !restart {
          index := cursor;
          FoundFirst(start, index);
          return true, index, item;
        }
      }
    }

    lemma NothingFrom(start: int, cursor: int)
      requires Valid() && 0 <= start <= cursor && (height == 0 || cursor > RadixMax(height))
      requires forall x :: start <= x < cursor ==> LeafSlot(shape, x) == Nil
      ensures forall x :: start <= x ==> Stored(x) == Nil
    {
      forall x | start <= x ensures Stored(x) == Nil {
        StoredIs(x);
        if cursor <= x {
          BeyondNil(shape, rnode, height, x);
        }
      }
    }

    lemma FoundFirst(start: int, index: int)
      requires Valid() && 0 <= start <= index
      requires forall x :: start <= x < index ==> LeafSlot(shape, x) == Nil
      ensures Stored(index) == LeafSlot(shape, index)
      ensures forall x :: start <= x < index ==> Stored(x) == Nil
    {
      forall x | start <= x <= index ensures Stored(x) == LeafSlot(shape, x) {
        StoredIs(x);
      }
    }

    // The stack holds the nodes on the way to `index` above level `l`.
    ghost predicate Stacked(index: int, l: int, stack: seq<Node?<V>>)
      reads this`height, this`shape
    {
      height <= |stack| && forall j {:trigger At(shape, index, j, stack[j])} :: 0 <= l < j < height ==>
          At(shape, index, j, stack[j])
    }

    // `node` at level `l` on the way to `index` is about to lose a slot: that of the item, or
    // that of the node below, which had no slot left and is freed.
    ghost predicate Pruning(index: int, l: int, node: Node?<V>, stack: seq<Node?<V>>, t0: Shape<V>)
      reads this`rnode, this`height, this`shape, this`owned, owned
    {
      && index >= 0 && CanCut(shape, index, l) && At(shape, index, l, node) && Stacked(index, l, stack)
      && Tree(shape, rnode, height, Below(index, l))
      && Mirrors(shape, Below(index, l)) && NoLeak(shape, Below(index, l), {})
      && forall y :: LeafSlot(shape, y) == if l > 0 && y == index then Nil else LeafSlot(t0, y)
    }

    // Lines 144-147.
    method CutSlot(index: int, l: int, node: Node<V>, ghost stack: seq<Node?<V>>, ghost t0: Shape<V>)
      requires Pruning(index, l, node, stack, t0)
      modifies this`shape, owned
      ensures node in owned && l < height && PathKey(index, l) in shape && shape[PathKey(index, l)].at == node
      ensures Working(PathKey(index, l), {}) && Stacked(index, l, stack)
      ensures node.View() == shape[PathKey(index, l)].data
      ensures forall y :: LeafSlot(shape, y) == if y == index then Nil else LeafSlot(t0, y)
    {
      hide Tree, LeafSlot, CanCut;
      PruneNode(index, l, node, stack, t0);
      CutKeeps(shape, rnode, height, index, l);
      CutViews(shape, rnode, height, index, l);
      node.slots := node.slots[RadixPos(index, l) := Nil];
      node.count := node.count - 1;
      ghost var t := shape;
      shape := Cut(t, index, l);
      forall j {:trigger At(shape, index, j, stack[j])} | 0 <= l < j < height ensures At(shape, index, j, stack[j]) {
        assert At(t, index, j, stack[j]);
      }
    }

    lemma PruneNode(index: int, l: int, node: Node<V>, stack: seq<Node?<V>>, t0: Shape<V>)
      requires Pruning(index, l, node, stack, t0)
      ensures 0 <= l < height && node in owned && node.View() == shape[PathKey(index, l)].data
        && |node.slots| == MAP_SIZE
      ensures forall j {:trigger At(shape, index, j, stack[j])} :: l < j < height ==> At(shape, index, j, stack[j])
    {
      WayDown(shape, rnode, height, Below(index, l), index, l, node);
    }

    // Lines 148-156: free the idle node, and go on with the one above.
    method PruneUp(index: int, l: int, node: Node<V>, stack: array<Node?<V>>, ghost t0: Shape<V>)
      returns (above: Node?<V>)
      requires index >= 0 && 0 <= l < height && stack.Length == RADIX_TREE_MAX_HEIGHT
      requires Working(PathKey(index, l), {}) && Stacked(index, l, stack[..]) && PathKey(index, l) in shape
        && shape[PathKey(index, l)].at == node
      requires node in owned && node.View() == shape[PathKey(index, l)].data && node.count == 0
      requires forall y :: LeafSlot(shape, y) == if y == index then Nil else LeafSlot(t0, y)
      modifies this`rnode, this`height, this`shape, this`owned
      ensures owned <= old(owned)
      ensures above == null ==> Valid() && forall y :: LeafSlot(shape, y) == if y == index then Nil else LeafSlot(t0, y)
      ensures above != null ==> Pruning(index, l + 1, above, stack[..], t0) && l + 1 < height
      ensures above != null ==> height == old(height)
    {
      hide LeafSlot;
      Height(shape, rnode, height, PathKey(index, l));
      ghost var k := PathKey(index, l);
      Free(node);
      if node == rnode {
        IdleTree(shape, rnode, height, k);
        rnode, height, shape := null, 0, map[];
        above := null;
      } else {
        assert NodeOk(shape, k, height, k);
        assert NO_KEY in shape ==> NodeOk(shape, NO_KEY, height, k);
        assert Below(index, l + 1) == k;
        assert ParentKey(k) == PathKey(index, l + 1);
        assert At(shape, index, l + 1, stack[..][l + 1]);
        above := stack[l + 1];
      }
    }

    // Lines 142-157: empty the slot, and free the nodes that are left without one in use.
    method Prune(index: int, leaf: Node<V>, stack: array<Node?<V>>)
      requires index >= 0 && Pruning(index, 0, leaf, stack[..], shape) && stack.Length == RADIX_TREE_MAX_HEIGHT
      modifies this`rnode, this`height, this`shape, this`owned, owned
      ensures Valid() && owned <= old(owned)
      ensures forall y :: LeafSlot(shape, y) == if y == index then Nil else old(LeafSlot(shape, y))
    {
      hide Pruning, Tree, LeafSlot, Mirrors, NoLeak, Stacked;
      ghost var t0 := shape;
      var node: Node?<V> := leaf;
      var l := 0;
      PruneNode(index, l, node, stack[..], t0);
      while true
        invariant node != null && 0 <= l < height && Pruning(index, l, node, stack[..], t0) && owned <= old(owned)
        decreases height - l
      {
        CutSlot(index, l, node, stack[..], t0);
        if node.count > 0 {
          BusyAgain(shape, rnode, height, PathKey(index, l));
          break;
        }
        CountZero(PathKey(index, l), {}, index, l, node);
        node := PruneUp(index, l, node, stack, t0);
        if node == null {
          break;
        }
        l := l + 1;
      }
    }

    lemma CountZero(idle: Key, spare: set<Node<V>>, index: int, l: int, node: Node<V>)
      requires Working(idle, spare) && 0 <= l && At(shape, index, l, node)
      ensures node.count >= 0
    {
      WayDown(shape, rnode, height, idle, index, l, node);
    }

    // Lines 113-158.
    method Delete(index: int) returns (item: Slot<V>)
      requires Valid() && 0 <= index <= ULONG_MAX
      modifies this`rnode, this`height, this`shape, this`owned, owned
      ensures Valid() && owned <= old(owned)
      ensures item == old(Stored(index)) && Entries(shape) == old(Entries(shape)) - {index}
    {
      hide Tree, Entries, LeafSlot, Mirrors, NoLeak, RadixPos, Stored;
      StoredIs(index);
      AtRoot(NO_KEY, {}, index);
      var stack := new Node?<V>[RADIX_TREE_MAX_HEIGHT](_ => null);
      item := Nil;
      var node := rnode;
      var h := height - 1;
      if index > RadixMax(height) {
        NotThere(index);
        return;
      }
      while h != 0 && node != null
        invariant node != null ==> 0 <= h < height && At(shape, index, h, node) && Stacked(index, h, stack[..])
        invariant node == null ==> LeafSlot(shape, index) == Nil
        decreases if node == null then 0 else h + 1
        modifies stack
      {
        AtNode(NO_KEY, {}, index, h, node);
        if node.slots[RadixPos(index, h)] == Nil {
          NoWay(h, index);
        }
        stack[h] := node;
        node := match node.slots[RadixPos(index, h)] case Sub(n) => n case _ => null;
        h := h - 1;
      }
      if node != null {
        AtNode(NO_KEY, {}, index, 0, node);
        item := node.slots[RadixPos(index, 0)];
      }
      if item != Nil {
        PruneStart(index, node, stack[..]);
        Prune(index, node, stack);
        CutEntries(old(shape), shape, index);
      } else {
        NotThere(index);
      }
    }

    lemma NotThere(index: int)
      requires LeafSlot(shape, index) == Nil
      ensures Entries(shape) == Entries(shape) - {index}
    {
    }

    lemma PruneStart(index: int, node: Node<V>, stack: seq<Node?<V>>)
      requires Valid() && index >= 0 && At(shape, index, 0, node) && Stacked(index, 0, stack)
        && LeafSlot(shape, index) != Nil
      ensures Pruning(index, 0, node, stack, shape)
    {
      MayIdle(shape, rnode, height, Below(index, 0));
      assert Below(index, 0) in shape ==> NodeOk(shape, Below(index, 0), height, NO_KEY);
      assert NO_KEY in shape ==> NodeOk(shape, NO_KEY, height, NO_KEY);
    }

    // Lines 42-49.
    method CleanRootNode()
      requires rnode != null && height > 0 && Working(Key(height - 1, 0), {})
      modifies this`rnode, this`height, this`shape, this`owned
      ensures Valid() && owned <= old(owned) && SameSlots(old(shape), shape)
    {
      hide LeafSlot;
      RootAt({});
      if rnode.count == 0 {
        IdleTree(shape, rnode, height, Key(height - 1, 0));
        Free(rnode);
        rnode, height, shape := null, 0, map[];
      } else {
        BusyAgain(shape, rnode, height, Key(height - 1, 0));
      }
    }

    lemma RootAt(spare: set<Node<V>>)
      requires rnode != null && height > 0 && Working(Key(height - 1, 0), spare)
      ensures rnode in owned && Key(height - 1, 0) in shape && shape[Key(height - 1, 0)].at == rnode
      ensures rnode.View() == shape[Key(height - 1, 0)].data && |rnode.slots| == MAP_SIZE && rnode !in spare
    {
      assert NodeOk(shape, Key(height - 1, 0), height, Key(height - 1, 0));
    }

    // A root without items stands for the higher tree too.
    method LiftLevel()
      requires rnode != null && 0 < height < RADIX_TREE_MAX_HEIGHT - 1 && Working(Key(height - 1, 0), {})
        && rnode.count == 0
      modifies this`height, this`shape, rnode
      ensures height == old(height) + 1 && Working(Key(height - 1, 0), {}) && SameSlots(old(shape), shape)
    {
      hide Tree, LeafSlot;
      RootAt({});
      LiftKeeps(shape, rnode, height);
      rnode.key := Key(height, 0);
      shape := Lift(shape, height);
      height := height + 1;
    }

    // Lines 196-223: one more level.
    method AddLevel() returns (ok: bool)
      requires rnode != null && 0 < height < RADIX_TREE_MAX_HEIGHT - 1 && Working(Key(height - 1, 0), {})
      modifies this`rnode, this`height, this`shape, this`owned, this`refused, rnode
      ensures owned >= old(owned) && fresh(owned - old(owned)) && SameSlots(old(shape), shape)
      ensures ok ==>
          rnode != null && height == old(height) + 1 && Working(Key(height - 1, 0), {}) && refused == old(refused)
      ensures !ok ==> Valid() && refused > old(refused)
    {
      hide Tree, LeafSlot;
      RootAt({});
      ghost var t := shape;
      ok := true;
      if rnode.count != 0 {
        BusyAgain(shape, rnode, height, Key(height - 1, 0));
        var node := Malloc();
        if node == null {
          return false;
        }
        RaiseKeeps(t, rnode, height, node);
        MayIdle(Raise(t, height, node), node, height + 1, Key(height, 0));
        node.slots := node.slots[0 := Sub(rnode)];
        node.count := node.count + 1;
        node.key := Key(height, 0);
        rnode := node;
        shape := Raise(t, height, node);
        height := height + 1;
      } else {
        LiftLevel();
      }
    }

    // Lines 183-190.
    method Plant() returns (ok: bool)
      requires Valid() && rnode == null
      modifies this`rnode, this`height, this`shape, this`owned, this`refused
      ensures owned >= old(owned) && fresh(owned - old(owned)) && SameSlots(old(shape), shape)
      ensures ok ==> rnode != null && height == 1 && Working(Key(0, 0), {}) && refused == old(refused)
      ensures !ok ==> Valid() && refused > old(refused)
    {
      Height(shape, rnode, height, NO_KEY);
      NoTree(shape, NO_KEY);
      var node := Malloc();
      ok := node != null;
      if ok {
        SeedIsTree(node);
        node.key := Key(0, 0);
        rnode := node;
        shape := Seed(node);
        height := height + 1;
      }
    }

    // Lines 179-224: a root, and levels for `index`. The test for too high a tree is left out:
    // indices below 2^60 need ten levels at most.
    method Expand(index: int) returns (ok: bool)
      requires Valid() && 0 <= index < INDEX_LIMIT
      modifies this`rnode, this`height, this`shape, this`owned, this`refused, owned
      ensures owned >= old(owned) && fresh(owned - old(owned)) && SameSlots(old(shape), shape)
      ensures ok ==> rnode != null && 0 < height < RADIX_TREE_MAX_HEIGHT && index <= RadixMax(height)
      ensures ok ==> Working(Key(height - 1, 0), {}) && refused == old(refused)
      ensures !ok ==> Valid() && refused > old(refused)
      ensures LeafSlot(old(shape), index) != Nil ==> ok
    {
      hide Tree, Mirrors, NoLeak;
      AtRoot(NO_KEY, {}, index);
      if rnode == null {
        ok := Plant();
        if !ok {
          return false;
        }
      } else {
        MayIdle(shape, rnode, height, Key(height - 1, 0));
      }
      while RadixMax(height) < index
        invariant rnode != null && 0 < height < RADIX_TREE_MAX_HEIGHT && Working(Key(height - 1, 0), {})
        invariant owned >= old(owned) && fresh(owned - old(owned)) && SameSlots(old(shape), shape)
          && refused == old(refused)
        invariant LeafSlot(old(shape), index) != Nil ==> index <= RadixMax(height)
        decreases RADIX_TREE_MAX_HEIGHT - height
      {
        ShlOne(height);
        RootAt({});
        ok := AddLevel();
        if !ok {
          return;
        }
      }
      ok := true;
    }

    // Lines 226-235: down to the first missing node, or to the leaf.
    method Walk(index: int) returns (node: Node<V>, h: int)
      requires rnode != null && 0 < height < RADIX_TREE_MAX_HEIGHT && Working(Key(height - 1, 0), {})
      requires 0 <= index <= RadixMax(height)
      ensures 0 <= h < height && At(shape, index, h, node) && (h > 0 ==> PathKey(index, h - 1) !in shape)
      ensures h < height - 1 ==> shape[Key(height - 1, 0)].data.count != 0
    {
      hide Tree, Mirrors, NoLeak;
      AtRoot(Key(height - 1, 0), {}, index);
      RootAt({});
      node := rnode;
      h := height - 1;
      while h != 0
        invariant 0 <= h < height && At(shape, index, h, node)
        invariant h < height - 1 ==> shape[Key(height - 1, 0)].data.count != 0
        decreases h
      {
        AtNode(Key(height - 1, 0), {}, index, h, node);
        if node.slots[RadixPos(index, h)] == Nil {
          break;
        }
        RootBusy(index, h, node);
        node := node.slots[RadixPos(index, h)].node;
        h := h - 1;
      }
    }

    lemma RootBusy(index: int, h: int, node: Node<V>)
      requires rnode != null && 0 < height < RADIX_TREE_MAX_HEIGHT && Working(Key(height - 1, 0), {})
      requires 0 <= index <= RadixMax(height) && 0 <= h < height && At(shape, index, h, node)
      requires |node.slots| == MAP_SIZE && node.slots[RadixPos(index, h)] != Nil
      ensures shape[Key(height - 1, 0)].data.count != 0
    {
      AtNode(Key(height - 1, 0), {}, index, h, node);
      if shape[Key(height - 1, 0)].data.count == 0 {
        IdleTree(shape, rnode, height, Key(height - 1, 0));
        assert false;
      }
    }

    // The nodes allocated in advance for the `n` missing levels.
    static ghost function Spare(temp: seq<Node?<V>>, n: nat): (r: set<Node<V>>)
      requires n <= |temp|
      ensures forall p :: p in r ==> p in temp[..n]
    {
      if n == 0 then {} else if temp[n - 1] == null then Spare(temp, n - 1) else Spare(temp, n - 1) + {temp[n - 1]}
    }

    static ghost predicate Distinct(temp: seq<Node?<V>>, n: nat) {
      && n <= |temp| && (forall i :: 0 <= i < n ==> temp[i] != null)
      && forall i, j :: 0 <= i < j < n ==> temp[i] != temp[j]
    }

    static lemma {:induction false} SpareSame(temp: seq<Node?<V>>, temp': seq<Node?<V>>, n: nat)
      requires n <= |temp| == |temp'| && temp[..n] == temp'[..n]
      ensures Spare(temp, n) == Spare(temp', n)
    {
      if n > 0 {
        assert temp[..n - 1] == temp[..n][..n - 1] == temp'[..n][..n - 1] == temp'[..n - 1];
        assert temp[n - 1] == temp[..n][n - 1] == temp'[..n][n - 1] == temp'[n - 1];
        SpareSame(temp, temp', n - 1);
      }
    }

    static lemma SpareLast(temp: seq<Node?<V>>, n: nat)
      requires n < |temp| && Distinct(temp, n + 1)
      ensures temp[n] in Spare(temp, n + 1) && Spare(temp, n + 1) - {temp[n]} == Spare(temp, n)
      ensures temp[n] !in Spare(temp, n) && Spare(temp, n) + {temp[n]} == Spare(temp, n + 1)
    {
    }

    method FreeOne(p: Node<V>, ghost spare: set<Node<V>>, ghost idle: Key)
      requires p in spare && Working(idle, spare)
      modifies this`owned
      ensures Working(idle, spare - {p}) && owned <= old(owned)
    {
      hide Tree;
      Free(p);
    }

    method MallocOne(ghost spare: set<Node<V>>, ghost idle: Key) returns (p: Node?<V>)
      requires Working(idle, spare)
      modifies this`owned, this`refused
      ensures fresh(owned - old(owned))
      ensures p == null ==> Working(idle, spare) && refused == old(refused) + 1
      ensures p != null ==> fresh(p) && p !in spare && Working(idle, spare + {p}) && refused == old(refused)
    {
      hide Tree;
      p := Malloc();
    }

    // Lines 240-243: give the nodes back.
    method FreeSpare(temp: array<Node?<V>>, n: nat, ghost idle: Key)
      requires n <= temp.Length && Distinct(temp[..], n) && Working(idle, Spare(temp[..], n))
      modifies this`owned
      ensures Working(idle, {}) && owned <= old(owned)
    {
      hide Working, Spare;
      var idx := n;
      while idx != 0
        invariant 0 <= idx <= n && Distinct(temp[..], idx) && Working(idle, Spare(temp[..], idx))
        invariant owned <= old(owned)
        decreases idx
      {
        idx := idx - 1;
        SpareLast(temp[..], idx);
        FreeOne(temp[idx], Spare(temp[..], idx + 1), idle);
      }
      SpareNone(temp[..]);
    }

    static lemma SpareNone(temp: seq<Node?<V>>)
      ensures Spare(temp, 0) == {} && Distinct(temp, 0)
    {
    }

    // Lines 237-247: nodes for the missing levels, all of them or none.
    method AllocLevels(temp: array<Node?<V>>, n: nat, ghost idle: Key) returns (ok: bool)
      requires n <= temp.Length && Working(idle, {})
      modifies this`owned, this`refused, temp
      ensures ok ==> Distinct(temp[..], n) && Working(idle, Spare(temp[..], n)) && refused == old(refused)
      ensures fresh(owned - old(owned))
      ensures !ok ==> n > 0 && Working(idle, {}) && refused > old(refused)
    {
      hide Working, Spare;
      SpareNone(temp[..]);
      var idx := 0;
      while idx != n
        invariant 0 <= idx <= n && Distinct(temp[..], idx) && Working(idle, Spare(temp[..], idx))
          && refused == old(refused)
        invariant fresh(owned - old(owned))
        decreases n - idx
      {
        ghost var before := temp[..];
        var node := MallocOne(Spare(temp[..], idx), idle);
        temp[idx] := node;
        SpareSame(before, temp[..], idx);
        if node == null {
          FreeSpare(temp, idx, idle);
          return false;
        }
        DistinctOn(temp[..], idx);
        SpareLast(temp[..], idx);
        idx := idx + 1;
      }
      ok := true;
    }

    static lemma DistinctOn(temp: seq<Node?<V>>, n: nat)
      requires n < |temp| && Distinct(temp, n) && temp[n] != null && temp[n] !in Spare(temp, n)
      ensures Distinct(temp, n + 1)
    {
      forall i | 0 <= i < n ensures temp[i] != temp[n] {
        SpareHas(temp, n, i);
      }
    }

    static lemma {:induction false} SpareHas(temp: seq<Node?<V>>, n: nat, i: nat)
      requires i < n <= |temp| && temp[i] != null
      ensures temp[i] in Spare(temp, n)
    {
      if i < n - 1 {
        SpareHas(temp, n - 1, i);
      }
    }

    // Lines 250-254.
    method HangNode(index: int, h: int, node: Node<V>, child: Node<V>, ghost spare: set<Node<V>>)
      requires 0 <= index && 0 < h && child in spare
      requires Working(PathKey(index, h), spare) && At(shape, index, h, node) && PathKey(index, h - 1) !in shape
      modifies this`shape, owned
      ensures Working(PathKey(index, h - 1), spare - {child})
      ensures At(shape, index, h - 1, child) && SameSlots(old(shape), shape)
      ensures h > 1 ==> PathKey(index, h - 2) !in shape
    {
      hide Tree, LeafSlot;
      ghost var k, t := PathKey(index, h), shape;
      AtNode(k, spare, index, h, node);
      assert child.View() == Empty(NO_KEY);
      HangKeeps(t, rnode, height, index, h, child);
      if h > 1 && PathKey(index, h - 2) in t {
        PathUp(t, rnode, height, k, index, h - 2, h - 1);
      }
      node.slots := node.slots[RadixPos(index, h) := Sub(child)];
      node.count := node.count + 1;
      child.key := PathKey(index, h - 1);
      shape := Hang(t, index, h, child);
    }

    // Lines 249-255.
    method HangLevels(index: int, h0: int, node0: Node<V>, temp: array<Node?<V>>) returns (node: Node<V>)
      requires 0 <= index && 0 <= h0 <= temp.Length && Distinct(temp[..], h0)
      requires Working(PathKey(index, h0), Spare(temp[..], h0)) && At(shape, index, h0, node0)
      requires h0 > 0 ==> PathKey(index, h0 - 1) !in shape
      modifies this`shape, owned
      ensures Working(PathKey(index, 0), {}) && At(shape, index, 0, node) && SameSlots(old(shape), shape)
    {
      hide Working, Spare;
      node := node0;
      var h := h0;
      while h != 0
        invariant 0 <= h <= h0 && Distinct(temp[..], h)
        invariant Working(PathKey(index, h), Spare(temp[..], h)) && At(shape, index, h, node)
        invariant (h > 0 ==> PathKey(index, h - 1) !in shape) && SameSlots(old(shape), shape)
        decreases h
      {
        SpareLast(temp[..], h - 1);
        HangNode(index, h, node, temp[h - 1], Spare(temp[..], h));
        node := temp[h - 1];
        h := h - 1;
      }
      SpareNone(temp[..]);
    }

    lemma Present(index: int, h: int)
      requires rnode != null && Working(Key(height - 1, 0), {}) && 0 < h < height && LeafSlot(shape, index) != Nil
      ensures PathKey(index, h - 1) in shape
    {
      PathUp(shape, rnode, height, Key(height - 1, 0), index, 0, h - 1);
    }

    // Lines 179-255 and 284-360: the leaf for `index`, created with all that is missing above
    // it. A null answer means that memory has run out, and nothing has changed.
    method Reach(index: int) returns (node: Node?<V>)
      requires Valid() && 0 <= index < INDEX_LIMIT
      modifies this`rnode, this`height, this`shape, this`owned, this`refused, owned
      ensures fresh(owned - old(owned)) && SameSlots(old(shape), shape)
      ensures node != null ==> Working(PathKey(index, 0), {}) && At(shape, index, 0, node) && refused == old(refused)
      ensures node == null ==> Valid() && refused > old(refused) && LeafSlot(old(shape), index) == Nil
    {
      hide Tree, Mirrors, NoLeak;
      var ok := Expand(index);
      if !ok {
        return null;
      }
      var h;
      node, h := Walk(index);
      if h > 0 && LeafSlot(shape, index) != Nil {
        Present(index, h);
      }
      var temp := new Node?<V>[RADIX_TREE_MAX_HEIGHT - 1](_ => null);
      ok := AllocLevels(temp, h, Key(height - 1, 0));
      if !ok {
        CleanRootNode();
        return null;
      }
      SettledIn(index, h, Spare(temp[..], h));
      node := HangLevels(index, h, node, temp);
    }

    // The node reached may be the idle one, if there is any.
    lemma SettledIn(index: int, h: int, spare: set<Node<V>>)
      requires rnode != null && 0 < height < RADIX_TREE_MAX_HEIGHT && Working(Key(height - 1, 0), spare)
      requires 0 <= index <= RadixMax(height) && 0 <= h < height
      requires h < height - 1 ==> shape[Key(height - 1, 0)].data.count != 0
      ensures Working(PathKey(index, h), spare)
    {
      RootOnPath(shape, rnode, height, Key(height - 1, 0), index);
      if h < height - 1 {
        BusyAgain(shape, rnode, height, Key(height - 1, 0));
        MayIdle(shape, rnode, height, PathKey(index, h));
      }
    }

    // Lines 259-263 and 364-371.
    method PutItem(index: int, node: Node<V>, item: Slot<V>)
      requires 0 <= index && Working(PathKey(index, 0), {}) && At(shape, index, 0, node) && item.Item?
      modifies this`shape, owned
      ensures Valid() && forall y :: LeafSlot(shape, y) == if y == index then item else old(LeafSlot(shape, y))
    {
      hide Tree, LeafSlot;
      AtNode(PathKey(index, 0), {}, index, 0, node);
      PutKeeps(shape, rnode, height, index, item);
      var idx := RadixPos(index, 0);
      if node.slots[idx] == Nil {
        node.count := node.count + 1;
      }
      node.slots := node.slots[idx := item];
      shape := Put(shape, index, item);
    }

    lemma LeafBusy(index: int, node: Node<V>)
      requires Working(PathKey(index, 0), {}) && At(shape, index, 0, node) && LeafSlot(shape, index) != Nil
      ensures Valid()
    {
      WayDown(shape, rnode, height, PathKey(index, 0), index, 0, node);
      assert RadixPos(index, 0) in Occupied(shape[PathKey(index, 0)].data);
      BusyAgain(shape, rnode, height, PathKey(index, 0));
    }

    // Lines 167-265.
    method Insert(index: int, item: Slot<V>) returns (r: Outcome)
      requires Valid() && 0 <= index < INDEX_LIMIT && !item.Sub?
      modifies this`rnode, this`height, this`shape, this`owned, this`refused, owned
      ensures Valid() && fresh(owned - old(owned))
      ensures r == Failed(EInval) <==> item == Nil
      ensures item != Nil ==> (r == Failed(EExist) <==> index in old(Entries(shape)))
      ensures r == Done ==> Entries(shape) == old(Entries(shape))[index := item.value]
      ensures r != Done ==> Entries(shape) == old(Entries(shape))
      ensures if r == Failed(ENoMem) then refused > old(refused) else refused == old(refused)
    {
      hide Tree, Entries, LeafSlot, Mirrors, NoLeak;
      if item == Nil {
        return Failed(EInval);
      }
      PresentIs(index);
      var node := Reach(index);
      SameEntries(old(shape), shape);
      if node == null {
        return Failed(ENoMem);
      }
      AtNode(PathKey(index, 0), {}, index, 0, node);
      if node.slots[RadixPos(index, 0)] != Nil {
        LeafBusy(index, node);
        return Failed(EExist);
      }
      ghost var t := shape;
      PutItem(index, node, item);
      PutEntries(t, shape, index, item.value);
      r := Done;
    }

    lemma PresentIs(index: int)
      requires Valid() && 0 <= index
      ensures index in Entries(shape) <==> LeafSlot(shape, index) != Nil
    {
      StoredIs(index);
    }

    // Lines 267-372: `previous` is what was there; a null item deletes.
    method Store(index: int, item: Slot<V>) returns (r: Outcome, previous: Slot<V>)
      requires Valid() && 0 <= index < INDEX_LIMIT && !item.Sub?
      modifies this`rnode, this`height, this`shape, this`owned, this`refused, owned
      ensures Valid() && fresh(owned - old(owned))
      ensures r == Done || r == Failed(ENoMem)
      ensures r == Done ==> previous == old(Stored(index))
      ensures r == Done && item == Nil ==> Entries(shape) == old(Entries(shape)) - {index}
      ensures r == Done && item != Nil ==> Entries(shape) == old(Entries(shape))[index := item.value]
      ensures r == Failed(ENoMem) ==>
          Entries(shape) == old(Entries(shape)) && refused > old(refused) && previous == item
      ensures item == Nil || index in old(Entries(shape)) ==> r == Done
    {
      hide Tree, Entries, LeafSlot, Mirrors, NoLeak, Stored;
      previous := item;
      if item == Nil {
        previous := Delete(index);
        return Done, previous;
      }
      PresentIs(index);
      StoredIs(index);
      var node := Reach(index);
      SameEntries(old(shape), shape);
      if node == null {
        return Failed(ENoMem), previous;
      }
      AtNode(PathKey(index, 0), {}, index, 0, node);
      previous := node.slots[RadixPos(index, 0)];
      ghost var t := shape;
      PutItem(index, node, item);
      PutEntries(t, shape, index, item.value);
      r := Done;
    }
  }
}
