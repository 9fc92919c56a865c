/**
 The tree of kernel/linux_radix.c and its representation invariant, as a map from the places
 of nodes to the nodes and their contents.
 */
module RadixTree {
  import opened Digits

  const MAP_SIZE := 64
  const RADIX_TREE_MAX_HEIGHT := 11   // howmany(64, 6)
  const INDEX_LIMIT := 0x1000_0000_0000_0000   // ten levels; one more and `radix_max` shifts too far
  const ULONG_MAX := 0xffff_ffff_ffff_ffff

  datatype Key = Key(level: int, pos: int)

  const NO_KEY := Key(-1, 0)

  datatype Slot<V> = Nil | Sub(node: Node<V>) | Item(value: V)

  datatype Data<V> = Data(key: Key, slots: seq<Slot<V>>, count: int)

  datatype Cell<V> = Cell(at: Node<V>, data: Data<V>)

  type Shape<V> = map<Key, Cell<V>>

  class Node<V> {
    var slots: seq<Slot<V>>
    var count: int
    ghost var key: Key

    constructor ()
      ensures View() == Empty(NO_KEY)
    {
      slots, count, key := NoSlots(), 0, NO_KEY;
    }

    ghost function View(): Data<V>
      reads this
    {
      Data(key, slots, count)
    }
  }

  function NoSlots<V>(): (r: seq<Slot<V>>)
    ensures |r| == MAP_SIZE && forall s :: 0 <= s < MAP_SIZE ==> r[s] == Nil
  {
    seq(MAP_SIZE, _ => Nil)
  }

  ghost function Empty<V>(key: Key): Data<V> {
    Data(key, NoSlots(), 0)
  }

  // Lines 30-34.
  function RadixMax(height: int): (r: int)
    requires 0 <= height < RADIX_TREE_MAX_HEIGHT
    ensures 0 <= r < INDEX_LIMIT
  {
    ShlOne(height);
    Shl(MAP_SIZE, 1, height) - 1
  }

  // Lines 36-40.
  function RadixPos(id: int, height: nat): (r: int)
    ensures 0 <= r < MAP_SIZE
  {
    Shr(MAP_SIZE, id, height) % MAP_SIZE
  }

  lemma ShlOne(l: nat)
    requires l < RADIX_TREE_MAX_HEIGHT
    ensures 1 <= Shl(MAP_SIZE, 1, l) <= INDEX_LIMIT
    ensures l == RADIX_TREE_MAX_HEIGHT - 1 ==> Shl(MAP_SIZE, 1, l) == INDEX_LIMIT
  {
    assert Shl(64, 1, 0) == 1;
    assert Shl(64, 1, 1) == 64;
    assert Shl(64, 1, 2) == 0x1000;
    assert Shl(64, 1, 3) == 0x4_0000;
    assert Shl(64, 1, 4) == 0x100_0000;
    assert Shl(64, 1, 5) == 0x4000_0000;
    assert Shl(64, 1, 6) == 0x10_0000_0000;
    assert Shl(64, 1, 7) == 0x400_0000_0000;
    assert Shl(64, 1, 8) == 0x1_0000_0000_0000;
    assert Shl(64, 1, 9) == 0x40_0000_0000_0000;
    assert Shl(64, 1, 10) == 0x1000_0000_0000_0000;
  }

  function ChildKey(k: Key, s: int): Key {
    Key(k.level - 1, k.pos * MAP_SIZE + s)
  }

  function ParentKey(k: Key): Key {
    Key(k.level + 1, k.pos / MAP_SIZE)
  }

  // The node at level `l` on the way to `x`.
  function PathKey(x: int, l: int): Key
    requires 0 <= l
  {
    Key(l, Shr(MAP_SIZE, x, l + 1))
  }

  // The place one level further down, below the leaves when `l` is 0.
  function Below(x: int, l: int): Key
    requires 0 <= l
  {
    Key(l - 1, Shr(MAP_SIZE, x, l))
  }

  ghost function Occupied<V>(d: Data<V>): set<int> {
    set s | 0 <= s < |d.slots| && d.slots[s] != Nil
  }

  ghost predicate SlotOk<V>(t: Shape<V>, k: Key, s: int)
    requires k in t
  {
    var d := t[k].data;
    && |d.slots| == MAP_SIZE && 0 <= s < MAP_SIZE
    && if k.level == 0 then !d.slots[s].Sub? else
         var c := ChildKey(k, s);
         d.slots[s] == if c in t then Sub(t[c].at) else Nil
  }

  // The count of a node is the number of its slots in use; only node `idle` may have none.
  ghost predicate NodeOk<V>(t: Shape<V>, k: Key, h: int, idle: Key)
    requires k in t
  {
    var d := t[k].data;
    && 0 <= k.level < h && 0 <= k.pos && (k.level == h - 1 ==> k.pos == 0)
    && d.key == k && |d.slots| == MAP_SIZE
    && d.count == |Occupied(d)| && (k != idle ==> d.count > 0)
    && (k.level < h - 1 ==> ParentKey(k) in t)
  }

  ghost predicate Tree<V>(t: Shape<V>, root: Node?<V>, h: int, idle: Key)
  {
    && 0 <= h < RADIX_TREE_MAX_HEIGHT
    && (root == null <==> h == 0)
    && (root != null ==> Key(h - 1, 0) in t && t[Key(h - 1, 0)].at == root)
    && (forall k {:trigger NodeOk(t, k, h, idle)} :: k in t ==> NodeOk(t, k, h, idle))
    && (forall k, s {:trigger SlotOk(t, k, s)} :: k in t && 0 <= s < MAP_SIZE ==> SlotOk(t, k, s))
  }

  // What is stored at index `x`.
  ghost function LeafSlot<V>(t: Shape<V>, x: int): Slot<V>
  {
    var k := PathKey(x, 0);
    if k in t && |t[k].data.slots| == MAP_SIZE then t[k].data.slots[RadixPos(x, 0)] else Nil
  }

  ghost predicate SameSlots<V>(t: Shape<V>, t': Shape<V>) {
    forall x :: LeafSlot(t', x) == LeafSlot(t, x)
  }

  // What a user sees: the items by their indices.
  ghost function Entries<V>(t: Shape<V>): map<int, V> {
    map x | 0 <= x < INDEX_LIMIT && LeafSlot(t, x).Item? :: LeafSlot(t, x).value
  }

  lemma Height<V>(t: Shape<V>, root: Node?<V>, h: int, idle: Key)
    requires Tree(t, root, h, idle)
    ensures 0 <= h < RADIX_TREE_MAX_HEIGHT && (root == null <==> h == 0)
    ensures root != null ==> Key(h - 1, 0) in t && t[Key(h - 1, 0)].at == root
  {
  }

  lemma NoTree<V>(t: Shape<V>, idle: Key)
    requires Tree(t, null, 0, idle)
    ensures t == map[]
  {
    assert forall k :: k in t ==> NodeOk(t, k, 0, idle);
  }

  // Between calls the tree is empty exactly when there is no root.
  lemma EmptyIff<V>(t: Shape<V>, root: Node?<V>, h: int)
    requires Tree(t, root, h, NO_KEY)
    ensures root == null <==> Entries(t) == map[]
    ensures root == null <==> t == map[]
  {
    if root == null {
      NoTree(t, NO_KEY);
    } else {
      var x := ReachLeaf(t, root, h, Key(h - 1, 0));
      InRange(t, root, h, NO_KEY, x);
      assert LeafSlot(t, x).Item?;
      assert x in Entries(t);
    }
  }

  // Below every node there is an item, so no node is kept in vain.
  lemma {:induction false} ReachLeaf<V>(t: Shape<V>, root: Node?<V>, h: int, k: Key) returns (x: int)
    requires Tree(t, root, h, NO_KEY) && k in t
    ensures x >= 0 && LeafSlot(t, x).Item? && k.level >= 0 && PathKey(x, k.level) == k
    decreases k.level
  {
    assert NodeOk(t, k, h, NO_KEY);
    var d := t[k].data;
    assert Occupied(d) != {};
    var s :| s in Occupied(d);
    assert SlotOk(t, k, s);
    if k.level == 0 {
      x := k.pos * MAP_SIZE + s;
      assert Shr(MAP_SIZE, x, 1) == x / MAP_SIZE;
    } else {
      x := ReachLeaf(t, root, h, ChildKey(k, s));
    }
  }

  // A node on the way to `x` has all the nodes above it on the way.
  lemma {:induction false} PathUp<V>(t: Shape<V>, root: Node?<V>, h: int, idle: Key, x: int, l: int, j: int)
    requires Tree(t, root, h, idle) && 0 <= l <= j < h && PathKey(x, l) in t
    ensures PathKey(x, j) in t
    decreases j - l
  {
    if l < j {
      assert NodeOk(t, PathKey(x, l), h, idle);
      PathUp(t, root, h, idle, x, l + 1, j);
    }
  }

  // Indices too large for the tree have no leaf.
  lemma InRange<V>(t: Shape<V>, root: Node?<V>, h: int, idle: Key, x: int)
    requires Tree(t, root, h, idle) && x >= 0
    ensures PathKey(x, 0) in t ==> h > 0 && x <= RadixMax(h)
  {
    if PathKey(x, 0) in t {
      assert NodeOk(t, PathKey(x, 0), h, idle);
      PathUp(t, root, h, idle, x, 0, h - 1);
      assert NodeOk(t, PathKey(x, h - 1), h, idle);
      ShrLess(MAP_SIZE, x, 1, h);
    }
  }

  lemma BeyondNil<V>(t: Shape<V>, root: Node?<V>, h: int, x: int)
    requires Tree(t, root, h, NO_KEY) && x >= 0 && (h == 0 || x > RadixMax(h))
    ensures LeafSlot(t, x) == Nil && x !in Entries(t)
  {
    InRange(t, root, h, NO_KEY, x);
  }

  // Node `p` is the one at level `l` on the way to `x`.
  ghost predicate At<V>(t: Shape<V>, x: int, l: int, p: Node?<V>)
    requires 0 <= l
  {
    PathKey(x, l) in t && t[PathKey(x, l)].at == p
  }

  lemma RootOnPath<V>(t: Shape<V>, root: Node?<V>, h: int, idle: Key, x: int)
    requires Tree(t, root, h, idle) && h > 0 && 0 <= x <= RadixMax(h)
    ensures PathKey(x, h - 1) == Key(h - 1, 0) && At(t, x, h - 1, root)
  {
    ShrNonNegative(MAP_SIZE, x, h);
    ShrLess(MAP_SIZE, x, 1, h);
  }

  // A step down from level `l` of the way to `x`.
  lemma WayDown<V>(t: Shape<V>, root: Node?<V>, h: int, idle: Key, x: int, l: int, p: Node?<V>)
    requires Tree(t, root, h, idle) && 0 <= l && At(t, x, l, p)
    ensures l < h && NodeOk(t, PathKey(x, l), h, idle) && |t[PathKey(x, l)].data.slots| == MAP_SIZE
    ensures var v := t[PathKey(x, l)].data.slots[RadixPos(x, l)];
      && (l == 0 ==> v == LeafSlot(t, x) && !v.Sub?)
      && (l > 0 && v == Nil ==> PathKey(x, l - 1) !in t)
      && (l > 0 && v != Nil ==> v.Sub? && At(t, x, l - 1, v.node))
  {
    assert NodeOk(t, PathKey(x, l), h, idle) && SlotOk(t, PathKey(x, l), RadixPos(x, l));
  }

  // Where the way to `x` ends early, it does so for every index of that place.
  lemma WayEnds<V>(t: Shape<V>, root: Node?<V>, h: int, idle: Key, x: int, l: int, y: int)
    requires Tree(t, root, h, idle) && 0 < l < h && PathKey(x, l - 1) !in t
      && Shr(MAP_SIZE, y, l) == Shr(MAP_SIZE, x, l)
    ensures LeafSlot(t, y) == Nil
  {
    if PathKey(y, 0) in t {
      PathUp(t, root, h, idle, y, 0, l - 1);
    }
  }

  // A node without slots in use has no node below it.
  lemma NoChildren<V>(t: Shape<V>, root: Node?<V>, h: int, idle: Key, k: Key, j: Key)
    requires Tree(t, root, h, idle) && k in t && j in t && t[k].data.count == 0
    ensures j.level < h - 1 ==> ParentKey(j) != k
  {
    var s := j.pos % MAP_SIZE;
    assert NodeOk(t, k, h, idle) && NodeOk(t, j, h, idle) && SlotOk(t, k, s);
    assert Occupied(t[k].data) == {};
    assert s !in Occupied(t[k].data);
  }

  lemma {:induction false} IdleRoot<V>(t: Shape<V>, root: Node?<V>, h: int, idle: Key, j: Key)
    requires Tree(t, root, h, idle) && h > 0 && j in t && t[Key(h - 1, 0)].data.count == 0
    ensures j == Key(h - 1, 0)
    decreases h - j.level
  {
    assert NodeOk(t, j, h, idle);
    if j.level < h - 1 {
      IdleRoot(t, root, h, idle, ParentKey(j));
      NoChildren(t, root, h, idle, Key(h - 1, 0), j);
    }
  }

  // A tree whose root is idle is that root, and holds nothing.
  lemma IdleTree<V>(t: Shape<V>, root: Node?<V>, h: int, idle: Key)
    requires Tree(t, root, h, idle) && h > 0 && t[Key(h - 1, 0)].data.count == 0
    ensures t.Keys == {Key(h - 1, 0)} && SameSlots(t, map[]) && t[Key(h - 1, 0)].data.slots == NoSlots()
  {
    var d := t[Key(h - 1, 0)].data;
    assert NodeOk(t, Key(h - 1, 0), h, idle);
    forall j | j in t ensures j == Key(h - 1, 0) {
      IdleRoot(t, root, h, idle, j);
    }
    assert Occupied(d) == {};
    forall s | 0 <= s < MAP_SIZE ensures d.slots[s] == Nil {
      assert s !in Occupied(d);
    }
  }

  // An idle node that has come into use, or was so all along.
  lemma BusyAgain<V>(t: Shape<V>, root: Node?<V>, h: int, idle: Key)
    requires Tree(t, root, h, idle) && (idle in t ==> t[idle].data.count != 0)
    ensures Tree(t, root, h, NO_KEY)
  {
    forall k {:trigger NodeOk(t, k, h, NO_KEY)} | k in t ensures NodeOk(t, k, h, NO_KEY) {
      assert NodeOk(t, k, h, idle);
    }
  }

  lemma MayIdle<V>(t: Shape<V>, root: Node?<V>, h: int, idle: Key)
    requires Tree(t, root, h, NO_KEY)
    ensures Tree(t, root, h, idle)
  {
    forall k {:trigger NodeOk(t, k, h, idle)} | k in t ensures NodeOk(t, k, h, idle) {
      assert NodeOk(t, k, h, NO_KEY);
    }
  }

  // Lines 184-189: a first, empty leaf.
  ghost function Seed<V>(root: Node<V>): Shape<V> {
    map[Key(0, 0) := Cell(root, Empty(Key(0, 0)))]
  }

  lemma SeedIsTree<V>(root: Node<V>)
    ensures Tree(Seed(root), root, 1, Key(0, 0)) && SameSlots(map[], Seed(root))
  {
    var d: Data<V> := Empty(Key(0, 0));
    assert Occupied(d) == {};
  }

  // Line 221: an idle root serves at any height.
  ghost function Lift<V>(t: Shape<V>, h: int): Shape<V>
    requires h > 0 && Key(h - 1, 0) in t
  {
    var r := t[Key(h - 1, 0)];
    map[Key(h, 0) := r.(data := r.data.(key := Key(h, 0)))]
  }

  lemma LiftKeeps<V>(t: Shape<V>, root: Node?<V>, h: int)
    requires Tree(t, root, h, Key(h - 1, 0)) && 0 < h && h + 1 < RADIX_TREE_MAX_HEIGHT
    requires t[Key(h - 1, 0)].data.count == 0
    ensures Tree(Lift(t, h), root, h + 1, Key(h, 0)) && SameSlots(t, Lift(t, h))
    ensures t.Keys == {Key(h - 1, 0)}
  {
    IdleTree(t, root, h, Key(h - 1, 0));
    var t' := Lift(t, h);
    assert Occupied(t'[Key(h, 0)].data) == {};
  }

  // Lines 202-220: one more node over the root.
  ghost function Raise<V>(t: Shape<V>, h: int, root: Node<V>): Shape<V>
    requires h > 0 && Key(h - 1, 0) in t
  {
    t[Key(h, 0) := Cell(root, Data(Key(h, 0), NoSlots()[0 := Sub(t[Key(h - 1, 0)].at)], 1))]
  }

  lemma RaiseKeeps<V>(t: Shape<V>, root: Node?<V>, h: int, root': Node<V>)
    requires Tree(t, root, h, NO_KEY) && 0 < h && h + 1 < RADIX_TREE_MAX_HEIGHT
    ensures Tree(Raise(t, h, root'), root', h + 1, NO_KEY) && SameSlots(t, Raise(t, h, root')) && Key(h, 0) !in t
  {
    var t' := Raise(t, h, root');
    var r := Key(h, 0);
    assert r in t ==> NodeOk(t, r, h, NO_KEY);
    assert NodeOk(t, Key(h - 1, 0), h, NO_KEY);
    forall j {:trigger NodeOk(t', j, h + 1, NO_KEY)} | j in t' ensures NodeOk(t', j, h + 1, NO_KEY) {
      if j == r {
        assert Occupied(t'[r].data) == {0};
      } else {
        assert NodeOk(t, j, h, NO_KEY);
      }
    }
    forall j, s {:trigger SlotOk(t', j, s)} | j in t' && 0 <= s < MAP_SIZE ensures SlotOk(t', j, s) {
      if j != r {
        assert SlotOk(t, j, s) && NodeOk(t, j, h, NO_KEY);
      } else {
        assert ChildKey(r, s) in t ==> NodeOk(t, ChildKey(r, s), h, NO_KEY);
      }
    }
  }

  // Lines 249-254: an empty node for the way to `x`, below level `l`.
  ghost function Hang<V>(t: Shape<V>, x: int, l: int, child: Node<V>): Shape<V>
    requires 0 < l && PathKey(x, l) in t && |t[PathKey(x, l)].data.slots| == MAP_SIZE
  {
    var k := PathKey(x, l);
    var d := t[k].data;
    t[k := t[k].(data := d.(slots := d.slots[RadixPos(x, l) := Sub(child)], count := d.count + 1))]
     [PathKey(x, l - 1) := Cell(child, Empty(PathKey(x, l - 1)))]
  }

  lemma HangKeepsNode<V>(t: Shape<V>, root: Node?<V>, h: int, x: int, l: int, child: Node<V>, j: Key)
    requires x >= 0 && 0 < l && PathKey(x, l) in t && Tree(t, root, h, PathKey(x, l)) && PathKey(x, l - 1) !in t
    requires |t[PathKey(x, l)].data.slots| == MAP_SIZE && j in Hang(t, x, l, child)
    ensures NodeOk(Hang(t, x, l, child), j, h, PathKey(x, l - 1))
  {
    var k := PathKey(x, l);
    var c := PathKey(x, l - 1);
    assert NodeOk(t, k, h, k) && SlotOk(t, k, RadixPos(x, l));
    ShrNonNegative(MAP_SIZE, x, l);
    var t' := Hang(t, x, l, child);
    assert Occupied(t'[c].data) == {};
    assert Occupied(t'[k].data) == Occupied(t[k].data) + {RadixPos(x, l)};
    if j == c {
      assert ParentKey(c) == k;
    } else {
      assert NodeOk(t, j, h, k);
    }
  }

  lemma HangKeepsSlot<V>(t: Shape<V>, root: Node?<V>, h: int, x: int, l: int, child: Node<V>, j: Key, s: int)
    requires x >= 0 && 0 < l && PathKey(x, l) in t && Tree(t, root, h, PathKey(x, l)) && PathKey(x, l - 1) !in t
    requires |t[PathKey(x, l)].data.slots| == MAP_SIZE && j in Hang(t, x, l, child) && 0 <= s < MAP_SIZE
    ensures SlotOk(Hang(t, x, l, child), j, s)
  {
    var k := PathKey(x, l);
    var c := PathKey(x, l - 1);
    assert NodeOk(t, k, h, k);
    ShrNonNegative(MAP_SIZE, x, l);
    if j != c {
      assert SlotOk(t, j, s) && NodeOk(t, j, h, k);
    } else {
      assert ChildKey(c, s) in t ==> NodeOk(t, ChildKey(c, s), h, k);
    }
  }

  lemma HangKeeps<V>(t: Shape<V>, root: Node?<V>, h: int, x: int, l: int, child: Node<V>)
    requires x >= 0 && 0 < l && PathKey(x, l) in t && Tree(t, root, h, PathKey(x, l)) && PathKey(x, l - 1) !in t
    ensures |t[PathKey(x, l)].data.slots| == MAP_SIZE && Tree(Hang(t, x, l, child), root, h, PathKey(x, l - 1))
    ensures SameSlots(t, Hang(t, x, l, child))
  {
    hide SlotOk;
    var c := PathKey(x, l - 1);
    assert NodeOk(t, PathKey(x, l), h, PathKey(x, l));
    var t' := Hang(t, x, l, child);
    forall j {:trigger NodeOk(t', j, h, c)} | j in t' ensures NodeOk(t', j, h, c) {
      HangKeepsNode(t, root, h, x, l, child, j);
    }
    forall j, s {:trigger SlotOk(t', j, s)} | j in t' && 0 <= s < MAP_SIZE ensures SlotOk(t', j, s) {
      HangKeepsSlot(t, root, h, x, l, child, j, s);
    }
    forall y ensures LeafSlot(t', y) == LeafSlot(t, y) {
    }
  }

  // Lines 259-263 and 366-370: the item goes into its leaf.
  ghost function Put<V>(t: Shape<V>, x: int, v: Slot<V>): Shape<V>
    requires PathKey(x, 0) in t && |t[PathKey(x, 0)].data.slots| == MAP_SIZE
  {
    var k := PathKey(x, 0);
    var d := t[k].data;
    t[k := t[k].(data := d.(slots := d.slots[RadixPos(x, 0) := v],
                            count := if d.slots[RadixPos(x, 0)] == Nil then d.count + 1 else d.count))]
  }

  lemma PutKeeps<V>(t: Shape<V>, root: Node?<V>, h: int, x: int, v: Slot<V>)
    requires PathKey(x, 0) in t && Tree(t, root, h, PathKey(x, 0)) && v.Item?
    ensures |t[PathKey(x, 0)].data.slots| == MAP_SIZE && Tree(Put(t, x, v), root, h, NO_KEY)
    ensures forall y :: LeafSlot(Put(t, x, v), y) == if y == x then v else LeafSlot(t, y)
  {
    var k := PathKey(x, 0);
    var s0 := RadixPos(x, 0);
    assert NodeOk(t, k, h, k) && SlotOk(t, k, s0);
    var t' := Put(t, x, v);
    assert Occupied(t'[k].data) ==
        if t[k].data.slots[s0] == Nil then Occupied(t[k].data) + {s0} else Occupied(t[k].data);
    assert s0 in Occupied(t'[k].data);
    forall j {:trigger NodeOk(t', j, h, NO_KEY)} | j in t' ensures NodeOk(t', j, h, NO_KEY) {
      assert NodeOk(t, j, h, k);
    }
    forall j, s {:trigger SlotOk(t', j, s)} | j in t' && 0 <= s < MAP_SIZE ensures SlotOk(t', j, s) {
      assert SlotOk(t, j, s) && NodeOk(t, j, h, k);
    }
    PutViews(t, x, v);
  }

  lemma PutViews<V>(t: Shape<V>, x: int, v: Slot<V>)
    requires PathKey(x, 0) in t && |t[PathKey(x, 0)].data.slots| == MAP_SIZE
    ensures forall y :: LeafSlot(Put(t, x, v), y) == if y == x then v else LeafSlot(t, y)
  {
    forall y ensures LeafSlot(Put(t, x, v), y) == if y == x then v else LeafSlot(t, y) {
      assert Shr(MAP_SIZE, y, 1) == y / MAP_SIZE && Shr(MAP_SIZE, x, 1) == x / MAP_SIZE;
    }
  }

  lemma PutEntries<V>(t: Shape<V>, t': Shape<V>, x: int, v: V)
    requires 0 <= x < INDEX_LIMIT
    requires forall y :: LeafSlot(t', y) == if y == x then Item(v) else LeafSlot(t, y)
    ensures Entries(t') == Entries(t)[x := v]
  {
  }

  // Lines 144-145: the slot of level `l` on the way to `x` is emptied, and with it goes the
  // idle node it held.
  ghost function Cut<V>(t: Shape<V>, x: int, l: int): Shape<V>
    requires 0 <= l && PathKey(x, l) in t && |t[PathKey(x, l)].data.slots| == MAP_SIZE
  {
    var k := PathKey(x, l);
    var d := t[k].data;
    t[k := t[k].(data := d.(slots := d.slots[RadixPos(x, l) := Nil], count := d.count - 1))] - {Below(x, l)}
  }

  ghost predicate CanCut<V>(t: Shape<V>, x: int, l: int) {
    && 0 <= l && PathKey(x, l) in t
    && if l == 0 then LeafSlot(t, x) != Nil else Below(x, l) in t && t[Below(x, l)].data.count == 0
  }

  lemma CutKeeps<V>(t: Shape<V>, root: Node?<V>, h: int, x: int, l: int)
    requires CanCut(t, x, l) && Tree(t, root, h, Below(x, l))
    ensures |t[PathKey(x, l)].data.slots| == MAP_SIZE && Tree(Cut(t, x, l), root, h, PathKey(x, l))
  {
    var k := PathKey(x, l);
    var g := Below(x, l);
    var s0 := RadixPos(x, l);
    assert NodeOk(t, k, h, g) && SlotOk(t, k, s0);
    assert l == 0 ==> g !in t by {
      assert g in t ==> NodeOk(t, g, h, g);
    }
    var t' := Cut(t, x, l);
    assert t[k].data.slots[s0] != Nil;
    assert Occupied(t'[k].data) == Occupied(t[k].data) - {s0};
    forall j {:trigger NodeOk(t', j, h, k)} | j in t' ensures NodeOk(t', j, h, k) {
      assert NodeOk(t, j, h, g);
      if l > 0 {
        NoChildren(t, root, h, g, g, j);
      }
    }
    forall j, s {:trigger SlotOk(t', j, s)} | j in t' && 0 <= s < MAP_SIZE ensures SlotOk(t', j, s) {
      assert SlotOk(t, j, s) && NodeOk(t, j, h, g);
    }
  }

  lemma CutViews<V>(t: Shape<V>, root: Node?<V>, h: int, x: int, l: int)
    requires CanCut(t, x, l) && Tree(t, root, h, Below(x, l)) && |t[PathKey(x, l)].data.slots| == MAP_SIZE
    ensures forall y :: LeafSlot(Cut(t, x, l), y) == if l == 0 && y == x then Nil else LeafSlot(t, y)
  {
    var g := Below(x, l);
    if l > 0 {
      assert NodeOk(t, g, h, g);
      assert Occupied(t[g].data) == {};
    }
    forall y ensures LeafSlot(Cut(t, x, l), y) == if l == 0 && y == x then Nil else LeafSlot(t, y) {
      assert Shr(MAP_SIZE, y, 1) == y / MAP_SIZE && Shr(MAP_SIZE, x, 1) == x / MAP_SIZE;
      if l > 0 {
        assert RadixPos(y, 0) !in Occupied(t[g].data);
      } else {
        assert g in t ==> NodeOk(t, g, h, g);
      }
    }
  }

  lemma CutEntries<V>(t: Shape<V>, t': Shape<V>, x: int)
    requires forall y :: LeafSlot(t', y) == if y == x then Nil else LeafSlot(t, y)
    ensures Entries(t') == Entries(t) - {x}
  {
  }

  lemma SameEntries<V>(t: Shape<V>, t': Shape<V>)
    requires SameSlots(t, t')
    ensures Entries(t') == Entries(t)
  {
  }
}
