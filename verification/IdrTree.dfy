/**
 The layered tree of kernel/linux_idr.c and its representation invariant.

 Every layer of a tree is known by its `Key`: its distance from the leaves and the ids
 below it, divided by the fan-out. A map from keys to layers and their contents describes
 the whole heap structure, so that flat quantifiers state what a recursive invariant would
 and every step of an operation is a map update with a lemma beside it.
 */
module IdrTree {
  import opened Digits

  const IDR_SIZE := 256
  const MAX_IDR_LEVEL := 4
  const MAX_IDR_FREE := 8

  datatype Key = Key(level: int, pos: int)

  const NO_KEY := Key(-1, 0)

  // What a slot of a layer holds: nothing, a lower layer, or a value registered by a user.
  datatype Slot<V> = Nil | Sub(node: Layer<V>) | Item(value: V)

  // The contents of a layer, and a layer at its place in a tree.
  datatype Data<V> = Data(key: Key, layer: int, prefix: int, ary: seq<Slot<V>>, count: int, bitmap: seq<bool>)

  datatype Cell<V> = Cell(at: Layer<V>, data: Data<V>)

  type Shape<V> = map<Key, Cell<V>>

  // The arrays embedded in the C structure are part of it, hence the fields of type `seq`.
  class Layer<V> {
    var prefix: int
    var layer: int
    var ary: seq<Slot<V>>
    var count: int
    var bitmap: seq<bool>
    ghost var key: Key

    constructor ()
      ensures View() == Zeroed()
    {
      prefix, layer, count := 0, 0, 0;
      ary := NoSlots();
      bitmap := NoBits();
      key := NO_KEY;
    }

    ghost function View(): Data<V>
      reads this
    {
      Data(key, layer, prefix, ary, count, bitmap)
    }
  }

  function NoSlots<V>(): (r: seq<Slot<V>>)
    ensures |r| == IDR_SIZE && forall s :: 0 <= s < IDR_SIZE ==> r[s] == Nil
  {
    seq(IDR_SIZE, _ => Nil)
  }

  function NoBits(): (r: seq<bool>)
    ensures |r| == IDR_SIZE && forall s :: 0 <= s < IDR_SIZE ==> !r[s]
  {
    seq(IDR_SIZE, _ => false)
  }

  // A layer as the system hands it out.
  ghost function Zeroed<V>(): Data<V> {
    Empty(NO_KEY, 0, 0)
  }

  ghost function Empty<V>(key: Key, layer: int, prefix: int): Data<V> {
    Data(key, layer, prefix, NoSlots(), 0, NoBits())
  }

  // No slot in use and no bit set, whatever place the layer had.
  ghost predicate Fresh<V>(d: Data<V>) {
    d.ary == NoSlots() && d.count == 0 && d.bitmap == NoBits()
  }

  predicate Full(bits: seq<bool>) {
    forall s :: 0 <= s < |bits| ==> bits[s]
  }

  // The highest id that fits `layers` layers.
  function IdrMax(layers: int): (r: int)
    requires 0 <= layers
    ensures 0 <= r <= INT_MAX
  {
    ShlValues(1);
    if layers >= MAX_IDR_LEVEL then INT_MAX else Shl(IDR_SIZE, 1, layers) - 1
  }

  // The prefix recorded in a layer made for `id`.
  function LayerPrefix(id: int, layer: int): int
    requires 0 <= layer
  {
    if layer + 1 >= MAX_IDR_LEVEL then 0
    else Shl(IDR_SIZE, Shr(IDR_SIZE, id, layer + 1), layer + 1)
  }

  // The first slot from `from` on whose bit is clear, or the size of the bitmap.
  function NextClear(bits: seq<bool>, from: nat): (m: int)
    requires from <= |bits|
    ensures from <= m <= |bits|
    ensures forall s :: from <= s < m ==> bits[s]
    ensures m < |bits| ==> !bits[m]
    decreases |bits| - from
  {
    if from == |bits| || !bits[from] then from else NextClear(bits, from + 1)
  }

  // The layer `k` lies on the way from the root to id `x`.
  ghost predicate OnPath(x: int, k: Key) {
    k.level >= 0 && k.pos == Shr(IDR_SIZE, x, k.level + 1)
  }

  function ChildKey(k: Key, s: int): Key {
    Key(k.level - 1, k.pos * IDR_SIZE + s)
  }

  function ParentKey(k: Key): Key {
    Key(k.level + 1, k.pos / IDR_SIZE)
  }

  ghost predicate Sized<V>(d: Data<V>) {
    |d.ary| == |d.bitmap| == IDR_SIZE
  }

  ghost function Occupied<V>(d: Data<V>): set<int>
    requires Sized(d)
  {
    set s | 0 <= s < IDR_SIZE && (d.bitmap[s] || d.ary[s] != Nil)
  }

  // Slot `s` of layer `k` holds the child layer of that position, if there is one, and its
  // bit is set exactly when that child has no room. On the path to id `lag` the bit may
  // still be missing.
  ghost predicate SlotOk<V>(t: Shape<V>, k: Key, s: int, lag: int)
    requires k in t
  {
    var d := t[k].data;
    && Sized(d)
    && 0 <= s < IDR_SIZE
    && if k.level == 0 then !d.ary[s].Sub? else
         var c := ChildKey(k, s);
         && d.ary[s] == (if c in t then Sub(t[c].at) else Nil)
         && (d.bitmap[s] ==> c in t && Full(t[c].data.bitmap))
         && (c in t && Full(t[c].data.bitmap) && !OnPath(lag, c) ==> d.bitmap[s])
  }

  ghost predicate KeyOk(k: Key, h: int) {
    && 0 <= k.level < h && 0 <= k.pos
    && (k.level == h - 1 ==> k.pos == 0)
    && Shl(IDR_SIZE, k.pos, k.level + 1) <= INT_MAX
  }

  // The count of a layer is the number of its occupied slots, or one more for layer `debt`.
  ghost predicate NodeOk<V>(t: Shape<V>, k: Key, h: int, debt: Key)
    requires k in t
  {
    var d := t[k].data;
    && KeyOk(k, h)
    && d.key == k && d.layer == k.level
    && Sized(d)
    && (k.level == 0 ==> d.prefix == k.pos * IDR_SIZE)
    && d.count == |Occupied(d)| + (if k == debt then 1 else 0)
    && (k.level < h - 1 ==> ParentKey(k) in t)
  }

  /**
   The invariant of a tree of `h` layers under `top`, with two weakenings for the moments
   when an operation is under way: bits on the path to `lag`, and the count of `debt`.
   */
  ghost predicate TreeX<V>(t: Shape<V>, top: Layer?<V>, h: int, lag: int, debt: Key)
  {
    && 0 <= h <= MAX_IDR_LEVEL
    && (top == null <==> h == 0)
    && (top != null ==> Key(h - 1, 0) in t && t[Key(h - 1, 0)].at == top)
    && (forall k {:trigger NodeOk(t, k, h, debt)} :: k in t ==> NodeOk(t, k, h, debt))
    && (forall k, s {:trigger SlotOk(t, k, s, lag)} :: k in t && 0 <= s < IDR_SIZE ==> SlotOk(t, k, s, lag))
  }

  ghost predicate Tree<V>(t: Shape<V>, top: Layer?<V>, h: int)
  {
    TreeX(t, top, h, -1, NO_KEY)
  }

  // The view of the leaves: whether id `x` is taken, and what its slot holds.
  ghost predicate LeafBit<V>(t: Shape<V>, x: int)
  {
    var k := Key(0, x / IDR_SIZE);
    k in t && Sized(t[k].data) && t[k].data.bitmap[x % IDR_SIZE]
  }

  ghost function LeafSlot<V>(t: Shape<V>, x: int): Slot<V>
  {
    var k := Key(0, x / IDR_SIZE);
    if k in t && Sized(t[k].data) then t[k].data.ary[x % IDR_SIZE] else Nil
  }

  // The layer `k` is there and empty.
  ghost predicate Blank<V>(t: Shape<V>, k: Key) {
    k in t && t[k].data.bitmap == NoBits() && t[k].data.ary == NoSlots()
  }

  ghost predicate Covered<V>(t: Shape<V>, a: int, b: int) {
    forall x :: a <= x < b ==> LeafBit(t, x)
  }

  lemma CoveredNone<V>(t: Shape<V>, a: int)
    ensures Covered(t, a, a)
  {
  }

  lemma CoveredStable<V>(t: Shape<V>, t': Shape<V>, a: int, b: int)
    requires SameLeaves(t, t')
    ensures Covered(t, a, b) <==> Covered(t', a, b)
  {
  }

  ghost predicate SameLeaves<V>(t: Shape<V>, t': Shape<V>) {
    && (forall x :: LeafBit(t, x) == LeafBit(t', x))
    && (forall x :: LeafSlot(t, x) == LeafSlot(t', x))
  }

  lemma CoveredSome<V>(t: Shape<V>, a: int, b: int, x: int)
    requires Covered(t, a, b) && a <= x < b
    ensures t != map[]
  {
    assert LeafBit(t, x);
  }

  // `t'` has all the layers of `t`, and the leaves among them as they were.
  ghost predicate Extends<V>(t: Shape<V>, t': Shape<V>) {
    forall k :: k in t ==> k in t' && t'[k].at == t[k].at && (k.level == 0 ==> t'[k] == t[k])
  }

  // Leaves in use stay where they are.
  ghost predicate KeepsLeaves<V>(t: Shape<V>, t': Shape<V>) {
    forall k :: k in t && k.level == 0 && t[k].data.count > 0 ==> k in t' && t'[k] == t[k]
  }

  // The layer `p`, if any, is a leaf of the tree and in use.
  ghost predicate HintIn<V>(t: Shape<V>, p: Layer?<V>) {
    p != null ==> exists q {:trigger Key(0, q)} :: Key(0, q) in t && t[Key(0, q)].at == p && t[Key(0, q)].data.count > 0
  }

  // No id has changed its state.
  ghost predicate Stable<V>(t: Shape<V>, t': Shape<V>) {
    SameLeaves(t, t') && KeepsLeaves(t, t')
  }

  lemma StableSame<V>(t: Shape<V>)
    ensures Stable(t, t)
  {
  }

  lemma StableOn<V>(t: Shape<V>, t': Shape<V>, t'': Shape<V>)
    requires Stable(t, t') && (Stable(t', t'') || Grown(t', t''))
    ensures Stable(t, t'')
  {
  }

  // The tree has grown by empty leaves at most: no id has changed its state.
  ghost predicate Grown<V>(t: Shape<V>, t': Shape<V>) {
    SameLeaves(t, t') && Extends(t, t')
  }

  lemma GrownSame<V>(t: Shape<V>)
    ensures Grown(t, t)
  {
  }

  lemma GrownOn<V>(t: Shape<V>, t': Shape<V>, t'': Shape<V>)
    requires Grown(t, t') && Grown(t', t'')
    ensures Grown(t, t'')
  {
  }

  lemma SameLeavesSelf<V>(t: Shape<V>)
    ensures SameLeaves(t, t)
  {
  }

  lemma SameLeavesOn<V>(t: Shape<V>, t': Shape<V>, t'': Shape<V>)
    requires SameLeaves(t, t') && SameLeaves(t', t'')
    ensures SameLeaves(t, t'')
  {
  }

  // What a user sees: the ids taken and what they are bound to, `Nil` for a null pointer.
  ghost function Bindings<V>(t: Shape<V>): map<int, Slot<V>> {
    map x | 0 <= x <= INT_MAX && LeafBit(t, x) :: LeafSlot(t, x)
  }

  lemma FillBindings<V>(t: Shape<V>, t': Shape<V>, x: int, v: Slot<V>)
    requires Key(0, x / IDR_SIZE) in t && Sized(t[Key(0, x / IDR_SIZE)].data) && 0 <= x <= INT_MAX
    requires SameLeaves(FillLeaf(t, x, v), t')
    ensures Bindings(t') == Bindings(t)[x := v]
  {
    forall y ensures LeafBit(t', y) == (y == x || LeafBit(t, y))
      && LeafSlot(t', y) == if y == x then v else LeafSlot(t, y) {
      FillViews(t, x, v, y);
    }
  }

  // What filling the slot of `x` amounts to, once the bits above are right as well.
  lemma FillDone<V>(t: Shape<V>, t': Shape<V>, top: Layer?<V>, h: int, x: int, v: Slot<V>)
    requires Tree(t, top, h) && NilWhenClear(t) && 0 <= x <= INT_MAX && !LeafBit(t, x)
    requires Key(0, x / IDR_SIZE) in t && Sized(t[Key(0, x / IDR_SIZE)].data)
    requires Grown(PutBit(PutSlot(t, x, v), Key(0, x / IDR_SIZE), x % IDR_SIZE, true), t')
    ensures Bindings(t') == Bindings(t)[x := v] && NilWhenClear(t')
    ensures Key(0, x / IDR_SIZE) in t' && t'[Key(0, x / IDR_SIZE)].at == t[Key(0, x / IDR_SIZE)].at
    ensures t'[Key(0, x / IDR_SIZE)].data.count > 0
  {
    var k := Key(0, x / IDR_SIZE);
    FillInSteps(t, x, v);
    FillBindings(t, t', x, v);
    FillNilWhenClear(t, t', x, v);
    assert NodeOk(t, k, h, NO_KEY);
  }

  // A clear bit at a leaf means an empty slot, when leaves hold pointers.
  ghost predicate NilWhenClear<V>(t: Shape<V>) {
    forall x :: !LeafBit(t, x) ==> LeafSlot(t, x) == Nil
  }

  lemma FillNilWhenClear<V>(t: Shape<V>, t': Shape<V>, x: int, v: Slot<V>)
    requires Key(0, x / IDR_SIZE) in t && Sized(t[Key(0, x / IDR_SIZE)].data)
    requires NilWhenClear(t) && SameLeaves(FillLeaf(t, x, v), t')
    ensures NilWhenClear(t')
  {
    forall y | !LeafBit(t', y) ensures LeafSlot(t', y) == Nil {
      FillViews(t, x, v, y);
    }
  }

  lemma SameBindings<V>(t: Shape<V>, t': Shape<V>)
    requires SameLeaves(t, t')
    ensures Bindings(t) == Bindings(t') && (NilWhenClear(t) <==> NilWhenClear(t'))
  {
  }

  // A set bit at any level means that every id below it is taken.
  lemma {:induction false} FullBelow<V>(t: Shape<V>, top: Layer?<V>, h: int, k: Key, s: int, x: int)
    requires Tree(t, top, h)
    requires k in t && 0 <= s < |t[k].data.bitmap| && t[k].data.bitmap[s]
    requires k.level >= 0 && Shr(IDR_SIZE, x, k.level) == k.pos * IDR_SIZE + s
    ensures LeafBit(t, x)
    decreases k.level
  {
    assert NodeOk(t, k, h, NO_KEY);
    assert SlotOk(t, k, s, -1);
    if k.level > 0 {
      var c := ChildKey(k, s);
      assert NodeOk(t, c, h, NO_KEY);
      FullBelow(t, top, h, c, Shr(IDR_SIZE, x, c.level) % IDR_SIZE, x);
    }
  }

  // The tree after an empty layer has been hung into slot `m` of layer `k`.
  ghost function Link<V>(t: Shape<V>, k: Key, m: int, child: Layer<V>, prefix: int): Shape<V>
    requires k in t && Sized(t[k].data) && 0 <= m < IDR_SIZE
  {
    var d := t[k].data;
    var c := ChildKey(k, m);
    t[k := t[k].(data := d.(ary := d.ary[m := Sub(child)], count := d.count + 1))]
     [c := Cell(child, Empty(c, k.level - 1, prefix))]
  }

  ghost predicate CanLink<V>(t: Shape<V>, h: int, k: Key, m: int, prefix: int)
  {
    && k in t && k.level > 0 && Sized(t[k].data) && 0 <= m < IDR_SIZE
    && t[k].data.ary[m] == Nil
    && KeyOk(ChildKey(k, m), h)
    && (k.level == 1 ==> prefix == ChildKey(k, m).pos * IDR_SIZE)
  }

  lemma LinkKeepsNode<V>(t: Shape<V>, top: Layer?<V>, h: int, k: Key, m: int, child: Layer<V>, prefix: int, j: Key)
    requires Tree(t, top, h) && CanLink(t, h, k, m, prefix)
    requires j in t || j == ChildKey(k, m)
    ensures NodeOk(Link(t, k, m, child, prefix), j, h, NO_KEY)
  {
    var t' := Link(t, k, m, child, prefix);
    assert NodeOk(t, k, h, NO_KEY) && SlotOk(t, k, m, -1);
    if j == ChildKey(k, m) {
      assert Occupied(t'[j].data) == {};
      assert ParentKey(j) == k;
    } else {
      assert NodeOk(t, j, h, NO_KEY);
      if j == k {
        assert Occupied(t'[k].data) == Occupied(t[k].data) + {m};
      }
    }
  }

  lemma LinkKeepsSlot<V>(t: Shape<V>, top: Layer?<V>, h: int, k: Key, m: int, child: Layer<V>, prefix: int, j: Key,
      s: int)
    requires Tree(t, top, h) && CanLink(t, h, k, m, prefix)
    requires j in t || j == ChildKey(k, m)
    requires 0 <= s < IDR_SIZE
    ensures SlotOk(Link(t, k, m, child, prefix), j, s, -1)
  {
    var c := ChildKey(k, m);
    assert SlotOk(t, k, m, -1);
    assert !NoBits()[0];
    var d := ChildKey(j, s);
    if d in t {
      assert NodeOk(t, d, h, NO_KEY);
    }
    if j != c {
      assert NodeOk(t, j, h, NO_KEY) && SlotOk(t, j, s, -1);
    }
  }

  // Hanging an empty layer into an empty slot keeps the invariant.
  lemma LinkKeepsTree<V>(t: Shape<V>, top: Layer?<V>, h: int, k: Key, m: int, child: Layer<V>, prefix: int)
    requires Tree(t, top, h) && CanLink(t, h, k, m, prefix)
    ensures ChildKey(k, m) !in t
    ensures Tree(Link(t, k, m, child, prefix), top, h)
  {
    var t' := Link(t, k, m, child, prefix);
    assert SlotOk(t, k, m, -1);
    forall j | j in t' ensures NodeOk(t', j, h, NO_KEY) {
      LinkKeepsNode(t, top, h, k, m, child, prefix, j);
    }
    forall j, s | j in t' && 0 <= s < IDR_SIZE ensures SlotOk(t', j, s, -1) {
      LinkKeepsSlot(t, top, h, k, m, child, prefix, j, s);
    }
  }

  // ... and the view of the leaves, a new leaf having no id taken.
  lemma LinkKeepsLeaves<V>(t: Shape<V>, top: Layer?<V>, h: int, k: Key, m: int, child: Layer<V>, prefix: int)
    requires Tree(t, top, h) && CanLink(t, h, k, m, prefix)
    ensures SameLeaves(t, Link(t, k, m, child, prefix))
    ensures Extends(t, Link(t, k, m, child, prefix))
  {
    assert SlotOk(t, k, m, -1);
  }

  // Layer `p` is the one at level `l` on the way to id `x`.
  ghost predicate At<V>(t: Shape<V>, x: int, l: int, p: Layer?<V>)
    requires 0 <= l
  {
    var k := Key(l, Shr(IDR_SIZE, x, l + 1));
    k in t && t[k].at == p
  }

  // The layers met on the way down to id `x`: `p` at level `l`, those above it in `pa`.
  ghost predicate Descent<V>(t: Shape<V>, h: int, x: int, l: int, p: Layer?<V>, pa: seq<Layer?<V>>) {
    && 0 <= l < h < |pa| && pa[h] == null
    && At(t, x, l, p)
    && forall j {:trigger At(t, x, j, pa[j])} :: l < j < h ==> At(t, x, j, pa[j])
  }

  lemma ShlValues(c: int)
    ensures Shl(IDR_SIZE, c, 0) == c
    ensures Shl(IDR_SIZE, c, 1) == c * 0x100
    ensures Shl(IDR_SIZE, c, 2) == c * 0x1_0000
    ensures Shl(IDR_SIZE, c, 3) == c * 0x100_0000
    ensures Shl(IDR_SIZE, c, 4) == c * 0x1_0000_0000
  {
    assert Shl(256, c, 1) == Shl(256, c, 0) * 256;
    assert Shl(256, c, 2) == Shl(256, c, 1) * 256;
    assert Shl(256, c, 3) == Shl(256, c, 2) * 256;
    assert Shl(256, c, 4) == Shl(256, c, 3) * 256;
  }

  // An id below the limit has only the root above the top digit.
  lemma RootOnPath(x: int, h: int)
    requires 1 <= h <= MAX_IDR_LEVEL && 0 <= x <= IdrMax(h)
    ensures Shr(IDR_SIZE, x, h) == 0
  {
    ShrNonNegative(IDR_SIZE, x, h);
    ShrLess(IDR_SIZE, x, 1, h);
    ShlValues(1);
  }

  // Slots `n` up to `m` of a layer on the way to `x` have their bits set: no room below.
  lemma SkipSlots<V>(t: Shape<V>, top: Layer?<V>, h: int, x: int, k: Key, m: int)
    requires Tree(t, top, h) && k in t && k.level >= 0 && k.pos == Shr(IDR_SIZE, x, k.level + 1)
    requires Sized(t[k].data) && m <= IDR_SIZE
    requires forall s :: Shr(IDR_SIZE, x, k.level) % IDR_SIZE <= s < m ==> t[k].data.bitmap[s]
    ensures Covered(t, x, Shl(IDR_SIZE, k.pos * IDR_SIZE + m, k.level))
  {
    var l := k.level;
    forall y | x <= y < Shl(IDR_SIZE, k.pos * IDR_SIZE + m, l) ensures LeafBit(t, y) {
      ShrMonotone(IDR_SIZE, x, y, l);
      ShrLess(IDR_SIZE, y, k.pos * IDR_SIZE + m, l);
      FullBelow(t, top, h, k, Shr(IDR_SIZE, y, l) - k.pos * IDR_SIZE, y);
    }
  }

  // The root of a full-depth tree always has room in the digits no `int` can reach.
  lemma SignDigitsClear<V>(t: Shape<V>, top: Layer?<V>, s: int)
    requires Tree(t, top, MAX_IDR_LEVEL) && 128 <= s < IDR_SIZE
    ensures Key(3, 0) in t && Sized(t[Key(3, 0)].data) && !t[Key(3, 0)].data.bitmap[s]
  {
    assert NodeOk(t, Key(3, 0), MAX_IDR_LEVEL, NO_KEY) && SlotOk(t, Key(3, 0), s, -1);
    if Key(2, s) in t {
      assert NodeOk(t, Key(2, s), MAX_IDR_LEVEL, NO_KEY);
      ShlValues(s);
    }
  }

  // Line 242: no room from the way to `x` on at level `l`, so go on at the next position.
  lemma CarryUp<V>(t: Shape<V>, top: Layer?<V>, h: int, x: int, l: int, y: int)
    requires Tree(t, top, h) && 0 <= l < h && 0 <= x <= IdrMax(h)
    requires var k := Key(l, Shr(IDR_SIZE, x, l + 1));
      && k in t && Sized(t[k].data)
      && NextClear(t[k].data.bitmap, Shr(IDR_SIZE, x, l) % IDR_SIZE) == IDR_SIZE
    requires y == Shl(IDR_SIZE, Shr(IDR_SIZE, x, l + 1) + 1, l + 1)
    ensures l < 3 && x < y <= INT_MAX + 1 && Covered(t, x, y)
    ensures h < MAX_IDR_LEVEL ==> y <= IdrMax(h) + 1 <= INT_MAX
    ensures y <= IdrMax(h) ==> l + 1 < h
  {
    var q := Shr(IDR_SIZE, x, l + 1);
    var k := Key(l, q);
    assert NodeOk(t, k, h, NO_KEY);
    SkipSlots(t, top, h, x, k, IDR_SIZE);
    ShlStep(IDR_SIZE, q + 1, l + 1);
    ShrLess(IDR_SIZE, x, q + 1, l + 1);
    ShlValues(128);
    if l == 3 {
      SignDigitsClear(t, top, 128);
      ShrLess(IDR_SIZE, x, 128, 3);
    } else {
      RoundUpBelow(IDR_SIZE, x, 128, l + 1, 3);
    }
    ShlValues(1);
    if h < MAX_IDR_LEVEL {
      RoundUpBelow(IDR_SIZE, x, 1, l + 1, h);
      RootOnPath(x, h);
      assert h == 1 || h == 2 || h == 3;
    }
  }

  // Line 263: the digit at level `l` moves on to the clear bit `m`.
  lemma StepAside<V>(t: Shape<V>, top: Layer?<V>, h: int, x: int, l: int, m: int, y: int)
    requires Tree(t, top, h) && 0 <= l < h && 0 <= x <= IdrMax(h)
    requires var k := Key(l, Shr(IDR_SIZE, x, l + 1));
      && k in t && Sized(t[k].data)
      && Shr(IDR_SIZE, x, l) % IDR_SIZE < m == NextClear(t[k].data.bitmap, Shr(IDR_SIZE, x, l) % IDR_SIZE) < IDR_SIZE
    requires y == Shl(IDR_SIZE, Shr(IDR_SIZE, x, l) - Shr(IDR_SIZE, x, l) % IDR_SIZE + m, l)
    ensures x < y < 0x1_0000_0000 && Covered(t, x, y)
    ensures Shr(IDR_SIZE, y, l + 1) == Shr(IDR_SIZE, x, l + 1) && Shr(IDR_SIZE, y, l) % IDR_SIZE == m
    ensures y <= INT_MAX ==> y <= IdrMax(h)
  {
    var k := Key(l, Shr(IDR_SIZE, x, l + 1));
    var c := Shr(IDR_SIZE, x, l) - Shr(IDR_SIZE, x, l) % IDR_SIZE + m;
    SkipSlots(t, top, h, x, k, m);
    ShrShl(IDR_SIZE, c, l);
    ShrLess(IDR_SIZE, x, c, l);
    RootOnPath(x, h);
    ShrAgree(IDR_SIZE, x, y, l + 1, h);
    ShrLess(IDR_SIZE, y, 1, h);
    ShrAgree(IDR_SIZE, x, y, l + 1, 4);
    ShrLess(IDR_SIZE, x, 1, 4);
    ShrNonNegative(IDR_SIZE, x, 4);
    ShrLess(IDR_SIZE, y, 1, 4);
    ShlValues(1);
  }

  // What `Descent` says is kept when the tree grows below it, when the id changes in lower
  // digits only, and when the search climbs one level or goes down one.
  lemma DescentKept<V>(t: Shape<V>, t': Shape<V>, h: int, x: int, y: int, l: int, l': int, p: Layer?<V>,
      pa: seq<Layer?<V>>)
    requires Descent(t, h, x, l, p, pa) && l <= l' < h && Extends(t, t')
    requires Shr(IDR_SIZE, x, l' + 1) == Shr(IDR_SIZE, y, l' + 1)
    ensures Descent(t', h, y, l', if l' == l then p else pa[l'], pa)
  {
    forall j | l' <= j < h ensures At(t', y, j, if j == l then p else pa[j]) {
      ShrAgree(IDR_SIZE, x, y, l' + 1, j + 1);
      assert At(t, x, j, if j == l then p else pa[j]);
    }
  }

  lemma DescentPut<V>(t: Shape<V>, h: int, x: int, p: Layer?<V>, pa: seq<Layer?<V>>, k: Key, s: int, b: bool)
    requires Descent(t, h, x, 0, p, pa) && k in t && 0 <= s < |t[k].data.bitmap|
    ensures Descent(PutBit(t, k, s, b), h, x, 0, p, pa)
    ensures k.level != 0 ==> Grown(t, PutBit(t, k, s, b))
  {
    forall j {:trigger At(PutBit(t, k, s, b), x, j, pa[j])} | 0 < j < h ensures At(PutBit(t, k, s, b), x, j, pa[j]) {
      assert At(t, x, j, pa[j]);
    }
  }

  lemma DescentDown<V>(t: Shape<V>, h: int, x: int, l: int, p: Layer?<V>, child: Layer<V>, pa: seq<Layer?<V>>)
    requires Descent(t, h, x, l, p, pa) && l > 0 && At(t, x, l - 1, child)
    ensures Descent(t, h, x, l - 1, child, pa[l := p])
  {
    forall j {:trigger At(t, x, j, pa[l := p][j])} | l <= j < h ensures At(t, x, j, pa[l := p][j]) {
      assert At(t, x, j, if j == l then p else pa[j]);
    }
  }

  // The tree of one empty leaf.
  ghost function Seed<V>(root: Layer<V>): Shape<V> {
    map[Key(0, 0) := Cell(root, Empty(Key(0, 0), 0, 0))]
  }

  lemma SeedIsTree<V>(root: Layer<V>)
    ensures Tree(Seed(root), root, 1)
    ensures forall x :: !LeafBit(Seed(root), x) && LeafSlot(Seed(root), x) == Nil
  {
    var d: Data<V> := Empty(Key(0, 0), 0, 0);
    assert Occupied(d) == {};
    ShlValues(0);
  }

  lemma Height<V>(t: Shape<V>, top: Layer?<V>, h: int)
    requires Tree(t, top, h)
    ensures 0 <= h <= MAX_IDR_LEVEL && (top == null <==> h == 0)
  {
  }

  lemma EmptyTree<V>()
    ensures Tree<V>(map[], null, 0)
  {
  }

  lemma NoTree<V>(t: Shape<V>, lag: int)
    requires TreeX(t, null, 0, lag, NO_KEY)
    ensures t == map[]
  {
    assert forall k :: k in t ==> NodeOk(t, k, 0, NO_KEY);
  }

  lemma RootNode<V>(t: Shape<V>, top: Layer?<V>, h: int)
    requires Tree(t, top, h) && top != null
    ensures 1 <= h <= MAX_IDR_LEVEL && Key(h - 1, 0) in t && t[Key(h - 1, 0)].at == top
    ensures NodeOk(t, Key(h - 1, 0), h, NO_KEY) && Key(h, 0) !in t
  {
    assert NodeOk(t, Key(h - 1, 0), h, NO_KEY);
    assert Key(h, 0) in t ==> NodeOk(t, Key(h, 0), h, NO_KEY);
  }

  // The tree with one more layer over the root (lines 338-344).
  ghost function Raise<V>(t: Shape<V>, h: int, root: Layer<V>, prefix: int): Shape<V>
    requires h > 0 && Key(h - 1, 0) in t
  {
    var below := t[Key(h - 1, 0)];
    t[Key(h, 0) := Cell(root,
        Data(Key(h, 0), h, prefix, NoSlots()[0 := Sub(below.at)], 1, NoBits()[0 := Full(below.data.bitmap)]))]
  }

  // Layer (i, 0) is as it is when it has just been put over the one below.
  ghost predicate RaisedAt<V>(g: Shape<V>, i: int) {
    && Key(i, 0) in g && Key(i - 1, 0) in g
    && g[Key(i, 0)].data.ary == NoSlots()[0 := Sub(g[Key(i - 1, 0)].at)]
    && g[Key(i, 0)].data.bitmap == NoBits()[0 := Full(g[Key(i - 1, 0)].data.bitmap)]
  }

  // `g` has all the layers of `t`, as they are, and over them a layer for every level.
  ghost predicate Above<V>(t: Shape<V>, h: int, g: Shape<V>, lay: int) {
    && h <= lay
    && (forall k {:trigger t[k]} {:trigger g[k]} :: k in t ==> k in g && g[k] == t[k])
    && (forall i {:trigger RaisedAt(g, i)} :: h <= i < lay ==> RaisedAt(g, i))
  }

  lemma AboveRaise<V>(t: Shape<V>, h: int, g: Shape<V>, lay: int, root: Layer<V>, prefix: int)
    requires Above(t, h, g, lay) && 0 < lay && Key(lay - 1, 0) in g && Key(lay, 0) !in g
    ensures Above(t, h, Raise(g, lay, root, prefix), lay + 1)
  {
    var g' := Raise(g, lay, root, prefix);
    forall i {:trigger RaisedAt(g', i)} | h <= i < lay + 1 ensures RaisedAt(g', i) {
      assert i < lay ==> RaisedAt(g, i);
    }
  }

  ghost predicate RootFull<V>(t: Shape<V>, h: int) {
    h > 0 && Key(h - 1, 0) in t && Full(t[Key(h - 1, 0)].data.bitmap)
  }

  // Growing a tree of `h` layers for `id` with `n` layers to spare has to be given up after
  // a layer has been put over a full root.
  ghost predicate Torn<V>(t: Shape<V>, h: int, n: nat, id: int) {
    RootFull(t, h) && n > 0 && id > IdrMax(h + n)
  }

  lemma RootInUse<V>(t: Shape<V>, top: Layer?<V>, h: int)
    requires Tree(t, top, h) && RootFull(t, h)
    ensures t[Key(h - 1, 0)].data.count > 0
  {
    assert NodeOk(t, Key(h - 1, 0), h, NO_KEY);
    assert 0 in Occupied(t[Key(h - 1, 0)].data);
  }

  lemma IdrMaxGrows(h: int, lay: int)
    requires 0 <= h <= lay
    ensures IdrMax(h) <= IdrMax(lay)
  {
    if lay < MAX_IDR_LEVEL {
      ShlGrowsIn(h, lay);
    }
  }

  lemma RaiseKeepsNode<V>(t: Shape<V>, top: Layer?<V>, h: int, root: Layer<V>, prefix: int, j: Key)
    requires Tree(t, top, h) && 0 < h < MAX_IDR_LEVEL && j in Raise(t, h, root, prefix)
    ensures NodeOk(Raise(t, h, root, prefix), j, h + 1, NO_KEY)
  {
    if j == Key(h, 0) {
      assert Occupied(Raise(t, h, root, prefix)[j].data) == {0};
      ShlZero(h + 1);
    } else {
      assert NodeOk(t, j, h, NO_KEY);
    }
  }

  lemma RaiseKeepsSlot<V>(t: Shape<V>, top: Layer?<V>, h: int, root: Layer<V>, prefix: int, j: Key, s: int)
    requires Tree(t, top, h) && 0 < h < MAX_IDR_LEVEL && j in Raise(t, h, root, prefix) && 0 <= s < IDR_SIZE
    ensures SlotOk(Raise(t, h, root, prefix), j, s, -1)
  {
    hide Shl;
    if j == Key(h, 0) {
      assert ChildKey(j, s) in t ==> NodeOk(t, ChildKey(j, s), h, NO_KEY);
      assert NodeOk(t, Key(h - 1, 0), h, NO_KEY);
    } else {
      assert SlotOk(t, j, s, -1) && NodeOk(t, j, h, NO_KEY);
    }
  }

  lemma RaiseKeepsTree<V>(t: Shape<V>, top: Layer?<V>, h: int, root: Layer<V>, prefix: int)
    requires Tree(t, top, h) && 0 < h < MAX_IDR_LEVEL
    ensures Tree(Raise(t, h, root, prefix), root, h + 1) && Grown(t, Raise(t, h, root, prefix))
    ensures Key(h, 0) !in t
  {
    hide SlotOk, Sized;
    var t' := Raise(t, h, root, prefix);
    assert Key(h, 0) in t ==> NodeOk(t, Key(h, 0), h, NO_KEY);
    forall j | j in t' ensures NodeOk(t', j, h + 1, NO_KEY) {
      RaiseKeepsNode(t, top, h, root, prefix, j);
    }
    forall j, s | j in t' && 0 <= s < IDR_SIZE ensures SlotOk(t', j, s, -1) {
      RaiseKeepsSlot(t, top, h, root, prefix, j, s);
    }
  }

  lemma {:induction false} ShlZero(l: nat)
    ensures Shl(IDR_SIZE, 0, l) == 0
  {
    if l > 0 {
      ShlZero(l - 1);
    }
  }

  // A layer without occupied slots has no layer below it.
  lemma NoChildren<V>(t: Shape<V>, top: Layer?<V>, h: int, lag: int, debt: Key, k: Key, j: Key)
    requires TreeX(t, top, h, lag, debt) && k in t && j in t
    requires Sized(t[k].data) && Occupied(t[k].data) == {}
    ensures j.level < h - 1 ==> ParentKey(j) != k
  {
    var s := j.pos % IDR_SIZE;
    assert NodeOk(t, k, h, debt) && NodeOk(t, j, h, debt) && SlotOk(t, k, s, lag);
    assert s !in Occupied(t[k].data);
  }

  // Under an idle root there is nothing.
  lemma {:induction false} IdleRoot<V>(t: Shape<V>, top: Layer?<V>, h: int, lag: int, debt: Key, j: Key)
    requires TreeX(t, top, h, lag, debt) && top != null && j in t
    requires Sized(t[Key(h - 1, 0)].data) && Occupied(t[Key(h - 1, 0)].data) == {}
    ensures j == Key(h - 1, 0)
    decreases h - j.level
  {
    assert NodeOk(t, j, h, debt);
    if j.level < h - 1 {
      IdleRoot(t, top, h, lag, debt, ParentKey(j));
      NoChildren(t, top, h, lag, debt, Key(h - 1, 0), j);
    }
  }

  // An idle root grows the tree by moving up itself (lines 313-321).
  ghost function Lift<V>(t: Shape<V>, h: int): Shape<V>
    requires h > 0 && Key(h - 1, 0) in t
  {
    var r := t[Key(h - 1, 0)];
    map[Key(h, 0) := r.(data := r.data.(key := Key(h, 0), layer := h))]
  }

  lemma LiftKeepsTree<V>(t: Shape<V>, top: Layer?<V>, h: int)
    requires Tree(t, top, h) && 0 < h < MAX_IDR_LEVEL && t[Key(h - 1, 0)].data.count == 0
    ensures t.Keys == {Key(h - 1, 0)}
    ensures Tree(Lift(t, h), top, h + 1) && Stable(t, Lift(t, h))
    ensures Lift(t, h)[Key(h, 0)].data.count == 0
  {
    var r := Key(h - 1, 0);
    var d := t[r].data;
    assert NodeOk(t, r, h, NO_KEY);
    assert Occupied(d) == {};
    forall j | j in t ensures j == r {
      IdleRoot(t, top, h, -1, NO_KEY, j);
    }
    ShlZero(h + 1);
    forall s | 0 <= s < IDR_SIZE ensures d.ary[s] == Nil && !d.bitmap[s] {
      assert s !in Occupied(d);
    }
    var t' := Lift(t, h);
    assert Occupied(t'[Key(h, 0)].data) == {};
    assert NodeOk(t', Key(h, 0), h + 1, NO_KEY);
  }

  // The bit for the way to `x` at level `j` is set if the layer below has no room.
  ghost predicate Exact<V>(t: Shape<V>, x: int, j: int)
    requires 1 <= j
  {
    var k := Key(j, Shr(IDR_SIZE, x, j + 1));
    var c := Key(j - 1, Shr(IDR_SIZE, x, j));
    (k in t && c in t && |t[k].data.bitmap| == IDR_SIZE && Full(t[c].data.bitmap) ==>
       t[k].data.bitmap[Shr(IDR_SIZE, x, j) % IDR_SIZE])
  }

  ghost predicate ExactBut<V>(t: Shape<V>, h: int, x: int, l: int) {
    forall j {:trigger Exact(t, x, j)} :: 1 <= j < h && j != l ==> Exact(t, x, j)
  }

  // Once no bit on the way to `x` is missing, the tree is as it should be.
  lemma LagDone<V>(t: Shape<V>, top: Layer?<V>, h: int, x: int, debt: Key)
    requires TreeX(t, top, h, x, debt) && ExactBut(t, h, x, 0)
    ensures TreeX(t, top, h, -1, debt)
  {
    forall k, s {:trigger SlotOk(t, k, s, -1)} | k in t && 0 <= s < IDR_SIZE ensures SlotOk(t, k, s, -1) {
      assert SlotOk(t, k, s, x) && NodeOk(t, k, h, debt);
      if k.level > 0 {
        assert Exact(t, x, k.level);
      }
    }
  }

  // The tree after bit `s` of layer `k` has been given the value `b`.
  ghost function PutBit<V>(t: Shape<V>, k: Key, s: int, b: bool): Shape<V>
    requires k in t && 0 <= s < |t[k].data.bitmap|
  {
    t[k := t[k].(data := t[k].data.(bitmap := t[k].data.bitmap[s := b]))]
  }

  // Line 188: the layer below is full, and its bit is set.
  lemma SetBitKeeps<V>(t: Shape<V>, top: Layer?<V>, h: int, x: int, l: int)
    requires TreeX(t, top, h, x, NO_KEY) && 1 <= l < h
    requires Key(l, Shr(IDR_SIZE, x, l + 1)) in t && Key(l - 1, Shr(IDR_SIZE, x, l)) in t
    requires Full(t[Key(l - 1, Shr(IDR_SIZE, x, l))].data.bitmap)
    requires ExactBut(t, h, x, l)
    ensures var k := Key(l, Shr(IDR_SIZE, x, l + 1));
      && Sized(t[k].data)
      && TreeX(PutBit(t, k, Shr(IDR_SIZE, x, l) % IDR_SIZE, true), top, h, x, NO_KEY)
      && ExactBut(PutBit(t, k, Shr(IDR_SIZE, x, l) % IDR_SIZE, true), h, x, l + 1)
  {
    var k := Key(l, Shr(IDR_SIZE, x, l + 1));
    var d := Shr(IDR_SIZE, x, l) % IDR_SIZE;
    assert NodeOk(t, k, h, NO_KEY) && SlotOk(t, k, d, x);
    var t' := PutBit(t, k, d, true);
    assert Occupied(t'[k].data) == Occupied(t[k].data);
    forall j {:trigger NodeOk(t', j, h, NO_KEY)} | j in t' ensures NodeOk(t', j, h, NO_KEY) {
      assert NodeOk(t, j, h, NO_KEY);
    }
    forall j, s {:trigger SlotOk(t', j, s, x)} | j in t' && 0 <= s < IDR_SIZE ensures SlotOk(t', j, s, x) {
      assert SlotOk(t, j, s, x) && NodeOk(t, j, h, NO_KEY);
    }
    forall j {:trigger Exact(t', x, j)} | 1 <= j < h && j != l + 1 ensures Exact(t', x, j) {
      assert j != l ==> Exact(t, x, j);
    }
  }

  // The tree after the slot of id `x` has been filled with `v` and its bit set.
  ghost function FillLeaf<V>(t: Shape<V>, x: int, v: Slot<V>): Shape<V>
    requires Key(0, x / IDR_SIZE) in t && Sized(t[Key(0, x / IDR_SIZE)].data)
  {
    var k := Key(0, x / IDR_SIZE);
    var d := t[k].data;
    var s := x % IDR_SIZE;
    t[k := t[k].(data := d.(
      ary := d.ary[s := v],
      bitmap := d.bitmap[s := true],
      count := d.count + (if d.bitmap[s] || d.ary[s] != Nil then 0 else 1)))]
  }

  lemma FillKeepsNode<V>(t: Shape<V>, top: Layer?<V>, h: int, x: int, v: Slot<V>, j: Key)
    requires Tree(t, top, h) && Key(0, x / IDR_SIZE) in t && j in t
    ensures Sized(t[Key(0, x / IDR_SIZE)].data) && NodeOk(FillLeaf(t, x, v), j, h, NO_KEY)
  {
    var k := Key(0, x / IDR_SIZE);
    assert NodeOk(t, k, h, NO_KEY) && NodeOk(t, j, h, NO_KEY);
    var d, s := t[k].data, x % IDR_SIZE;
    assert Occupied(FillLeaf(t, x, v)[k].data) ==
        if d.bitmap[s] || d.ary[s] != Nil then Occupied(d) else Occupied(d) + {s};
  }

  lemma FillKeepsSlot<V>(t: Shape<V>, top: Layer?<V>, h: int, x: int, v: Slot<V>, j: Key, r: int)
    requires Tree(t, top, h) && Key(0, x / IDR_SIZE) in t && !v.Sub? && j in t && 0 <= r < IDR_SIZE
    ensures Sized(t[Key(0, x / IDR_SIZE)].data) && SlotOk(FillLeaf(t, x, v), j, r, x)
  {
    assert NodeOk(t, Key(0, x / IDR_SIZE), h, NO_KEY);
    assert SlotOk(t, j, r, -1) && NodeOk(t, j, h, NO_KEY);
    assert Shr(IDR_SIZE, x, 1) == x / IDR_SIZE;
    if j.level > 0 && ChildKey(j, r) in t {
      OffPathMinus(ChildKey(j, r));
    }
  }

  lemma FillKeeps<V>(t: Shape<V>, top: Layer?<V>, h: int, x: int, v: Slot<V>)
    requires Tree(t, top, h) && Key(0, x / IDR_SIZE) in t && !v.Sub?
    ensures Sized(t[Key(0, x / IDR_SIZE)].data)
    ensures TreeX(FillLeaf(t, x, v), top, h, x, NO_KEY) && ExactBut(FillLeaf(t, x, v), h, x, 1)
  {
    hide SlotOk;
    var k := Key(0, x / IDR_SIZE);
    assert NodeOk(t, k, h, NO_KEY);
    var t' := FillLeaf(t, x, v);
    forall j {:trigger NodeOk(t', j, h, NO_KEY)} | j in t' ensures NodeOk(t', j, h, NO_KEY) {
      FillKeepsNode(t, top, h, x, v, j);
    }
    forall j, r {:trigger SlotOk(t', j, r, x)} | j in t' && 0 <= r < IDR_SIZE ensures SlotOk(t', j, r, x) {
      FillKeepsSlot(t, top, h, x, v, j, r);
    }
    forall j {:trigger Exact(t', x, j)} | 1 <= j < h && j != 1 ensures Exact(t', x, j) {
      ExactIn(t, top, h, x, j);
    }
  }

  // `FillLeaf` in the two steps the code takes.
  ghost function PutSlot<V>(t: Shape<V>, x: int, v: Slot<V>): Shape<V>
    requires Key(0, x / IDR_SIZE) in t && Sized(t[Key(0, x / IDR_SIZE)].data)
  {
    var k := Key(0, x / IDR_SIZE);
    var d := t[k].data;
    t[k := t[k].(data := d.(ary := d.ary[x % IDR_SIZE := v], count := d.count + 1))]
  }

  lemma FillInSteps<V>(t: Shape<V>, x: int, v: Slot<V>)
    requires Key(0, x / IDR_SIZE) in t && Sized(t[Key(0, x / IDR_SIZE)].data)
    requires !LeafBit(t, x) && LeafSlot(t, x) == Nil
    ensures PutBit(PutSlot(t, x, v), Key(0, x / IDR_SIZE), x % IDR_SIZE, true) == FillLeaf(t, x, v)
  {
  }

  lemma DescentSlot<V>(t: Shape<V>, h: int, x: int, p: Layer?<V>, pa: seq<Layer?<V>>, v: Slot<V>)
    requires Descent(t, h, x, 0, p, pa)
    requires Key(0, x / IDR_SIZE) in t && Sized(t[Key(0, x / IDR_SIZE)].data)
    ensures Descent(PutSlot(t, x, v), h, x, 0, p, pa)
  {
    forall j {:trigger At(PutSlot(t, x, v), x, j, pa[j])} | 0 < j < h ensures At(PutSlot(t, x, v), x, j, pa[j]) {
      assert At(t, x, j, pa[j]);
    }
  }

  // No path leads to the id -1, which stands for "no lag".
  lemma {:induction false} OffPathMinus(k: Key)
    requires k.pos >= 0
    ensures !OnPath(-1, k)
  {
    if k.level >= 0 {
      ShrLess(IDR_SIZE, -1, 0, k.level + 1);
      ShlZero(k.level + 1);
    }
  }

  lemma ExactIn<V>(t: Shape<V>, top: Layer?<V>, h: int, x: int, j: int)
    requires Tree(t, top, h) && 1 <= j < h
    ensures Exact(t, x, j)
  {
    var k := Key(j, Shr(IDR_SIZE, x, j + 1));
    var c := Key(j - 1, Shr(IDR_SIZE, x, j));
    if k in t && c in t {
      assert NodeOk(t, c, h, NO_KEY) && SlotOk(t, k, Shr(IDR_SIZE, x, j) % IDR_SIZE, -1);
      OffPathMinus(c);
    }
  }

  lemma FillViews<V>(t: Shape<V>, x: int, v: Slot<V>, y: int)
    requires Key(0, x / IDR_SIZE) in t && Sized(t[Key(0, x / IDR_SIZE)].data)
    ensures LeafBit(FillLeaf(t, x, v), y) <==> y == x || LeafBit(t, y)
    ensures LeafSlot(FillLeaf(t, x, v), y) == if y == x then v else LeafSlot(t, y)
  {
  }

  // The layer at level `l` on the way to id `x`.
  function PathKey(x: int, l: int): Key
    requires 0 <= l
  {
    Key(l, Shr(IDR_SIZE, x, l + 1))
  }

  // On the way to `x`, from the root down to level `l`, no bit is set.
  ghost predicate ClearAbove<V>(t: Shape<V>, h: int, x: int, l: int)
    requires 0 <= l
  {
    forall j {:trigger PathKey(x, j)} :: l <= j < h && PathKey(x, j) in t ==>
      |t[PathKey(x, j)].data.bitmap| == IDR_SIZE && !t[PathKey(x, j)].data.bitmap[Shr(IDR_SIZE, x, j) % IDR_SIZE]
  }

  // A layer on the way to `x` has all the layers above it on the way.
  lemma {:induction false} PathUp<V>(t: Shape<V>, top: Layer?<V>, h: int, lag: int, debt: Key, x: int, l: int, j: int)
    requires TreeX(t, top, h, lag, debt) && 0 <= l <= j < h && PathKey(x, l) in t
    ensures PathKey(x, j) in t
    decreases j - l
  {
    if l < j {
      assert NodeOk(t, PathKey(x, l), h, debt);
      PathUp(t, top, h, lag, debt, x, l + 1, j);
    }
  }

  // Clearing a bit on the way to `x` keeps what holds while bits may lag there.
  lemma ClearKeeps<V>(t: Shape<V>, top: Layer?<V>, h: int, x: int, l: int)
    requires TreeX(t, top, h, x, NO_KEY) && 0 < l < h && PathKey(x, l) in t && ClearAbove(t, h, x, l + 1)
    ensures Sized(t[PathKey(x, l)].data)
    ensures var t' := PutBit(t, PathKey(x, l), Shr(IDR_SIZE, x, l) % IDR_SIZE, false);
      TreeX(t', top, h, x, NO_KEY) && ClearAbove(t', h, x, l)
  {
    var k := PathKey(x, l);
    var d := Shr(IDR_SIZE, x, l) % IDR_SIZE;
    assert NodeOk(t, k, h, NO_KEY) && SlotOk(t, k, d, x);
    var t' := PutBit(t, k, d, false);
    assert Occupied(t'[k].data) == Occupied(t[k].data);
    assert !t'[k].data.bitmap[d];
    assert !Full(t'[k].data.bitmap);
    forall j {:trigger NodeOk(t', j, h, NO_KEY)} | j in t' ensures NodeOk(t', j, h, NO_KEY) {
      assert NodeOk(t, j, h, NO_KEY);
    }
    forall j, s {:trigger SlotOk(t', j, s, x)} | j in t' && 0 <= s < IDR_SIZE ensures SlotOk(t', j, s, x) {
      assert SlotOk(t, j, s, x) && NodeOk(t, j, h, NO_KEY);
      if j.level > 0 && ChildKey(j, s) == k {
        assert j == PathKey(x, l + 1);
      }
    }
  }

  // When every bit on the way is clear, down to the leaf, none is missing.
  lemma ClearDone<V>(t: Shape<V>, top: Layer?<V>, h: int, x: int, debt: Key)
    requires TreeX(t, top, h, x, debt) && ClearAbove(t, h, x, 0)
    ensures TreeX(t, top, h, -1, debt)
  {
    forall j {:trigger Exact(t, x, j)} | 1 <= j < h ensures Exact(t, x, j) {
      if PathKey(x, j - 1) in t {
        assert !Full(t[PathKey(x, j - 1)].data.bitmap);
      }
    }
    LagDone(t, top, h, x, debt);
  }

  // The tree after the slot of id `x` has been emptied, its layer's count still to follow.
  ghost function EmptySlot<V>(t: Shape<V>, x: int): Shape<V>
    requires PathKey(x, 0) in t && Sized(t[PathKey(x, 0)].data)
  {
    var k := PathKey(x, 0);
    var d := t[k].data;
    var s := x % IDR_SIZE;
    t[k := t[k].(data := d.(ary := d.ary[s := Nil], bitmap := d.bitmap[s := false]))]
  }

  lemma EmptySlotKeeps<V>(t: Shape<V>, top: Layer?<V>, h: int, x: int)
    requires TreeX(t, top, h, x, NO_KEY) && ClearAbove(t, h, x, 1) && PathKey(x, 0) in t
    requires LeafBit(t, x)
    ensures Sized(t[PathKey(x, 0)].data)
    ensures TreeX(EmptySlot(t, x), top, h, -1, PathKey(x, 0))
  {
    var k := PathKey(x, 0);
    var s := x % IDR_SIZE;
    assert Shr(IDR_SIZE, x, 1) == x / IDR_SIZE;
    assert NodeOk(t, k, h, NO_KEY) && SlotOk(t, k, s, x);
    var t' := EmptySlot(t, x);
    assert Occupied(t'[k].data) == Occupied(t[k].data) - {s};
    assert !t'[k].data.bitmap[s];
    assert !Full(t'[k].data.bitmap);
    forall j {:trigger NodeOk(t', j, h, k)} | j in t' ensures NodeOk(t', j, h, k) {
      assert NodeOk(t, j, h, NO_KEY);
    }
    forall j, r {:trigger SlotOk(t', j, r, x)} | j in t' && 0 <= r < IDR_SIZE ensures SlotOk(t', j, r, x) {
      assert SlotOk(t, j, r, x) && NodeOk(t, j, h, NO_KEY);
      if j.level > 0 && ChildKey(j, r) == k {
        assert j == PathKey(x, 1);
      }
    }
    forall j {:trigger PathKey(x, j)} | 0 <= j < h && PathKey(x, j) in t'
      ensures |t'[PathKey(x, j)].data.bitmap| == IDR_SIZE
        && !t'[PathKey(x, j)].data.bitmap[Shr(IDR_SIZE, x, j) % IDR_SIZE]
    {
      assert PathKey(x, j) in t;
    }
    ClearDone(t', top, h, x, k);
  }

  // The tree after layer `k` has paid its debt.
  ghost function Decrement<V>(t: Shape<V>, k: Key): Shape<V>
    requires k in t
  {
    t[k := t[k].(data := t[k].data.(count := t[k].data.count - 1))]
  }

  lemma DecrementKeeps<V>(t: Shape<V>, top: Layer?<V>, h: int, k: Key)
    requires TreeX(t, top, h, -1, k) && k in t && k != NO_KEY
    ensures TreeX(Decrement(t, k), top, h, -1, NO_KEY)
    ensures Sized(t[k].data) && SameLeaves(t, Decrement(t, k))
    ensures t[k].data.count >= 1 && (t[k].data.count == 1 <==> Occupied(t[k].data) == {})
  {
    var t' := Decrement(t, k);
    assert NodeOk(t, k, h, k);
    assert Occupied(t'[k].data) == Occupied(t[k].data);
    forall j {:trigger NodeOk(t', j, h, NO_KEY)} | j in t' ensures NodeOk(t', j, h, NO_KEY) {
      assert NodeOk(t, j, h, k);
    }
    forall j, s {:trigger SlotOk(t', j, s, -1)} | j in t' && 0 <= s < IDR_SIZE ensures SlotOk(t', j, s, -1) {
      assert SlotOk(t, j, s, -1);
    }
  }

  // The tree without the idle layer `k`, which is not the root; its parent's count is to follow.
  ghost function Unhang<V>(t: Shape<V>, k: Key): Shape<V>
    requires ParentKey(k) in t && Sized(t[ParentKey(k)].data)
  {
    var p := ParentKey(k);
    t[p := t[p].(data := t[p].data.(ary := t[p].data.ary[k.pos % IDR_SIZE := Nil]))] - {k}
  }

  // An idle layer, and the slot above it.
  lemma UnhangParts<V>(t: Shape<V>, top: Layer?<V>, h: int, k: Key)
    requires TreeX(t, top, h, -1, NO_KEY) && k in t && 0 <= k.level < h - 1
    requires t[k].data.count == 0
    ensures Sized(t[k].data) && Occupied(t[k].data) == {} && !Full(t[k].data.bitmap)
    ensures ParentKey(k) in t && Sized(t[ParentKey(k)].data) && k.pos % IDR_SIZE in Occupied(t[ParentKey(k)].data)
    ensures Occupied(Unhang(t, k)[ParentKey(k)].data) == Occupied(t[ParentKey(k)].data) - {k.pos % IDR_SIZE}
  {
    var p := ParentKey(k);
    var d := k.pos % IDR_SIZE;
    assert NodeOk(t, k, h, NO_KEY) && NodeOk(t, p, h, NO_KEY) && SlotOk(t, p, d, -1);
    assert 0 !in Occupied(t[k].data);
  }

  lemma UnhangKeepsNode<V>(t: Shape<V>, top: Layer?<V>, h: int, k: Key, j: Key)
    requires TreeX(t, top, h, -1, NO_KEY) && k in t && 0 <= k.level < h - 1
    requires t[k].data.count == 0 && j in t && j != k
    ensures ParentKey(k) in t && Sized(t[ParentKey(k)].data) && NodeOk(Unhang(t, k), j, h, ParentKey(k))
  {
    UnhangParts(t, top, h, k);
    assert NodeOk(t, j, h, NO_KEY);
    NoChildren(t, top, h, -1, NO_KEY, k, j);
  }

  lemma UnhangKeepsSlot<V>(t: Shape<V>, top: Layer?<V>, h: int, k: Key, j: Key, s: int)
    requires TreeX(t, top, h, -1, NO_KEY) && k in t && 0 <= k.level < h - 1
    requires t[k].data.count == 0 && j in t && j != k && 0 <= s < IDR_SIZE
    ensures ParentKey(k) in t && Sized(t[ParentKey(k)].data) && SlotOk(Unhang(t, k), j, s, -1)
  {
    UnhangParts(t, top, h, k);
    assert SlotOk(t, j, s, -1) && NodeOk(t, j, h, NO_KEY) && NodeOk(t, k, h, NO_KEY);
  }

  lemma UnhangKeeps<V>(t: Shape<V>, top: Layer?<V>, h: int, k: Key)
    requires TreeX(t, top, h, -1, NO_KEY) && k in t && 0 <= k.level < h - 1
    requires t[k].data.count == 0
    ensures ParentKey(k) in t && Sized(t[ParentKey(k)].data)
    ensures TreeX(Unhang(t, k), top, h, -1, ParentKey(k)) && SameLeaves(t, Unhang(t, k))
  {
    hide NodeOk, SlotOk;
    UnhangParts(t, top, h, k);
    var p := ParentKey(k);
    var t' := Unhang(t, k);
    forall j {:trigger NodeOk(t', j, h, p)} | j in t' ensures NodeOk(t', j, h, p) {
      UnhangKeepsNode(t, top, h, k, j);
    }
    forall j, s {:trigger SlotOk(t', j, s, -1)} | j in t' && 0 <= s < IDR_SIZE ensures SlotOk(t', j, s, -1) {
      UnhangKeepsSlot(t, top, h, k, j, s);
    }
    forall y ensures LeafBit(t, y) == LeafBit(t', y) && LeafSlot(t, y) == LeafSlot(t', y) {
      if Key(0, y / IDR_SIZE) == k {
        assert y % IDR_SIZE !in Occupied(t[k].data);
      }
    }
  }

  // When the root is idle, no id is taken.
  lemma IdleTree<V>(t: Shape<V>, top: Layer?<V>, h: int)
    requires Tree(t, top, h) && top != null && t[Key(h - 1, 0)].data.count == 0
    ensures SameLeaves(t, map[])
    ensures t.Keys == {Key(h - 1, 0)}
  {
    var r := Key(h - 1, 0);
    var d := t[r].data;
    assert NodeOk(t, r, h, NO_KEY);
    assert Occupied(d) == {};
    forall j | j in t ensures j == r {
      IdleRoot(t, top, h, -1, NO_KEY, j);
    }
    forall s | 0 <= s < IDR_SIZE ensures d.ary[s] == Nil && !d.bitmap[s] {
      assert s !in Occupied(d);
    }
  }

  lemma LeafBitAt<V>(t: Shape<V>, x: int)
    ensures PathKey(x, 0) == Key(0, x / IDR_SIZE)
    ensures PathKey(x, 0) in t && Sized(t[PathKey(x, 0)].data) ==>
        LeafBit(t, x) == t[PathKey(x, 0)].data.bitmap[x % IDR_SIZE]
    ensures PathKey(x, 0) !in t ==> !LeafBit(t, x)
  {
    assert Shr(IDR_SIZE, x, 1) == x / IDR_SIZE;
  }

  lemma EmptySlotViews<V>(t: Shape<V>, x: int, y: int)
    requires PathKey(x, 0) in t && Sized(t[PathKey(x, 0)].data)
    ensures LeafBit(EmptySlot(t, x), y) <==> y != x && LeafBit(t, y)
    ensures LeafSlot(EmptySlot(t, x), y) == if y == x then Nil else LeafSlot(t, y)
  {
    assert Shr(IDR_SIZE, x, 1) == x / IDR_SIZE;
  }

  lemma Singleton(s: set<int>, a: int, b: int)
    requires |s| == 1 && a in s && b in s
    ensures a == b
  {
    assert |s - {a}| == 0;
  }

  // With one slot in use, the leftmost, a root has one layer below it.
  lemma OnlyLeft<V>(t: Shape<V>, top: Layer?<V>, h: int, j: Key)
    requires Tree(t, top, h) && h > 1 && t[Key(h - 1, 0)].data.count == 1
    requires Sized(t[Key(h - 1, 0)].data) && t[Key(h - 1, 0)].data.ary[0] != Nil && j in t && j.level == h - 2
    ensures j.pos == 0
  {
    var r := Key(h - 1, 0);
    assert NodeOk(t, r, h, NO_KEY) && NodeOk(t, j, h, NO_KEY) && NodeOk(t, ParentKey(j), h, NO_KEY);
    assert SlotOk(t, r, j.pos, -1);
    Singleton(Occupied(t[r].data), 0, j.pos);
  }

  // The tree without its root, whose only layer below is in the leftmost slot (lines 564-578).
  lemma ShrinkKeeps<V>(t: Shape<V>, top: Layer?<V>, h: int)
    requires Tree(t, top, h) && h > 1 && t[Key(h - 1, 0)].data.count == 1
    requires Sized(t[Key(h - 1, 0)].data) && t[Key(h - 1, 0)].data.ary[0] != Nil
    ensures Key(h - 2, 0) in t && t[Key(h - 1, 0)].data.ary[0] == Sub(t[Key(h - 2, 0)].at)
    ensures Tree(t - {Key(h - 1, 0)}, t[Key(h - 2, 0)].at, h - 1)
    ensures SameLeaves(t, t - {Key(h - 1, 0)})
  {
    var r := Key(h - 1, 0);
    var t' := t - {r};
    assert NodeOk(t, r, h, NO_KEY) && SlotOk(t, r, 0, -1);
    forall j {:trigger NodeOk(t', j, h - 1, NO_KEY)} | j in t' ensures NodeOk(t', j, h - 1, NO_KEY) {
      assert NodeOk(t, j, h, NO_KEY);
      if j.level == h - 2 {
        OnlyLeft(t, top, h, j);
      }
    }
    forall j, s {:trigger SlotOk(t', j, s, -1)} | j in t' && 0 <= s < IDR_SIZE ensures SlotOk(t', j, s, -1) {
      assert SlotOk(t, j, s, -1) && NodeOk(t, j, h, NO_KEY) && NodeOk(t', j, h - 1, NO_KEY);
    }
  }

  // The tree after the slot of the taken id `x` has been given another value (line 819).
  ghost function Rebind<V>(t: Shape<V>, x: int, v: Slot<V>): Shape<V>
    requires PathKey(x, 0) in t && Sized(t[PathKey(x, 0)].data)
  {
    var k := PathKey(x, 0);
    t[k := t[k].(data := t[k].data.(ary := t[k].data.ary[x % IDR_SIZE := v]))]
  }

  lemma RebindKeeps<V>(t: Shape<V>, top: Layer?<V>, h: int, x: int, v: Slot<V>)
    requires Tree(t, top, h) && LeafBit(t, x) && !v.Sub?
    ensures PathKey(x, 0) in t && Sized(t[PathKey(x, 0)].data)
    ensures Tree(Rebind(t, x, v), top, h)
  {
    var k := PathKey(x, 0);
    assert Shr(IDR_SIZE, x, 1) == x / IDR_SIZE;
    assert NodeOk(t, k, h, NO_KEY);
    var t' := Rebind(t, x, v);
    assert Occupied(t'[k].data) == Occupied(t[k].data);
    forall j {:trigger NodeOk(t', j, h, NO_KEY)} | j in t' ensures NodeOk(t', j, h, NO_KEY) {
      assert NodeOk(t, j, h, NO_KEY);
    }
    forall j, s {:trigger SlotOk(t', j, s, -1)} | j in t' && 0 <= s < IDR_SIZE ensures SlotOk(t', j, s, -1) {
      assert SlotOk(t, j, s, -1) && NodeOk(t, j, h, NO_KEY);
    }
  }

  lemma RebindDone<V>(t: Shape<V>, x: int, v: Slot<V>, hint: Layer?<V>)
    requires PathKey(x, 0) in t && Sized(t[PathKey(x, 0)].data) && LeafBit(t, x) && 0 <= x <= INT_MAX
    requires NilWhenClear(t) && HintIn(t, hint)
    ensures Bindings(Rebind(t, x, v)) == Bindings(t)[x := v]
    ensures NilWhenClear(Rebind(t, x, v)) && HintIn(Rebind(t, x, v), hint)
  {
    assert Shr(IDR_SIZE, x, 1) == x / IDR_SIZE;
    var t' := Rebind(t, x, v);
    forall y ensures LeafBit(t', y) == LeafBit(t, y) && LeafSlot(t', y) == if y == x then v else LeafSlot(t, y) {
    }
    if hint != null {
      var q {:trigger Key(0, q)} :| Key(0, q) in t && t[Key(0, q)].at == hint && t[Key(0, q)].data.count > 0;
      assert Key(0, q) in t' && t'[Key(0, q)].at == hint;
    }
  }

  // A step from level `l` of the way to `x`: to the layer below, to the leaf's slot, or
  // nowhere, and then nothing is known of `x`.
  lemma WayDown<V>(t: Shape<V>, top: Layer?<V>, h: int, lag: int, debt: Key, x: int, l: int, p: Layer?<V>)
    requires TreeX(t, top, h, lag, debt) && 0 <= l && At(t, x, l, p)
    ensures l < h && p != null && NodeOk(t, PathKey(x, l), h, debt) && Sized(t[PathKey(x, l)].data)
    ensures var v := t[PathKey(x, l)].data.ary[Shr(IDR_SIZE, x, l) % IDR_SIZE];
      && (l == 0 ==> v == LeafSlot(t, x) && PathKey(x, 0) == Key(0, x / IDR_SIZE))
      && (l > 0 && v == Nil ==>
          PathKey(x, l - 1) !in t && PathKey(x, 0) !in t && LeafSlot(t, x) == Nil && !LeafBit(t, x))
      && (l > 0 && v != Nil ==> v.Sub? && At(t, x, l - 1, v.node))
  {
    var s := Shr(IDR_SIZE, x, l) % IDR_SIZE;
    assert NodeOk(t, PathKey(x, l), h, debt) && SlotOk(t, PathKey(x, l), s, lag);
    assert Shr(IDR_SIZE, x, 1) == x / IDR_SIZE;
    if l > 0 && PathKey(x, 0) in t {
      PathUp(t, top, h, lag, debt, x, 0, l - 1);
    }
  }

  // An id too large for the tree has no leaf.
  lemma NoLeaf<V>(t: Shape<V>, top: Layer?<V>, h: int, lag: int, x: int)
    requires TreeX(t, top, h, lag, NO_KEY) && x >= 0 && (top == null || x > IdrMax(h))
    ensures PathKey(x, 0) == Key(0, x / IDR_SIZE) && PathKey(x, 0) !in t
  {
    assert Shr(IDR_SIZE, x, 1) == x / IDR_SIZE;
    if PathKey(x, 0) in t {
      if top == null {
        NoTree(t, lag);
      } else {
        PathUp(t, top, h, lag, NO_KEY, x, 0, h - 1);
        assert NodeOk(t, PathKey(x, h - 1), h, NO_KEY) && NodeOk(t, PathKey(x, 0), h, NO_KEY);
        ShrLess(IDR_SIZE, x, 1, h);
        ShlValues(x / IDR_SIZE);
      }
    }
  }

  lemma LeafSlotNone<V>(t: Shape<V>, x: int)
    requires Key(0, x / IDR_SIZE) !in t
    ensures LeafSlot(t, x) == Nil && !LeafBit(t, x)
  {
  }

  // The address of a slot: none, the handle's root pointer, or a slot of a layer.
  datatype SlotRef<V> = NoRef | TopRef | AryRef(node: Layer<V>, index: int)

  // On the stack of slot addresses is that of the layer at level `j` on the way to `x`.
  ghost predicate RefAt<V>(t: Shape<V>, h: int, x: int, j: int, refs: seq<SlotRef<V>>) {
    && 0 <= j && 0 <= h - j < |refs|
    && if j + 1 >= h then refs[h - j] == TopRef
       else PathKey(x, j + 1) in t && refs[h - j] == AryRef(t[PathKey(x, j + 1)].at, Shr(IDR_SIZE, x, j + 1) % IDR_SIZE)
  }

  // The stack holds the addresses on the way to `x`, from the root down to level `l`.
  ghost predicate Refs<V>(t: Shape<V>, h: int, x: int, l: int, refs: seq<SlotRef<V>>) {
    && 0 < |refs| && refs[0] == NoRef
    && forall j {:trigger RefAt(t, h, x, j, refs)} :: l <= j < h ==> RefAt(t, h, x, j, refs)
  }

  lemma GrownByBit<V>(t0: Shape<V>, t: Shape<V>, k: Key, s: int, b: bool)
    requires Grown(t0, t) && k in t && k.level != 0 && 0 <= s < |t[k].data.bitmap|
    ensures Grown(t0, PutBit(t, k, s, b))
  {
  }

  // Stacks speak of the places of layers, not of their contents.
  lemma RefsKept<V>(t: Shape<V>, t': Shape<V>, h: int, x: int, l: int, refs: seq<SlotRef<V>>)
    requires Refs(t, h, x, l, refs)
    requires forall j {:trigger PathKey(x, j)} :: l < j < h && 0 <= j && PathKey(x, j) in t ==>
        PathKey(x, j) in t' && t'[PathKey(x, j)].at == t[PathKey(x, j)].at
    ensures Refs(t', h, x, l, refs)
  {
    forall j {:trigger RefAt(t', h, x, j, refs)} | l <= j < h ensures RefAt(t', h, x, j, refs) {
      assert RefAt(t, h, x, j, refs);
    }
  }

  lemma RefsFewer<V>(t: Shape<V>, h: int, x: int, l: int, refs: seq<SlotRef<V>>)
    requires Refs(t, h, x, l, refs)
    ensures Refs(t, h, x, l + 1, refs)
  {
  }

  lemma RefsPush<V>(t: Shape<V>, h: int, x: int, l: int, refs: seq<SlotRef<V>>, refs': seq<SlotRef<V>>)
    requires Refs(t, h, x, l, refs) && 0 < l < h && PathKey(x, l) in t && h - l + 1 < |refs|
    requires refs' == refs[h - l + 1 := AryRef(t[PathKey(x, l)].at, Shr(IDR_SIZE, x, l) % IDR_SIZE)]
    ensures Refs(t, h, x, l - 1, refs')
  {
    forall j {:trigger RefAt(t, h, x, j, refs')} | l - 1 <= j < h ensures RefAt(t, h, x, j, refs') {
      if j >= l {
        assert RefAt(t, h, x, j, refs);
      }
    }
  }

  // Levels of the way to `x` that are not there have no bit to clear.
  lemma ClearMissing<V>(t: Shape<V>, top: Layer?<V>, h: int, debt: Key, x: int, l: int)
    requires TreeX(t, top, h, x, debt) && 0 <= l < h && ClearAbove(t, h, x, l + 1) && PathKey(x, l) !in t
    ensures ClearAbove(t, h, x, 0) && PathKey(x, 0) !in t
  {
    forall j {:trigger PathKey(x, j)} | 0 <= j < h && PathKey(x, j) in t
      ensures |t[PathKey(x, j)].data.bitmap| == IDR_SIZE
        && !t[PathKey(x, j)].data.bitmap[Shr(IDR_SIZE, x, j) % IDR_SIZE]
    {
      if j <= l {
        PathUp(t, top, h, x, debt, x, j, l);
      }
    }
    if PathKey(x, 0) in t {
      PathUp(t, top, h, x, debt, x, 0, l);
    }
  }

  // A root on the way to `x` is the root of the tree.
  lemma RootOfPath<V>(t: Shape<V>, top: Layer?<V>, h: int, lag: int, debt: Key, x: int)
    requires TreeX(t, top, h, lag, debt) && 0 < h && PathKey(x, h - 1) in t
    ensures PathKey(x, h - 1) == Key(h - 1, 0) && t[PathKey(x, h - 1)].at == top
  {
    assert NodeOk(t, PathKey(x, h - 1), h, debt);
  }

  // The slot a stack entry addresses holds the layer it stands for.
  lemma RefHolds<V>(t: Shape<V>, top: Layer?<V>, h: int, lag: int, debt: Key, x: int, j: int)
    requires TreeX(t, top, h, lag, debt) && 0 <= j && j + 1 < h && PathKey(x, j) in t
    ensures PathKey(x, j + 1) in t && ParentKey(PathKey(x, j)) == PathKey(x, j + 1) && Sized(t[PathKey(x, j + 1)].data)
    ensures PathKey(x, j).pos % IDR_SIZE == Shr(IDR_SIZE, x, j + 1) % IDR_SIZE
    ensures t[PathKey(x, j + 1)].data.ary[Shr(IDR_SIZE, x, j + 1) % IDR_SIZE] == Sub(t[PathKey(x, j)].at)
  {
    var s := Shr(IDR_SIZE, x, j + 1) % IDR_SIZE;
    PathUp(t, top, h, lag, debt, x, j, j + 1);
    assert NodeOk(t, PathKey(x, j), h, debt) && SlotOk(t, PathKey(x, j + 1), s, lag);
    assert ChildKey(PathKey(x, j + 1), s) == PathKey(x, j);
  }

  lemma HintCut<V>(t: Shape<V>, t': Shape<V>, hint: Layer?<V>, k: Key)
    requires HintIn(t, hint) && k in t
    requires forall j {:trigger t[j]} {:trigger t'[j]} :: j in t && j.level == 0 && j != k ==> j in t' && t'[j] == t[j]
    requires k.level == 0 && k in t' ==> t'[k].at == t[k].at && t'[k].data.count > 0
    ensures HintIn(t', hint) || hint == t[k].at
  {
    if hint != null {
      var q {:trigger Key(0, q)} :| Key(0, q) in t && t[Key(0, q)].at == hint && t[Key(0, q)].data.count > 0;
      if Key(0, q) != k {
        assert t'[Key(0, q)] == t[Key(0, q)];
      } else {
        assert Key(0, q) in t' || hint == t[k].at;
      }
    }
  }

  // The leaves' view after id `x` has been given up.
  ghost predicate GivenUp<V>(t: Shape<V>, t': Shape<V>, x: int) {
    && (forall y :: LeafBit(t', y) <==> y != x && LeafBit(t, y))
    && (forall y :: LeafSlot(t', y) == if y == x && LeafBit(t, x) then Nil else LeafSlot(t, y))
  }

  lemma GivenUpBy<V>(t: Shape<V>, t1: Shape<V>, t2: Shape<V>, x: int)
    requires SameLeaves(t, t1) && LeafBit(t1, x)
    requires PathKey(x, 0) in t1 && Sized(t1[PathKey(x, 0)].data) && SameLeaves(EmptySlot(t1, x), t2)
    ensures GivenUp(t, t2, x)
  {
    forall y ensures LeafBit(t2, y) == (y != x && LeafBit(t, y))
      && LeafSlot(t2, y) == if y == x then Nil else LeafSlot(t, y) {
      EmptySlotViews(t1, x, y);
    }
  }

  lemma GivenUpNot<V>(t: Shape<V>, t1: Shape<V>, x: int)
    requires SameLeaves(t, t1) && !LeafBit(t1, x)
    ensures GivenUp(t, t1, x)
  {
  }

  lemma GivenUpOn<V>(t: Shape<V>, t1: Shape<V>, t2: Shape<V>, x: int)
    requires GivenUp(t, t1, x) && SameLeaves(t1, t2)
    ensures GivenUp(t, t2, x)
  {
  }

  lemma GivenUpBindings<V>(t: Shape<V>, t': Shape<V>, x: int)
    requires GivenUp(t, t', x) && NilWhenClear(t)
    ensures Bindings(t') == Bindings(t) - {x} && NilWhenClear(t')
  {
  }

  lemma HintGrown<V>(t: Shape<V>, t': Shape<V>, hint: Layer?<V>)
    requires HintIn(t, hint) && Extends(t, t')
    ensures HintIn(t', hint)
  {
    if hint != null {
      var q {:trigger Key(0, q)} :| Key(0, q) in t && t[Key(0, q)].at == hint && t[Key(0, q)].data.count > 0;
      assert Key(0, q) in t' && t'[Key(0, q)] == t[Key(0, q)];
    }
  }

  // Emptying a slot leaves the cached leaf a leaf in use, its count still to follow.
  lemma HintEmptied<V>(t: Shape<V>, x: int, hint: Layer?<V>)
    requires HintIn(t, hint) && PathKey(x, 0) in t && Sized(t[PathKey(x, 0)].data)
    ensures HintIn(EmptySlot(t, x), hint)
  {
    if hint != null {
      var q {:trigger Key(0, q)} :| Key(0, q) in t && t[Key(0, q)].at == hint && t[Key(0, q)].data.count > 0;
      assert Key(0, q) in EmptySlot(t, x) && EmptySlot(t, x)[Key(0, q)].at == hint;
    }
  }

  // A tree without missing bits is one where bits may be missing.
  lemma LagMore<V>(t: Shape<V>, top: Layer?<V>, h: int, x: int)
    requires Tree(t, top, h)
    ensures TreeX(t, top, h, x, NO_KEY)
  {
    forall j, s {:trigger SlotOk(t, j, s, x)} | j in t && 0 <= s < IDR_SIZE ensures SlotOk(t, j, s, x) {
      assert SlotOk(t, j, s, -1) && NodeOk(t, j, h, NO_KEY);
      if j.level > 0 && ChildKey(j, s) in t {
        OffPathMinus(ChildKey(j, s));
      }
    }
  }

  // What the slot on the way to `x` above level `l` holds: a layer, or at the end a value.
  ghost function Content<V>(t: Shape<V>, x: int, l: nat): Slot<V> {
    if l == 0 then LeafSlot(t, x)
    else if PathKey(x, l - 1) in t then Sub(t[PathKey(x, l - 1)].at)
    else Nil
  }

  lemma ContentDown<V>(t: Shape<V>, top: Layer?<V>, h: int, x: int, l: nat)
    requires Tree(t, top, h) && l > 0 && Content(t, x, l) != Nil
    ensures PathKey(x, l - 1) in t && Content(t, x, l) == Sub(t[PathKey(x, l - 1)].at) && l <= h
    ensures Sized(t[PathKey(x, l - 1)].data)
    ensures t[PathKey(x, l - 1)].data.ary[Shr(IDR_SIZE, x, l - 1) % IDR_SIZE] == Content(t, x, l - 1)
  {
    assert At(t, x, l - 1, t[PathKey(x, l - 1)].at);
    WayDown(t, top, h, -1, NO_KEY, x, l - 1, t[PathKey(x, l - 1)].at);
  }

  // At the top the way starts with the root.
  lemma ContentTop<V>(t: Shape<V>, top: Layer?<V>, h: int, x: int)
    requires Tree(t, top, h) && 0 <= x && (h > 0 ==> x <= IdrMax(h))
    ensures Content(t, x, h) == if top == null then Nil else Sub(top)
  {
    if top == null {
      NoTree(t, -1);
    } else {
      RootOnPath(x, h);
    }
  }

  lemma ContentSame<V>(t: Shape<V>, x: int, y: int, l: nat, m: nat)
    requires Shr(IDR_SIZE, x, l) == Shr(IDR_SIZE, y, l) && l <= m
    ensures l == 0 ==> x == y
    ensures Content(t, x, m) == Content(t, y, m)
  {
    ShrAgree(IDR_SIZE, x, y, l, m);
  }

  // Below an empty slot there is nothing.
  lemma ContentNil<V>(t: Shape<V>, top: Layer?<V>, h: int, x: int, l: nat, y: int)
    requires Tree(t, top, h) && l <= h && Content(t, x, l) == Nil && Shr(IDR_SIZE, x, l) == Shr(IDR_SIZE, y, l)
    ensures LeafSlot(t, y) == Nil
  {
    ContentSame(t, x, y, l, l);
    LeafBitAt(t, y);
    if l > 0 && PathKey(y, 0) in t {
      PathUp(t, top, h, -1, NO_KEY, y, 0, l - 1);
    }
  }

  ghost predicate StackAt<V>(t: Shape<V>, h: int, x: int, m: nat, pa: seq<Slot<V>>) {
    0 <= h - m < |pa| && pa[h - m] == Content(t, x, m)
  }

  // The stack of ancestors is in step with the id `x` from level `l` up.
  ghost predicate InStep<V>(t: Shape<V>, h: int, x: int, l: int, pa: seq<Slot<V>>) {
    forall m: nat {:trigger Content(t, x, m)} {:trigger StackAt(t, h, x, m, pa)} :: l <= m <= h ==>
        StackAt(t, h, x, m, pa)
  }

  // Ids under one slot are consecutive.
  lemma NextUp(x: int, l: nat, y: int)
    requires x <= y < Shl(IDR_SIZE, Shr(IDR_SIZE, x, l) + 1, l)
    ensures Shr(IDR_SIZE, y, l) == Shr(IDR_SIZE, x, l)
  {
    ShrMonotone(IDR_SIZE, x, y, l);
    ShrLess(IDR_SIZE, y, Shr(IDR_SIZE, x, l) + 1, l);
  }

  // Climbing as far as the highest bit of the new id keeps the stack in step, although only
  // the digits up to the carry have changed.
  lemma InStepClimb<V>(t: Shape<V>, h: int, x: int, y: int, l: int, m: int, pa: seq<Slot<V>>)
    requires InStep(t, h, x, l, pa) && 0 <= l <= m && 0 <= x <= y < Shl(IDR_SIZE, 1, m)
    ensures InStep(t, h, y, m, pa)
  {
    ShrLess(IDR_SIZE, x, 1, m);
    ShrLess(IDR_SIZE, y, 1, m);
    ShrNonNegative(IDR_SIZE, x, m);
    ShrNonNegative(IDR_SIZE, y, m);
    forall n: nat | m <= n <= h ensures StackAt(t, h, y, n, pa) {
      ContentSame(t, x, y, m, n);
    }
  }

  lemma InStepPush<V>(t: Shape<V>, h: int, x: int, l: int, pa: seq<Slot<V>>, pa': seq<Slot<V>>)
    requires InStep(t, h, x, l + 1, pa) && 0 <= l < h && h - l < |pa| && pa' == pa[h - l := Content(t, x, l)]
    ensures InStep(t, h, x, l, pa')
  {
    forall m: nat | l <= m <= h ensures StackAt(t, h, x, m, pa') {
      assert m > l ==> StackAt(t, h, x, m, pa);
    }
  }

  lemma InStepStart<V>(t: Shape<V>, top: Layer?<V>, h: int, x: int, pa: seq<Slot<V>>)
    requires Tree(t, top, h) && 0 <= x && (h > 0 ==> x <= IdrMax(h))
    requires pa != [] && pa[0] == if top == null then Nil else Sub(top)
    ensures InStep(t, h, x, h, pa)
  {
    ContentTop(t, top, h, x);
  }

  lemma NothingAbove<V>(t: Shape<V>, top: Layer?<V>, h: int, from: int)
    requires Tree(t, top, h) && from >= 0 && (top == null || from > IdrMax(h))
    ensures forall x :: from <= x ==> LeafSlot(t, x) == Nil
  {
    forall x | from <= x ensures LeafSlot(t, x) == Nil {
      NoLeaf(t, top, h, -1, x);
      LeafSlotNone(t, x);
    }
  }

  // Leaving an empty slot behind: the id moves to the next position, past no bound pointer.
  lemma GoneBy<V>(t: Shape<V>, top: Layer?<V>, h: int, x: int, l: nat, y: int)
    requires Tree(t, top, h) && l <= h && 0 <= x && (h > 0 ==> x <= IdrMax(h)) && Content(t, x, l) == Nil
    requires y == Shl(IDR_SIZE, Shr(IDR_SIZE, x, l) + 1, l)
    ensures x < y && (top != null ==> y <= INT_MAX + 1)
    ensures forall z :: x <= z < y ==> LeafSlot(t, z) == Nil
  {
    ShrLess(IDR_SIZE, x, Shr(IDR_SIZE, x, l) + 1, l);
    forall z | x <= z < y ensures LeafSlot(t, z) == Nil {
      NextUp(x, l, z);
      ContentNil(t, top, h, x, l, z);
    }
    if top != null {
      ContentTop(t, top, h, x);
      assert l < h;
      ShlValues(128);
      RoundUpBelow(IDR_SIZE, x, 128, l, 3);
    }
  }

  // The climb stops at the root for every id within the tree.
  lemma ClimbBelow(h: int, x: int, l: nat)
    requires 0 <= h <= MAX_IDR_LEVEL && 0 <= x <= IdrMax(h) && 0 < l <= MAX_IDR_LEVEL && x >= Shl(IDR_SIZE, 1, l - 1)
    ensures l <= h
  {
    if h < l - 1 {
      ShlGrowsIn(h, l - 1);
    }
  }

  lemma {:induction false} ShlGrowsIn(l: nat, m: nat)
    requires l <= m
    ensures 1 <= Shl(IDR_SIZE, 1, l) <= Shl(IDR_SIZE, 1, m)
    decreases m
  {
    if l < m {
      ShlGrowsIn(l, m - 1);
    } else if l > 0 {
      ShlGrowsIn(l - 1, m - 1);
    }
  }

  ghost predicate Aligned(x: int, l: nat) {
    x == Shl(IDR_SIZE, Shr(IDR_SIZE, x, l), l)
  }

  // Wherever the way to `x` ends early, `x` is the first id of that place.
  ghost predicate NilAligned<V>(t: Shape<V>, h: int, x: int) {
    forall m {:trigger Content(t, x, m)} :: 0 <= m <= h && Content(t, x, m) == Nil ==> Aligned(x, m)
  }

  lemma {:induction false} ShlSum(c: int, l: nat)
    ensures Shl(IDR_SIZE, c + 1, l) == Shl(IDR_SIZE, c, l) + Shl(IDR_SIZE, 1, l)
  {
    if l > 0 {
      ShlSum(c, l - 1);
    }
  }

  // Adding `1 << n` to an id that is aligned where it stopped moves on to an id for which
  // the same holds.
  lemma AlignNext<V>(t: Shape<V>, top: Layer?<V>, h: int, x: int, l: nat, y: int)
    requires Tree(t, top, h) && l < h && 0 <= x && Aligned(x, l) && Content(t, x, l + 1) != Nil
    requires y == Shl(IDR_SIZE, Shr(IDR_SIZE, x, l) + 1, l)
    ensures y == x + Shl(IDR_SIZE, 1, l) && NilAligned(t, h, y)
    ensures forall m {:trigger Content(t, x, m)} :: l < m <= h ==> Content(t, x, m) != Nil
  {
    var q := Shr(IDR_SIZE, x, l) + 1;
    ShlSum(q - 1, l);
    forall m {:trigger Content(t, x, m)} | l < m <= h ensures Content(t, x, m) != Nil {
      PathUp(t, top, h, -1, NO_KEY, x, l, m - 1);
    }
    forall m {:trigger Content(t, y, m)} | 0 <= m <= h && Content(t, y, m) == Nil ensures Aligned(y, m) {
      if m <= l {
        ShlShl(IDR_SIZE, q, l - m, m);
        ShrShl(IDR_SIZE, Shl(IDR_SIZE, q, l - m), m);
      } else {
        var c := Shr(IDR_SIZE, y, m);
        ShrLess(IDR_SIZE, x, q, l);
        ShrMonotone(IDR_SIZE, x, y, m);
        if Shr(IDR_SIZE, x, m) == c {
          ContentSame(t, x, y, m, m);
        }
        ShrLess(IDR_SIZE, x, c, m);
        ShrLess(IDR_SIZE, y, c, m);
        RoundUpBelow(IDR_SIZE, x, c, l, m);
      }
    }
  }

  lemma NilAlignedZero<V>(t: Shape<V>, h: int)
    ensures NilAligned(t, h, 0)
  {
    forall m | 0 <= m <= h ensures Aligned(0, m) {
      ShrNonNegative(IDR_SIZE, 0, m);
      ShlZero(m);
    }
  }

  lemma ContentClimbed<V>(t: Shape<V>, x: int, y: int, m: nat)
    requires 0 <= x <= y < Shl(IDR_SIZE, 1, m)
    ensures Content(t, y, m) == Content(t, x, m)
  {
    ShrLess(IDR_SIZE, x, 1, m);
    ShrLess(IDR_SIZE, y, 1, m);
    ShrNonNegative(IDR_SIZE, x, m);
    ShrNonNegative(IDR_SIZE, y, m);
    ContentSame(t, x, y, m, m);
  }

  // The ids below layer `k` all come before `x`.
  ghost predicate Past(k: Key, x: int) {
    k.level >= 0 && Shl(IDR_SIZE, k.pos + 1, k.level + 1) <= x
  }

  // Wherever the way to `x` ends early, and at the leaves, `x` is the first id of its place.
  ghost predicate LeafAligned<V>(t: Shape<V>, h: int, x: int) {
    forall m {:trigger Content(t, x, m)} :: 1 <= m <= h && (Content(t, x, m) == Nil || m == 1) ==> Aligned(x, m)
  }

  lemma LeafAlignNext<V>(t: Shape<V>, top: Layer?<V>, h: int, x: int, l: nat, y: int)
    requires Tree(t, top, h) && 1 <= l <= h && 0 <= x && Aligned(x, l)
    requires l < h ==> Content(t, x, l + 1) != Nil
    requires y == Shl(IDR_SIZE, Shr(IDR_SIZE, x, l) + 1, l)
    ensures y == x + Shl(IDR_SIZE, 1, l) && LeafAligned(t, if l < h then h else 0, y)
  {
    var q := Shr(IDR_SIZE, x, l) + 1;
    ShlSum(q - 1, l);
    if l < h {
      AlignNext(t, top, h, x, l, y);
      ShlShl(IDR_SIZE, q, l - 1, 1);
      ShrShl(IDR_SIZE, Shl(IDR_SIZE, q, l - 1), 1);
    }
  }

  // Of the layers not yet past at `x`, those on the way to `x` whose position changes between
  // `x` and `y`, and no others, are past at `y`.
  lemma PastNext<V>(t: Shape<V>, top: Layer?<V>, h: int, x: int, l: nat, y: int, k: Key)
    requires Tree(t, top, h) && 1 <= l <= h && 0 <= x && Aligned(x, l) && k in t
    requires Content(t, x, l) == Nil || l == 1
    requires y == Shl(IDR_SIZE, Shr(IDR_SIZE, x, l) + 1, l)
    ensures k.level >= 0
    ensures Past(k, y) && !Past(k, x) <==>
      (l <= k.level + 1 && k == PathKey(x, k.level) && Shr(IDR_SIZE, y, k.level + 1) != Shr(IDR_SIZE, x, k.level + 1))
  {
    var m := k.level + 1;
    assert NodeOk(t, k, h, NO_KEY);
    var q := Shr(IDR_SIZE, x, l);
    ShrLess(IDR_SIZE, x, q + 1, l);
    ShrLess(IDR_SIZE, x, k.pos + 1, m);
    ShrLess(IDR_SIZE, y, k.pos + 1, m);
    if m < l {
      PastInside(t, top, h, x, l, k);
    } else {
      ShrMonotone(IDR_SIZE, x, y, m);
      RoundUpBelow(IDR_SIZE, x, Shr(IDR_SIZE, x, m) + 1, l, m) by {
        ShrLess(IDR_SIZE, x, Shr(IDR_SIZE, x, m) + 1, m);
      }
      ShrLess(IDR_SIZE, y, Shr(IDR_SIZE, x, m) + 2, m);
      ShlGrows(IDR_SIZE, Shr(IDR_SIZE, x, m) + 1, Shr(IDR_SIZE, x, m) + 2, m);
    }
  }

  // A layer does not end inside an empty place at x.
  lemma PastInside<V>(t: Shape<V>, top: Layer?<V>, h: int, x: int, l: nat, k: Key)
    requires Tree(t, top, h) && k in t && 1 <= l <= h && k.level >= 0 && k.level + 1 < l && 0 <= x && Aligned(x, l)
    requires Content(t, x, l) == Nil || l == 1
    ensures x < Shl(IDR_SIZE, k.pos + 1, k.level + 1) ==>
              Shl(IDR_SIZE, Shr(IDR_SIZE, x, l) + 1, l) < Shl(IDR_SIZE, k.pos + 1, k.level + 1)
  {
    var m := k.level + 1;
    var z := Shl(IDR_SIZE, k.pos, m);
    var q := Shr(IDR_SIZE, x, l);
    assert NodeOk(t, k, h, NO_KEY);
    ShrShl(IDR_SIZE, k.pos, m);
    ShlGrows(IDR_SIZE, k.pos, k.pos + 1, m);
    ShlShl(IDR_SIZE, q, l - m, m);
    if x < Shl(IDR_SIZE, k.pos + 1, m) <= Shl(IDR_SIZE, q + 1, l) {
      // the first id below the layer lies in the place of x
      if z < x {
        ShrLess(IDR_SIZE, z, Shl(IDR_SIZE, q, l - m), m);
        RoundUpBelow(IDR_SIZE, z, Shl(IDR_SIZE, q, l - m), m, m);
      }
      NextUp(x, l, z);
      ContentSame(t, x, z, l, l);
      PathUp(t, top, h, -1, NO_KEY, z, k.level, l - 1);
    }
  }

  // `order` lists the layers past at `x`, each once, and no layer before one of its children.
  ghost predicate FreedTo<V>(t: Shape<V>, order: seq<Key>, x: int) {
    && (forall k :: k in order <==> k in t && Past(k, x))
    && ChildrenFirst(order)
  }

  ghost predicate ChildrenFirst(order: seq<Key>) {
    && (forall i, j :: 0 <= i < j < |order| ==> order[i] != order[j])
    && (forall i, j :: 0 <= i < j < |order| ==> order[i] != ParentKey(order[j]))
  }

  // Half way through a climb from `x`: the layers on the way below level `m` have gone too.
  ghost predicate FreedMid<V>(t: Shape<V>, order: seq<Key>, x: int, l: int, m: int) {
    && (forall k :: k in order <==>
        k in t && (Past(k, x) || (l <= k.level + 1 < m && 0 <= k.level && k == PathKey(x, k.level))))
    && ChildrenFirst(order)
  }

  // A layer on the way to `x` is not past at `x`: what the walk reads has not been freed.
  lemma OnWayNotPast(x: int, j: nat)
    ensures !Past(PathKey(x, j), x)
  {
    ShrLess(IDR_SIZE, x, Shr(IDR_SIZE, x, j + 1) + 1, j + 1);
  }

  lemma ReadsLive<V>(t: Shape<V>, order: seq<Key>, x: int, j: nat)
    requires FreedTo(t, order, x)
    ensures PathKey(x, j) !in order
  {
    OnWayNotPast(x, j);
  }

  lemma FreeNext<V>(t: Shape<V>, order: seq<Key>, x: int, l: int, m: int)
    requires FreedMid(t, order, x, l, m) && 1 <= l <= m
    ensures PathKey(x, m - 1) !in order
    ensures FreedMid(t, if PathKey(x, m - 1) in t then order + [PathKey(x, m - 1)] else order, x, l, m + 1)
  {
    var k := PathKey(x, m - 1);
    OnWayNotPast(x, m - 1);
    OnWayNotPast(x, m);
    assert ParentKey(k) == PathKey(x, m);
    forall i | 0 <= i < |order| ensures order[i] != k && order[i] != ParentKey(k) {
      assert order[i] in order;
    }
  }

  // What is past at the next place is what was past before or has been left on the way up.
  lemma PastOrLeft<V>(t: Shape<V>, top: Layer?<V>, h: int, x: int, l: nat, y: int, m: int, k: Key)
    requires Tree(t, top, h) && 1 <= l <= h && 0 <= x && Aligned(x, l) && l <= m && k in t
    requires Content(t, x, l) == Nil || l == 1
    requires y == Shl(IDR_SIZE, Shr(IDR_SIZE, x, l) + 1, l) && x <= y
    requires Shr(IDR_SIZE, x, m) == Shr(IDR_SIZE, y, m)
    requires forall n :: l <= n < m ==> Shr(IDR_SIZE, x, n) != Shr(IDR_SIZE, y, n)
    ensures k.level >= 0 && (Past(k, x) ==> Past(k, y))
    ensures Past(k, y) <==> Past(k, x) || (l <= k.level + 1 < m && k == PathKey(x, k.level))
  {
    hide TreeX, Past, Content, Aligned;
    PastNext(t, top, h, x, l, y, k);
    if k.level + 1 >= m {
      ShrAgree(IDR_SIZE, x, y, m, k.level + 1);
    }
    PastMore(k, x, y);
  }

  lemma PastMore(k: Key, x: int, y: int)
    requires x <= y
    ensures Past(k, x) ==> Past(k, y)
  {
  }

  lemma FreedNext<V>(t: Shape<V>, top: Layer?<V>, h: int, x: int, l: nat, y: int, m: int, order: seq<Key>)
    requires Tree(t, top, h) && 1 <= l <= h && 0 <= x && Aligned(x, l) && l <= m
    requires Content(t, x, l) == Nil || l == 1
    requires y == Shl(IDR_SIZE, Shr(IDR_SIZE, x, l) + 1, l) && x <= y
    requires FreedMid(t, order, x, l, m) && Shr(IDR_SIZE, x, m) == Shr(IDR_SIZE, y, m)
    requires forall n :: l <= n < m ==> Shr(IDR_SIZE, x, n) != Shr(IDR_SIZE, y, n)
    ensures FreedTo(t, order, y)
  {
    hide TreeX, Past, Content, Aligned, ChildrenFirst;
    forall k | k in t
      ensures k.level >= 0 && (Past(k, y) <==> Past(k, x) || (l <= k.level + 1 < m && k == PathKey(x, k.level)))
    {
      PastOrLeft(t, top, h, x, l, y, m, k);
    }
  }

  // The cached leaf is a layer yet to be freed.
  ghost predicate HintLive<V>(t: Shape<V>, order: seq<Key>, hint: Layer?<V>) {
    hint != null ==> exists q {:trigger Key(0, q)} :: Key(0, q) in t && t[Key(0, q)].at == hint && Key(0, q) !in order
  }

  lemma HintFreed<V>(t: Shape<V>, order: seq<Key>, hint: Layer?<V>, k: Key)
    requires HintLive(t, order, hint) && k in t
    ensures HintLive(t, order + [k], if hint == t[k].at then null else hint)
  {
    if hint != null && hint != t[k].at {
      var q {:trigger Key(0, q)} :| Key(0, q) in t && t[Key(0, q)].at == hint && Key(0, q) !in order;
      assert Key(0, q) !in order + [k];
    }
  }

  // The layers passed to free_layer since `before`, in order.
  ghost predicate Logged<V>(t: Shape<V>, order: seq<Key>, before: seq<Layer<V>>, freed: seq<Layer<V>>) {
    && |freed| == |before| + |order| && before <= freed
    && forall i :: 0 <= i < |order| ==> order[i] in t && freed[|before| + i] == t[order[i]].at
  }

  lemma FreeStart<V>(t: Shape<V>, order: seq<Key>, x: int, l: int)
    requires FreedTo(t, order, x)
    ensures FreedMid(t, order, x, l, l)
  {
  }

  // Within one place every id has the same digits above, and the next id too unless the
  // place is the last one.
  lemma StopsAtRoot(h: int, x: int, l: int, y: int)
    requires 1 <= l <= h <= MAX_IDR_LEVEL && 0 <= x <= IdrMax(h) && Aligned(x, l)
    requires x <= y <= IdrMax(h)
    ensures Shr(IDR_SIZE, x, h) == Shr(IDR_SIZE, y, h)
  {
    RootOnPath(x, h);
    RootOnPath(y, h);
  }

  // Above the root no digit changes.
  lemma StopsAbove(h: int, x: int, l: int, y: int, m: int)
    requires 1 <= l <= h <= MAX_IDR_LEVEL && 0 <= x <= IdrMax(h) && Aligned(x, l)
    requires y == x + Shl(IDR_SIZE, 1, l) <= INT_MAX + 1 && 0 <= m <= h + 1
    ensures Shr(IDR_SIZE, x, m) != Shr(IDR_SIZE, y, m) ==> m <= h
  {
    ShlGrowsIn(0, l);
    ShrNonNegative(IDR_SIZE, x, h + 1);
    ShrNonNegative(IDR_SIZE, y, h + 1);
    ShlStep(IDR_SIZE, 1, h + 1);
    BelowNext(h, x, l, y);
    ShrLess(IDR_SIZE, x, 1, h + 1);
    ShrLess(IDR_SIZE, y, 1, h + 1);
  }

  lemma BelowNext(h: int, x: int, l: int, y: int)
    requires 1 <= l <= h <= MAX_IDR_LEVEL && 0 <= x <= IdrMax(h) && Aligned(x, l)
    requires y == x + Shl(IDR_SIZE, 1, l) <= INT_MAX + 1
    ensures x < y < Shl(IDR_SIZE, 1, h + 1)
  {
    ShlGrowsIn(0, l);
    ShlSum(Shr(IDR_SIZE, x, l), l);
    ShlValues(1);
    assert Shl(256, 1, 5) == Shl(256, 1, 4) * 256;
    if h < MAX_IDR_LEVEL {
      RoundUpBelow(IDR_SIZE, x, 1, l, h);
      assert h == 1 || h == 2 || h == 3;
    }
  }

  lemma StackTop<V>(t: Shape<V>, h: int, x: int, l: int, m: int, pa: seq<Slot<V>>)
    requires InStep(t, h, x, l, pa) && 1 <= l <= m <= h
    ensures h - m < |pa| && pa[h - m] == if PathKey(x, m - 1) in t then Sub(t[PathKey(x, m - 1)].at) else Nil
  {
    assert Content(t, x, m) == Content(t, x, m);
  }

  // The same layers in the same places.
  ghost predicate SameLayers<V>(t: Shape<V>, t': Shape<V>) {
    t.Keys == t'.Keys && forall k :: k in t ==> t'[k].at == t[k].at
  }

  // `t'` has the layers of `t` but for the layer `k`.
  ghost predicate Less<V>(t: Shape<V>, t': Shape<V>, k: Key) {
    k in t && t'.Keys == t.Keys - {k} && forall n :: n in t' ==> t'[n].at == t[n].at
  }

  // The layers `gone`, each once, and no others have left the tree `t` when it has become `t'`.
  ghost predicate Gone<V>(t: Shape<V>, t': Shape<V>, gone: seq<Key>) {
    && (forall i, j :: 0 <= i < j < |gone| ==> gone[i] != gone[j])
    && (forall k :: k in gone <==> k in t && k !in t')
    && (forall k :: k in t' ==> k in t && t'[k].at == t[k].at)
  }

  lemma GoneNone<V>(t: Shape<V>, t': Shape<V>)
    requires SameLayers(t, t')
    ensures Gone(t, t', [])
  {
    assert forall k :: k in t <==> k in t.Keys;
    assert forall k :: k in t' <==> k in t'.Keys;
  }

  lemma GoneSame<V>(t: Shape<V>, t': Shape<V>, t'': Shape<V>, gone: seq<Key>)
    requires Gone(t, t', gone) && SameLayers(t', t'')
    ensures Gone(t, t'', gone)
  {
    assert forall k :: k in t' <==> k in t'.Keys;
    assert forall k :: k in t'' <==> k in t''.Keys;
  }

  lemma GoneOne<V>(t: Shape<V>, t': Shape<V>, t'': Shape<V>, gone: seq<Key>, k: Key)
    requires Gone(t, t', gone) && Less(t', t'', k)
    ensures Gone(t, t'', gone + [k]) && k in t && t[k].at == t'[k].at
  {
    assert forall n :: n in t' <==> n in t'.Keys;
    assert forall n :: n in t'' <==> n in t''.Keys;
    forall i | 0 <= i < |gone| ensures gone[i] != k {
      assert gone[i] in gone;
    }
  }

  // What has left a tree with the same layers.
  lemma GoneFrom<V>(t0: Shape<V>, t: Shape<V>, t': Shape<V>, gone: seq<Key>, f0: seq<Layer<V>>, f: seq<Layer<V>>)
    requires SameLayers(t0, t) && Gone(t, t', gone) && Logged(t, gone, f0, f)
    ensures Gone(t0, t', gone) && Logged(t0, gone, f0, f)
  {
    assert forall k :: k in t0 <==> k in t0.Keys;
    assert forall k :: k in t <==> k in t.Keys;
  }

  lemma LoggedOne<V>(t: Shape<V>, order: seq<Key>, f0: seq<Layer<V>>, f: seq<Layer<V>>, k: Key)
    requires Logged(t, order, f0, f) && k in t
    ensures Logged(t, order + [k], f0, f + [t[k].at])
  {
  }

  // What a walk that frees a tree does with its layers.
  datatype Touch = Read(k: Key) | Free(k: Key)

  ghost function Frees(trace: seq<Touch>): seq<Key> {
    if trace == [] then []
    else
      var n := |trace| - 1;
      Frees(trace[..n]) + if trace[n].Free? then [trace[n].k] else []
  }

  // No layer is read after it has been freed.
  ghost predicate NoLateRead(trace: seq<Touch>) {
    forall i, j :: 0 <= i < j < |trace| && trace[i].Free? ==> trace[j] != Read(trace[i].k)
  }

  ghost function Reading(keys: seq<Key>): (r: seq<Touch>)
    ensures |r| == |keys| && forall i :: 0 <= i < |keys| ==> r[i] == Read(keys[i])
  {
    seq(|keys|, i requires 0 <= i < |keys| => Read(keys[i]))
  }

  ghost function Freeing(keys: seq<Key>): (r: seq<Touch>)
    ensures |r| == |keys| && forall i :: 0 <= i < |keys| ==> r[i] == Free(keys[i])
  {
    seq(|keys|, i requires 0 <= i < |keys| => Free(keys[i]))
  }

  lemma TraceNone()
    ensures Frees([]) == [] && NoLateRead([])
  {
  }

  lemma {:induction false} FreesAll(trace: seq<Touch>, i: nat)
    requires i < |trace| && trace[i].Free?
    ensures trace[i].k in Frees(trace)
  {
    var n := |trace| - 1;
    if i < n {
      FreesAll(trace[..n], i);
    }
  }

  lemma {:induction false} FreesReading(trace: seq<Touch>, keys: seq<Key>)
    ensures Frees(trace + Reading(keys)) == Frees(trace)
  {
    if keys == [] {
      assert trace + Reading(keys) == trace;
    } else {
      var n := |keys| - 1;
      FreesReading(trace, keys[..n]);
      assert (trace + Reading(keys))[..|trace| + n] == trace + Reading(keys[..n]);
    }
  }

  lemma {:induction false} FreesFreeing(trace: seq<Touch>, keys: seq<Key>)
    ensures Frees(trace + Freeing(keys)) == Frees(trace) + keys
  {
    if keys == [] {
      assert trace + Freeing(keys) == trace;
    } else {
      var n := |keys| - 1;
      FreesFreeing(trace, keys[..n]);
      assert (trace + Freeing(keys))[..|trace| + n] == trace + Freeing(keys[..n]);
      assert keys[..n] + [keys[n]] == keys;
    }
  }

  lemma ReadingInTime(trace: seq<Touch>, keys: seq<Key>)
    requires NoLateRead(trace) && forall k :: k in keys ==> k !in Frees(trace)
    ensures NoLateRead(trace + Reading(keys))
  {
    var all := trace + Reading(keys);
    forall i, j | 0 <= i < j < |all| && all[i].Free? ensures all[j] != Read(all[i].k) {
      assert i < |trace|;
      FreesAll(trace, i);
      if j >= |trace| {
        assert all[j] == Read(keys[j - |trace|]);
      }
    }
  }

  lemma FreeingInTime(trace: seq<Touch>, keys: seq<Key>)
    requires NoLateRead(trace)
    ensures NoLateRead(trace + Freeing(keys))
  {
    var all := trace + Freeing(keys);
    forall i, j | 0 <= i < j < |all| && all[i].Free? ensures all[j] != Read(all[i].k) {
      if j >= |trace| {
        assert all[j] == Free(keys[j - |trace|]);
      } else {
        assert all[j] == trace[j] && all[i] == trace[i];
      }
    }
  }

  // A round that reads layers not freed so far and then frees some.
  lemma TraceRound(trace: seq<Touch>, order: seq<Key>, seen: seq<Key>, keys: seq<Key>)
    requires NoLateRead(trace) && Frees(trace) == order && forall k :: k in seen ==> k !in order
    ensures NoLateRead(trace + Reading(seen) + Freeing(keys))
    ensures Frees(trace + Reading(seen) + Freeing(keys)) == order + keys
  {
    hide Frees, NoLateRead;
    FreesReading(trace, seen);
    FreesFreeing(trace + Reading(seen), keys);
    ReadingInTime(trace, seen);
    FreeingInTime(trace + Reading(seen), keys);
  }

  // All that is touched belongs to the tree.
  ghost predicate Within<V>(t: Shape<V>, trace: seq<Touch>) {
    forall i :: 0 <= i < |trace| ==> trace[i].k in t
  }

  // The layers read on the way to `x` have not been freed.
  lemma SeenLive<V>(t: Shape<V>, order: seq<Key>, x: int, l0: int, seen: seq<Key>)
    requires FreedTo(t, order, x) && |seen| <= l0
    requires forall i :: 0 <= i < |seen| ==> seen[i] == PathKey(x, l0 - 1 - i)
    ensures forall k :: k in seen ==> k !in order
  {
    forall i | 0 <= i < |seen| ensures seen[i] !in order {
      ReadsLive(t, order, x, l0 - 1 - i);
    }
  }

  lemma LoggedNone<V>(t: Shape<V>, freed: seq<Layer<V>>)
    ensures Logged(t, [], freed, freed)
  {
  }

  lemma LoggedOn<V>(t: Shape<V>, order0: seq<Key>, order: seq<Key>, f0: seq<Layer<V>>, f1: seq<Layer<V>>,
      f2: seq<Layer<V>>)
    requires order0 <= order && Logged(t, order0, f0, f1) && Logged(t, order[|order0|..], f1, f2)
    ensures Logged(t, order, f0, f2)
  {
    forall i | 0 <= i < |order| ensures order[i] in t && f2[|f0| + i] == t[order[i]].at {
      if i >= |order0| {
        assert order[i] == order[|order0|..][i - |order0|];
      } else {
        assert f2[|f0| + i] == f1[|f0| + i];
      }
    }
  }

  // The walk that frees everything stands before `id`; past the largest `int` it is over.
  ghost predicate Emptying<V>(t: Shape<V>, h: int, id: int, l: int, pa: seq<Slot<V>>, order: seq<Key>,
      hint: Layer?<V>) {
    && -0x8000_0000 <= id <= INT_MAX && 0 <= h <= MAX_IDR_LEVEL
    && (if id >= 0 then FreedTo(t, order, id) else id == -0x8000_0000 && FreedTo(t, order, INT_MAX + 1))
    && HintLive(t, order, hint)
    && (0 <= id <= IdrMax(h) ==> 0 <= l <= h && InStep(t, h, id, l, pa))
    && (0 <= id <= IdrMax(h) && h > 0 ==> 1 <= l && LeafAligned(t, h, id) && Content(t, id, l) != Nil)
  }

  lemma LeafAlignedZero<V>(t: Shape<V>, h: int)
    ensures LeafAligned(t, h, 0)
  {
    forall m | 1 <= m <= h ensures Aligned(0, m) {
      ShrNonNegative(IDR_SIZE, 0, m);
      ShlZero(m);
    }
  }

  lemma EmptyingStart<V>(t: Shape<V>, top: Layer?<V>, h: int, pa: seq<Slot<V>>, hint: Layer?<V>)
    requires Tree(t, top, h) && HintIn(t, hint) && pa != [] && pa[0] == if top == null then Nil else Sub(top)
    ensures Emptying(t, h, 0, h, pa, [], hint)
  {
    InStepStart(t, top, h, 0, pa);
    ContentTop(t, top, h, 0);
    LeafAlignedZero(t, h);
    forall k | k in t ensures !Past(k, 0) {
      assert NodeOk(t, k, h, NO_KEY);
      ShlZero(k.level + 1);
      ShlGrows(IDR_SIZE, 0, k.pos + 1, k.level + 1);
    }
  }

  // The walk has gone down from level `l0` to level `l` of the way to `x`.
  lemma EmptyingStep<V>(t: Shape<V>, top: Layer?<V>, h: int, x: int, l0: int, l: int, pa0: seq<Slot<V>>,
      order: seq<Key>, hint: Layer?<V>)
    requires Tree(t, top, h) && Emptying(t, h, x, l0, pa0, order, hint) && 0 <= x <= IdrMax(h) && 0 < h
    requires 1 <= l <= l0 && (l == 1 || Content(t, x, l) == Nil)
    requires forall m :: l < m <= l0 ==> Content(t, x, m) != Nil
    ensures Aligned(x, l) && (l < h ==> Content(t, x, l + 1) != Nil)
    ensures x + Shl(IDR_SIZE, 1, l) == Shl(IDR_SIZE, Shr(IDR_SIZE, x, l) + 1, l) <= INT_MAX + 1
  {
    assert Content(t, x, l) == Content(t, x, l);
    if l == l0 && l < h {
      PathUp(t, top, h, -1, NO_KEY, x, l - 1, l);
    }
    ShlSum(Shr(IDR_SIZE, x, l), l);
    ShlValues(128);
    if l < MAX_IDR_LEVEL {
      RoundUpBelow(IDR_SIZE, x, 128, l, 3);
    }
  }

  lemma EmptyingNext<V>(t: Shape<V>, top: Layer?<V>, h: int, x: int, l: nat, y: int, id: int, m: int, pa: seq<Slot<V>>,
      order: seq<Key>, hint: Layer?<V>)
    requires Tree(t, top, h) && 1 <= l <= h && 0 <= x <= IdrMax(h) && Aligned(x, l) && InStep(t, h, x, l, pa)
    requires (l == 1 || Content(t, x, l) == Nil) && (l < h ==> Content(t, x, l + 1) != Nil)
    requires y == x + Shl(IDR_SIZE, 1, l) <= INT_MAX + 1 && id == Wrap32(y)
    requires FreedMid(t, order, x, l, m) && HintLive(t, order, hint) && l <= m
      && Shr(IDR_SIZE, x, m) == Shr(IDR_SIZE, y, m)
    requires forall n :: l <= n < m ==> Shr(IDR_SIZE, x, n) != Shr(IDR_SIZE, y, n)
    ensures Emptying(t, h, id, m, pa, order, hint) && (id < 0 || id > x)
  {
    hide InStep, FreedMid, FreedTo, HintLive, TreeX, Content;
    ShlSum(Shr(IDR_SIZE, x, l), l);
    ShlGrowsIn(0, l);
    LeafAlignNext(t, top, h, x, l, y);
    FreedNext(t, top, h, x, l, y, m, order);
    Height(t, top, h);
    if y <= IdrMax(h) {
      StopsAtRoot(h, x, l, y);
      assert m <= h;
      AboveFirst(t, top, h, x, l, y, m);
      InStepMoved(t, h, x, y, l, m, pa);
    }
  }

  // Past the last id below an empty place the way ends no earlier than where it forked off.
  lemma AboveFirst<V>(t: Shape<V>, top: Layer?<V>, h: int, x: int, l: nat, y: int, m: int)
    requires Tree(t, top, h) && 1 <= l <= m <= h && 0 <= x && Aligned(x, l) && (l < h ==> Content(t, x, l + 1) != Nil)
    requires y == Shl(IDR_SIZE, Shr(IDR_SIZE, x, l) + 1, l) && Shr(IDR_SIZE, x, m) == Shr(IDR_SIZE, y, m)
    ensures l < m && Content(t, y, m) != Nil
  {
    ShrShl(IDR_SIZE, Shr(IDR_SIZE, x, l) + 1, l);
    AlignNext(t, top, h, x, l, y);
    ContentSame(t, x, y, m, m);
    assert Content(t, x, m) == Content(t, x, m);
  }

  lemma InStepMoved<V>(t: Shape<V>, h: int, x: int, y: int, l: int, m: nat, pa: seq<Slot<V>>)
    requires InStep(t, h, x, l, pa) && l <= m && Shr(IDR_SIZE, x, m) == Shr(IDR_SIZE, y, m)
    ensures InStep(t, h, y, m, pa)
  {
    forall n: nat | m <= n <= h ensures StackAt(t, h, y, n, pa) {
      ContentSame(t, x, y, m, n);
    }
  }

  // When the walk is over every layer has been freed, but for the root of a tree of full
  // depth: 32 bits end below it.
  lemma EmptyingEnd<V>(t: Shape<V>, top: Layer?<V>, h: int, id: int, l: int, pa: seq<Slot<V>>, order: seq<Key>,
      hint: Layer?<V>)
    requires Tree(t, top, h) && Emptying(t, h, id, l, pa, order, hint) && (id < 0 || id > IdrMax(h))
    ensures hint == null && ChildrenFirst(order)
    ensures forall k :: k in order <==> k in t && !(h == MAX_IDR_LEVEL && k == Key(3, 0))
  {
    var y := if id >= 0 then id else INT_MAX + 1;
    forall k | k in t ensures Past(k, y) <==> !(h == MAX_IDR_LEVEL && k == Key(3, 0)) {
      LastPast(t, top, h, k, y);
    }
  }

  lemma LastPast<V>(t: Shape<V>, top: Layer?<V>, h: int, k: Key, y: int)
    requires Tree(t, top, h) && k in t && IdrMax(h) < y <= INT_MAX + 1
    ensures Past(k, y) <==> !(h == MAX_IDR_LEVEL && k == Key(3, 0))
  {
    var l := k.level + 1;
    assert NodeOk(t, k, h, NO_KEY);
    var z := Shl(IDR_SIZE, k.pos, l);
    ShrShl(IDR_SIZE, k.pos, l);
    PathUp(t, top, h, -1, NO_KEY, z, k.level, h - 1);
    assert NodeOk(t, PathKey(z, h - 1), h, NO_KEY);
    ShrLess(IDR_SIZE, z, 1, h);
    ShlValues(1);
    ShlValues(128);
    if h < MAX_IDR_LEVEL {
      RoundUpBelow(IDR_SIZE, z, 1, l, h);
    } else if l < MAX_IDR_LEVEL {
      RoundUpBelow(IDR_SIZE, z, 128, l, 3);
    }
  }
}
