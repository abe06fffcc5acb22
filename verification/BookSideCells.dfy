/** What the cells of a book side hold, and what each change of them does to the two maps. */
module BookSideCells {
  import opened Types
  import opened Keys
  import opened Trees
  import opened TreeWalks
  import opened Rankings
  import opened Arenas
  import opened BookSideModels

  datatype OrderTreeRoot = OrderTreeRoot(maybeNode: nat, leafCount: nat)

  datatype Pair<T> = Pair(fixed: T, pegged: T) {
    function Get(c: Component): T { if c.Fixed? then fixed else pegged }
    function With(c: Component, x: T): Pair<T> { if c.Fixed? then this.(fixed := x) else this.(pegged := x) }
  }

  function HandlesOf(t: Option<Tree>): set<nat> { if t.None? then {} else Handles(t.value) }

  function OrdersOf(t: Option<Tree>): map<nat, LeafNode> { if t.None? then map[] else Orders(t.value) }

  ghost function AllHandles(ts: Pair<Option<Tree>>): set<nat> { HandlesOf(ts.fixed) + HandlesOf(ts.pegged) }

  ghost predicate RootOk(ns: seq<AnyNode>, root: OrderTreeRoot, t: Option<Tree>) {
    match t
    case None => root.leafCount == 0
    case Some(t) =>
      && root == OrderTreeRoot(t.h, Tips(t))
      && Represents(ns, t) && Separate(t) && WellFormed(t)
  }

  /** The arena and the roots hold the two trees `ts` and the free chain `free`. */
  ghost predicate Inv(a: Arena, roots: Pair<OrderTreeRoot>, ts: Pair<Option<Tree>>, free: seq<nat>) {
    && RootOk(a.nodes, roots.fixed, ts.fixed)
    && RootOk(a.nodes, roots.pegged, ts.pegged)
    && HandlesOf(ts.fixed) !! HandlesOf(ts.pegged)
    && ArenaOk(a, AllHandles(ts), free)
  }

  ghost function ModelOf(a: Arena, ts: Pair<Option<Tree>>): BookSideModel {
    BookSideModel(OrdersOf(ts.fixed), OrdersOf(ts.pegged), a.bump, |a.nodes|)
  }

  // ---------- lemmas on the values ----------

  lemma {:induction false} CellsOf(t: Option<Tree>)
    requires t.Some? ==> Separate(t.value) && WellFormed(t.value)
    ensures |HandlesOf(t)| == Cells(|OrdersOf(t)|)
    ensures t.Some? ==> Tips(t.value) == |OrdersOf(t)| >= 1
  {
    if t.Some? {
      HandleCount(t.value);
      TipsAreOrders(t.value);
    }
  }

  /** The bump index less the length of the free list is twice the orders less one for each tree that has any. */
  lemma {:induction false} CellAccounting(a: Arena, roots: Pair<OrderTreeRoot>, ts: Pair<Option<Tree>>, free: seq<nat>)
    requires Inv(a, roots, ts, free)
    ensures var m := ModelOf(a, ts);
            && a.bump - a.freeLen == m.UsedCells() == |AllHandles(ts)|
            && Available(a) == m.Available() && m.UsedCells() <= a.bump <= |a.nodes|
    ensures roots.fixed.leafCount == |OrdersOf(ts.fixed)| && roots.pegged.leafCount == |OrdersOf(ts.pegged)|
    ensures forall comp :: roots.Get(comp).leafCount == 0 <==> ts.Get(comp).None?
  {
    hide Represents, Separate, WellFormed, Handles, Orders, Tips, Chained, Cells;
    CellsOf(ts.fixed);
    CellsOf(ts.pegged);
    assert |AllHandles(ts)| == |HandlesOf(ts.fixed)| + |HandlesOf(ts.pegged)|;
  }

  lemma RootFrame(ns: seq<AnyNode>, ns': seq<AnyNode>, root: OrderTreeRoot, t: Option<Tree>)
    requires RootOk(ns, root, t) && |ns'| == |ns|
    requires forall h :: h in HandlesOf(t) && h < |ns| ==> ns'[h] == ns[h]
    ensures RootOk(ns', root, t)
  {
    if t.Some? {
      RepresentsFrame(ns, ns', t.value);
    }
  }

  /** Putting another tree `u` under one root keeps the invariant when its cells are in order. */
  lemma ReplaceTree(
      a: Arena, roots: Pair<OrderTreeRoot>, ts: Pair<Option<Tree>>, free: seq<nat>,
      comp: Component, a': Arena, root: OrderTreeRoot, u: Option<Tree>, free': seq<nat>)
    requires Inv(a, roots, ts, free)
    requires |a'.nodes| == |a.nodes|
    requires RootOk(a'.nodes, root, u)
    requires var other := HandlesOf(ts.Get(comp.Other()));
             && HandlesOf(u) !! other
             && (forall h :: h in other && h < |a.nodes| ==> a'.nodes[h] == a.nodes[h])
             && ArenaOk(a', HandlesOf(u) + other, free')
    ensures Inv(a', roots.With(comp, root), ts.With(comp, u), free')
  {
    RootFrame(a.nodes, a'.nodes, roots.Get(comp.Other()), ts.Get(comp.Other()));
    assert AllHandles(ts.With(comp, u)) == HandlesOf(u) + HandlesOf(ts.Get(comp.Other()));
  }

  /** At the place where the descent for `k` ends, all keys below share `n` bits with `k` and differ in the next. */
  lemma SplitSides(sub: Tree, k: nat)
    requires WellFormed(sub) && k < KEY_SIZE
    requires sub.Tip? ==> sub.leaf.key != k
    requires sub.Fork? ==> SharedPrefixLen(sub.key, k) < sub.prefixLen
    ensures var n := SharedPrefixLen(if sub.Tip? then sub.leaf.key else sub.key, k);
            n < KEY_BITS && AllOnSide(Orders(sub).Keys, n, k, !CritBit(k, n))
  {
    var key := if sub.Tip? then sub.leaf.key else sub.key;
    var n := SharedPrefixLen(key, k);
    SharedPrefixLenIsLongest(key, k);
    if sub.Fork? {
      forall q | q in Orders(sub).Keys
        ensures OnSide(q, n, k, !CritBit(k, n))
      {
        var bit := q in Orders(sub.one);
        assert OnSide(q, sub.prefixLen, key, bit);
        PrefixShorter(q, key, n, sub.prefixLen);
        PrefixShorter(q, key, n + 1, sub.prefixLen);
      }
    }
  }

  /** Filling the hole of a context with another subtree keeps the invariant. */
  lemma ReplaceHole(
      a: Arena, roots: Pair<OrderTreeRoot>, ts: Pair<Option<Tree>>, free: seq<nat>,
      comp: Component, c: Context, sub: Tree, a': Arena, sub': Tree, free': seq<nat>)
    requires Inv(a, roots, ts, free) && ts.Get(comp) == Some(Plug(c, sub))
    requires |a'.nodes| == |a.nodes| && sub'.h == sub.h
    requires Represents(a'.nodes, sub') && RepresentsContext(a'.nodes, c, sub'.h, Earliest(sub'))
    requires Separate(sub') && WellFormed(sub') && ContextWellFormed(c, Orders(sub').Keys)
    requires Handles(sub') !! ContextHandles(c)
    requires var other := HandlesOf(ts.Get(comp.Other()));
             && Handles(sub') !! other
             && (forall h :: h in other && h < |a.nodes| ==> a'.nodes[h] == a.nodes[h])
             && ArenaOk(a', Handles(sub') + ContextHandles(c) + other, free')
    ensures var u := Plug(c, sub');
            && Inv(a', roots.With(comp, OrderTreeRoot(roots.Get(comp).maybeNode, Tips(u))), ts.With(comp, Some(u)), free')
            && Orders(u) == Orders(sub') + ContextOrders(c)
  {
    var u, other := Plug(c, sub'), HandlesOf(ts.Get(comp.Other()));
    PlugHandles(c, sub);
    PlugHandles(c, sub');
    PlugSeparate(c, sub);
    PlugSeparate(c, sub');
    PlugWellFormed(c, sub');
    PlugRepresents(a'.nodes, c, sub');
    PlugOrders(c, sub');
    PlugRoot(c, sub, sub');
    assert Handles(u) + other == Handles(sub') + ContextHandles(c) + other;
    ReplaceTree(a, roots, ts, free, comp, a', OrderTreeRoot(roots.Get(comp).maybeNode, Tips(u)), Some(u), free');
  }

  lemma {:induction false} PlugRoot(c: Context, t: Tree, u: Tree)
    requires t.h == u.h
    ensures Plug(c, t).h == Plug(c, u).h
  {
    if c.Under? {
      PlugRoot(c.up, Join(c.h, c.prefixLen, c.key, c.bit, t, c.sibling),
               Join(c.h, c.prefixLen, c.key, c.bit, u, c.sibling));
    }
  }

  /** What is known about a subtree and what is around it. */
  lemma HoleFacts(a: Arena, roots: Pair<OrderTreeRoot>, ts: Pair<Option<Tree>>, free: seq<nat>,
                  comp: Component, c: Context, sub: Tree)
    requires Inv(a, roots, ts, free) && ts.Get(comp) == Some(Plug(c, sub))
    ensures Represents(a.nodes, sub) && RepresentsContext(a.nodes, c, sub.h, Earliest(sub))
    ensures Separate(sub) && ContextSeparate(c) && Handles(sub) !! ContextHandles(c)
    ensures WellFormed(sub) && ContextWellFormed(c, Orders(sub).Keys)
    ensures Orders(sub).Keys !! ContextOrders(c).Keys
    ensures Orders(Plug(c, sub)) == Orders(sub) + ContextOrders(c)
    ensures var other := HandlesOf(ts.Get(comp.Other()));
            && Handles(sub) !! other && ContextHandles(c) !! other
            && AllHandles(ts) == Handles(sub) + ContextHandles(c) + other
            && ArenaOk(a, AllHandles(ts), free)
    ensures roots.Get(comp) == OrderTreeRoot(Plug(c, sub).h, Tips(Plug(c, sub)))
    ensures sub.h < |a.nodes|
    ensures StackOk(a.nodes, StackOf(c))
    ensures a.nodes[sub.h].InUse() && a.nodes[sub.h].EarliestExpiry() == Earliest(sub)
  {
    hide Represents, RepresentsContext, Separate, WellFormed, ContextWellFormed, Plug, Orders, Handles, ContextHandles, ArenaOk;
    PlugHandles(c, sub);
    PlugSeparate(c, sub);
    PlugWellFormed(c, sub);
    PlugRepresents(a.nodes, c, sub);
    PlugOrders(c, sub);
    ContextStackOk(a.nodes, c, sub.h, Earliest(sub));
    RepresentsInRange(a.nodes, sub);
  }

  // ---------- insertion ----------

  /** A first order becomes the root of its tree. */
  lemma InsertRootOk(a: Arena, roots: Pair<OrderTreeRoot>, ts: Pair<Option<Tree>>, free: seq<nat>,
                     comp: Component, leaf: LeafNode)
    requires Inv(a, roots, ts, free) && ts.Get(comp).None? && leaf.key < KEY_SIZE
    ensures var r := Allocate(a, Leaf(leaf));
            && !r.Broken?
            && (r.OutOfSpace? <==> Available(a) == 0)
            && (r.Allocated? ==>
                  && r.arena.bump == Max(a.bump, |AllHandles(ts)| + 1)
                  && Inv(r.arena, roots.With(comp, OrderTreeRoot(r.handle, 1)),
                         ts.With(comp, Some(Tip(r.handle, leaf))), FreeAfterAllocate(free)))
  {
    AllocateOk(a, AllHandles(ts), free, Leaf(leaf));
    var r := Allocate(a, Leaf(leaf));
    if r.Allocated? {
      var other := HandlesOf(ts.Get(comp.Other()));
      assert AllHandles(ts) + {r.handle} == {r.handle} + other;
      ReplaceTree(a, roots, ts, free, comp, r.arena, OrderTreeRoot(r.handle, 1), Some(Tip(r.handle, leaf)),
                  FreeAfterAllocate(free));
    }
  }

  /** Once the cells of the new subtree are written, the upward walk restores the whole invariant. */
  lemma WalkUpOk(
      a: Arena, roots: Pair<OrderTreeRoot>, ts: Pair<Option<Tree>>, free: seq<nat>,
      comp: Component, c: Context, sub: Tree, a': Arena, sub': Tree, free': seq<nat>, before: int, outdated: int)
    requires Inv(a, roots, ts, free) && ts.Get(comp) == Some(Plug(c, sub))
    requires |a'.nodes| == |a.nodes| && sub'.h == sub.h
    requires Represents(a'.nodes, sub') && RepresentsContext(a'.nodes, c, sub'.h, before)
    requires outdated == before || Earliest(sub') == before
    requires Separate(sub') && WellFormed(sub') && ContextWellFormed(c, Orders(sub').Keys)
    requires Handles(sub') !! ContextHandles(c)
    requires var other := HandlesOf(ts.Get(comp.Other()));
             && Handles(sub') !! other
             && (forall h :: h in other && h < |a.nodes| ==> a'.nodes[h] == a.nodes[h])
             && ArenaOk(a', Handles(sub') + ContextHandles(c) + other, free')
    ensures StackOk(a'.nodes, StackOf(c))
    ensures var u := Plug(c, sub');
            && Inv(a'.(nodes := UpdateExpiries(a'.nodes, StackOf(c), outdated, Earliest(sub'))),
                   roots.With(comp, OrderTreeRoot(roots.Get(comp).maybeNode, Tips(u))), ts.With(comp, Some(u)), free')
            && Orders(u) == Orders(sub') + ContextOrders(c)
  {
    hide *;
    HoleFacts(a, roots, ts, free, comp, c, sub);
    var other := HandlesOf(ts.Get(comp.Other()));
    ContextStackOk(a'.nodes, c, sub'.h, before);
    UpdateExpiriesIsExact(a'.nodes, c, sub'.h, before, outdated, Earliest(sub'));
    var ns := UpdateExpiries(a'.nodes, StackOf(c), outdated, Earliest(sub'));
    RepresentsFrame(a'.nodes, ns, sub');
    OverwriteOk(a', Handles(sub') + ContextHandles(c) + other, free', ns);
    ReplaceHole(a, roots, ts, free, comp, c, sub, a'.(nodes := ns), sub', free');
  }

  /** The cell of a leaf is overwritten by another leaf with the same key: what the hole needs to be filled again. */
  lemma OverwrittenTip(a: Arena, roots: Pair<OrderTreeRoot>, ts: Pair<Option<Tree>>, free: seq<nat>,
                       comp: Component, c: Context, tip: Tree, leaf: LeafNode)
    requires Inv(a, roots, ts, free) && ts.Get(comp) == Some(Plug(c, tip)) && tip.Tip? && tip.leaf.key == leaf.key
    ensures tip.h < |a.nodes| && a.nodes[tip.h] == Leaf(tip.leaf) && leaf.key < KEY_SIZE
    ensures var ns, tip', other := a.nodes[tip.h := Leaf(leaf)], Tip(tip.h, leaf), HandlesOf(ts.Get(comp.Other()));
            && Represents(ns, tip') && RepresentsContext(ns, c, tip.h, tip.leaf.Expiry())
            && Separate(tip') && WellFormed(tip') && ContextWellFormed(c, Orders(tip').Keys)
            && Handles(tip') !! ContextHandles(c) && Handles(tip') !! other
            && (forall h :: h in other && h < |a.nodes| ==> ns[h] == a.nodes[h])
            && ArenaOk(a.(nodes := ns), Handles(tip') + ContextHandles(c) + other, free)
    ensures leaf.key !in ContextOrders(c) && OrdersOf(ts.Get(comp)) == map[leaf.key := tip.leaf] + ContextOrders(c)
  {
    hide Inv, Represents, RepresentsContext, Separate, WellFormed, ContextWellFormed, ArenaOk, Plug, Handles, ContextHandles,
         Orders, ContextOrders, Earliest, Tips;
    HoleFacts(a, roots, ts, free, comp, c, tip);
    var ns := a.nodes[tip.h := Leaf(leaf)];
    TipFacts(tip);
    TipFacts(Tip(tip.h, leaf));
    assert map[leaf.key := leaf].Keys == map[leaf.key := tip.leaf].Keys == {leaf.key};
    TipRepresents(ns, Tip(tip.h, leaf));
    TipRepresents(a.nodes, tip);
    RepresentsContextFrame(a.nodes, ns, c, tip.h, Earliest(tip));
    OverwriteOk(a, AllHandles(ts), free, ns);
  }

  /** An order under a key that is already there takes the place of the old one. */
  lemma ClobberOk(a: Arena, roots: Pair<OrderTreeRoot>, ts: Pair<Option<Tree>>, free: seq<nat>,
                  comp: Component, c: Context, sub: Tree, leaf: LeafNode)
    requires Inv(a, roots, ts, free) && ts.Get(comp) == Some(Plug(c, sub))
    requires sub.Tip? && sub.leaf.key == leaf.key
    ensures sub.h < |a.nodes|
    ensures var ns := a.nodes[sub.h := Leaf(leaf)];
            && StackOk(ns, StackOf(c))
            && Inv(a.(nodes := UpdateExpiries(ns, StackOf(c), sub.leaf.Expiry(), leaf.Expiry())), roots,
                   ts.With(comp, Some(Plug(c, Tip(sub.h, leaf)))), free)
    ensures OrdersOf(ts.Get(comp)) == map[leaf.key := sub.leaf] + ContextOrders(c)
    ensures leaf.key !in ContextOrders(c)
    ensures Orders(Plug(c, Tip(sub.h, leaf))) == map[leaf.key := leaf] + ContextOrders(c)
  {
    hide *;
    OverwrittenTip(a, roots, ts, free, comp, c, sub, leaf);
    var ns, sub' := a.nodes[sub.h := Leaf(leaf)], Tip(sub.h, leaf);
    TipFacts(sub);
    TipFacts(sub');
    WalkUpOk(a, roots, ts, free, comp, c, sub, a.(nodes := ns), sub', free, sub.leaf.Expiry(), sub.leaf.Expiry());
    SameRoot(a, roots, ts, free, comp, c, sub, sub');
  }

  lemma SameRoot(a: Arena, roots: Pair<OrderTreeRoot>, ts: Pair<Option<Tree>>, free: seq<nat>,
                 comp: Component, c: Context, tip: Tree, tip': Tree)
    requires Inv(a, roots, ts, free) && ts.Get(comp) == Some(Plug(c, tip)) && tip.Tip? && tip'.Tip?
    ensures roots.With(comp, OrderTreeRoot(roots.Get(comp).maybeNode, Tips(Plug(c, tip')))) == roots
  {
    hide Inv, Plug;
    HoleFacts(a, roots, ts, free, comp, c, tip);
    PlugTips(c, tip);
    PlugTips(c, tip');
  }

  function Moved(t: Tree, h: nat): Tree { t.(h := h) }

  /** The subtree that takes the place of `sub` when `leaf` is added beside it. */
  function Split(sub: Tree, leaf: LeafNode, newLeaf: nat, moved: nat): Tree {
    var n := SharedPrefixLen(if sub.Tip? then sub.leaf.key else sub.key, leaf.key);
    var bit := n < KEY_BITS && CritBit(leaf.key, n);
    Join(sub.h, n, leaf.key, bit, Tip(newLeaf, leaf), Moved(sub, moved))
  }

  lemma SplitTree(c: Context, sub: Tree, leaf: LeafNode, newLeaf: nat, moved: nat)
    requires WellFormed(sub) && Separate(sub) && ContextWellFormed(c, Orders(sub).Keys)
    requires Admits(c, leaf.key) && leaf.key < KEY_SIZE
    requires sub.Tip? ==> sub.leaf.key != leaf.key
    requires sub.Fork? ==> SharedPrefixLen(sub.key, leaf.key) < sub.prefixLen
    requires newLeaf !in Handles(sub) && moved !in Handles(sub) && moved != newLeaf
    ensures var t := Split(sub, leaf, newLeaf, moved);
            && WellFormed(t) && Separate(t) && ContextWellFormed(c, Orders(t).Keys)
            && Handles(t) == Handles(sub) + {newLeaf, moved}
            && leaf.key !in Orders(sub) && leaf.key !in ContextOrders(c)
            && Orders(t) == Orders(sub)[leaf.key := leaf]
            && Earliest(t) == Min(leaf.Expiry(), Earliest(sub))
            && Tips(t) == Tips(sub) + 1
  {
    hide SharedPrefixLen, CritBit, Prefix, ContextWellFormed, ContextOrders, Admits;
    var t := Split(sub, leaf, newLeaf, moved);
    SplitSides(sub, leaf.key);
    var n := SharedPrefixLen(if sub.Tip? then sub.leaf.key else sub.key, leaf.key);
    assert OnSide(leaf.key, n, leaf.key, CritBit(leaf.key, n));
    SidesDisjoint(Orders(sub).Keys, {leaf.key}, n, leaf.key, !CritBit(leaf.key, n));
    assert leaf.key !in Orders(sub);
    assert Orders(t) == Orders(sub)[leaf.key := leaf];
    ContextMonotone(c, Orders(sub).Keys, Orders(t).Keys);
    AdmittedIsNotAround(c, Orders(sub).Keys, leaf.key);
  }

  /** Copying the top node of a subtree to another cell. */
  lemma MovedFacts(ns: seq<AnyNode>, ns': seq<AnyNode>, t: Tree, h: nat)
    requires Represents(ns, t) && Separate(t) && |ns'| == |ns| && h < |ns|
    requires forall i :: i in Handles(t) && i != t.h && i < |ns| ==> ns'[i] == ns[i]
    requires ns'[h] == ns[t.h]
    ensures Represents(ns', Moved(t, h)) && Earliest(Moved(t, h)) == Earliest(t)
  {
    if t.Fork? {
      RepresentsFrame(ns, ns', t.zero);
      RepresentsFrame(ns, ns', t.one);
    }
  }

  lemma JoinFacts(ns: seq<AnyNode>, h: nat, n: nat, key: nat, bit: bool, t: Tree, sibling: Tree)
    requires Represents(ns, t) && Represents(ns, sibling) && h < |ns|
    requires ns[h] == JoinNode(n, key, bit, t.h, sibling.h, Earliest(t), Earliest(sibling))
    ensures Represents(ns, Join(h, n, key, bit, t, sibling))
  {
  }

  /** The cells after both allocations and the overwriting of the old parent hold the split subtree. */
  lemma SplitCells(ns: seq<AnyNode>, c: Context, sub: Tree, leaf: LeafNode, newLeaf: nat, moved: nat)
    requires Represents(ns, sub) && RepresentsContext(ns, c, sub.h, Earliest(sub)) && Separate(sub)
    requires Handles(sub) !! ContextHandles(c)
    requires newLeaf < |ns| && moved < |ns| && newLeaf != moved && sub.h < |ns| && sub.h in Handles(sub)
    requires newLeaf !in Handles(sub) + ContextHandles(c) && moved !in Handles(sub) + ContextHandles(c)
    requires SharedPrefixLen(if sub.Tip? then sub.leaf.key else sub.key, leaf.key) < KEY_BITS
    ensures var n := SharedPrefixLen(if sub.Tip? then sub.leaf.key else sub.key, leaf.key);
            var node := JoinNode(n, leaf.key, CritBit(leaf.key, n), newLeaf, moved, leaf.Expiry(), Earliest(sub));
            var ns' := ns[newLeaf := Leaf(leaf)][moved := ns[sub.h]][sub.h := node];
            && Represents(ns', Split(sub, leaf, newLeaf, moved))
            && RepresentsContext(ns', c, sub.h, Earliest(sub))
  {
    hide Represents, RepresentsContext, Separate, Handles, ContextHandles, Earliest, CritBit;
    var n := SharedPrefixLen(if sub.Tip? then sub.leaf.key else sub.key, leaf.key);
    var node := JoinNode(n, leaf.key, CritBit(leaf.key, n), newLeaf, moved, leaf.Expiry(), Earliest(sub));
    var ns' := ns[newLeaf := Leaf(leaf)][moved := ns[sub.h]][sub.h := node];
    MovedFacts(ns, ns', sub, moved);
    TipRepresents(ns', Tip(newLeaf, leaf));
    TipFacts(Tip(newLeaf, leaf));
    JoinFacts(ns', sub.h, n, leaf.key, CritBit(leaf.key, n), Tip(newLeaf, leaf), Moved(sub, moved));
    RepresentsContextFrame(ns, ns', c, sub.h, Earliest(sub));
  }

  lemma RootInHandles(t: Tree)
    ensures t.h in Handles(t)
  {
  }

  /** When the second cell cannot be had, giving back the first leaves both trees as they were. */
  lemma SecondAllocationFails(a: Arena, roots: Pair<OrderTreeRoot>, ts: Pair<Option<Tree>>, free: seq<nat>, leaf: LeafNode)
    requires Inv(a, roots, ts, free)
    ensures var r := Allocate(a, Leaf(leaf));
            && !r.Broken?
            && (r.OutOfSpace? <==> Available(a) == 0)
            && (r.Allocated? ==>
                  && r.handle < |a.nodes|
                  && Inv(Release(r.arena, r.handle), roots, ts, [r.handle] + FreeAfterAllocate(free)))
  {
    hide Represents, Separate, WellFormed, Handles, Orders, Tips, Chained;
    var used := AllHandles(ts);
    AllocateOk(a, used, free, Leaf(leaf));
    var r := Allocate(a, Leaf(leaf));
    if r.Allocated? {
      ReleaseOk(r.arena, used + {r.handle}, FreeAfterAllocate(free), r.handle);
      assert used + {r.handle} - {r.handle} == used;
      var a' := Release(r.arena, r.handle);
      RootFrame(a.nodes, a'.nodes, roots.fixed, ts.fixed);
      RootFrame(a.nodes, a'.nodes, roots.pegged, ts.pegged);
    }
  }

  lemma AllocateTwice(a: Arena, used: set<nat>, free: seq<nat>, first: AnyNode, second: AnyNode)
    requires ArenaOk(a, used, free) && first.InUse() && second.InUse()
    requires Allocate(a, first).Allocated?
    ensures var r1 := Allocate(a, first);
            var r2 := Allocate(r1.arena, second);
            && !r2.Broken?
            && (r2.OutOfSpace? <==> Available(a) == 1)
            && (r2.Allocated? ==>
                  && r1.handle !in used && r2.handle !in used && r1.handle != r2.handle
                  && r1.handle < |a.nodes| && r2.handle < |a.nodes|
                  && r2.arena.nodes == a.nodes[r1.handle := first][r2.handle := second]
                  && r2.arena.bump == Max(a.bump, |used| + 2)
                  && ArenaOk(r2.arena, used + {r1.handle} + {r2.handle}, FreeAfterAllocate(FreeAfterAllocate(free))))
  {
    hide Allocate, ArenaOk, FreeAfterAllocate;
    AllocateOk(a, used, free, first);
    var r1 := Allocate(a, first);
    AllocateOk(r1.arena, used + {r1.handle}, FreeAfterAllocate(free), second);
    assert |used + {r1.handle}| == |used| + 1;
  }

  /** The node that overwrites the old parent: it has the old parent and the new order below it. */
  ghost function SplitNode(sub: Tree, leaf: LeafNode, newLeaf: nat, moved: nat): AnyNode {
    var n := SharedPrefixLen(if sub.Tip? then sub.leaf.key else sub.key, leaf.key);
    JoinNode(n, leaf.key, n < KEY_BITS && CritBit(leaf.key, n), newLeaf, moved, leaf.Expiry(), Earliest(sub))
  }

  /** A place beside which an order under `k` belongs: where the descent for `k` ends. */
  ghost predicate SplitPoint(c: Context, sub: Tree, k: nat) {
    && Admits(c, k) && k < KEY_SIZE
    && (sub.Tip? ==> sub.leaf.key != k)
    && (sub.Fork? ==> SharedPrefixLen(sub.key, k) < sub.prefixLen)
  }

  lemma SplitPlugged(a: Arena, roots: Pair<OrderTreeRoot>, ts: Pair<Option<Tree>>, free: seq<nat>,
                     comp: Component, c: Context, sub: Tree, leaf: LeafNode, newLeaf: nat, moved: nat)
    requires Inv(a, roots, ts, free) && ts.Get(comp) == Some(Plug(c, sub)) && SplitPoint(c, sub, leaf.key)
    requires newLeaf !in AllHandles(ts) && moved !in AllHandles(ts) && newLeaf != moved
    ensures var t := Split(sub, leaf, newLeaf, moved);
            && WellFormed(t) && Separate(t) && ContextWellFormed(c, Orders(t).Keys)
            && Handles(t) == Handles(sub) + {newLeaf, moved}
            && Earliest(t) == Min(leaf.Expiry(), Earliest(sub))
            && leaf.key !in Orders(Plug(c, sub))
            && Orders(t) + ContextOrders(c) == Orders(Plug(c, sub))[leaf.key := leaf]
            && Tips(Plug(c, t)) == Tips(Plug(c, sub)) + 1
            && t.h == sub.h
  {
    hide Inv, Represents, RepresentsContext, Separate, WellFormed, ContextWellFormed, ArenaOk, Plug, Handles,
         ContextHandles, Orders, ContextOrders, StackOf, StackOk, Earliest, Tips, Split, Admits, AllHandles, SharedPrefixLen;
    HoleFacts(a, roots, ts, free, comp, c, sub);
    SplitTree(c, sub, leaf, newLeaf, moved);
    var t := Split(sub, leaf, newLeaf, moved);
    PlugTips(c, sub);
    PlugTips(c, t);
    SplitShape(sub, leaf, newLeaf, moved);
  }

  lemma SplitWritten(
      a: Arena, roots: Pair<OrderTreeRoot>, ts: Pair<Option<Tree>>, free: seq<nat>, comp: Component,
      c: Context, sub: Tree, leaf: LeafNode, newLeaf: nat, moved: nat, a': Arena, free': seq<nat>)
    requires Inv(a, roots, ts, free) && ts.Get(comp) == Some(Plug(c, sub)) && SplitPoint(c, sub, leaf.key)
    requires newLeaf !in AllHandles(ts) && moved !in AllHandles(ts) && newLeaf != moved
    requires newLeaf < |a.nodes| && moved < |a.nodes| && sub.h < |a.nodes|
    requires a'.nodes == a.nodes[newLeaf := Leaf(leaf)][moved := a.nodes[sub.h]][sub.h := SplitNode(sub, leaf, newLeaf, moved)]
    requires ArenaOk(a', AllHandles(ts) + {newLeaf} + {moved}, free')
    ensures var t := Split(sub, leaf, newLeaf, moved);
            var other := HandlesOf(ts.Get(comp.Other()));
            && Represents(a'.nodes, t) && RepresentsContext(a'.nodes, c, sub.h, Earliest(sub))
            && Handles(t) !! ContextHandles(c) && Handles(t) !! other
            && (forall h :: h in other && h < |a.nodes| ==> a'.nodes[h] == a.nodes[h])
            && ArenaOk(a', Handles(t) + ContextHandles(c) + other, free')
            && StackOk(a'.nodes, StackOf(c))
  {
    hide Inv, Represents, RepresentsContext, Separate, WellFormed, ContextWellFormed, ArenaOk, UpdateExpiries, Plug,
         Handles, ContextHandles, Orders, ContextOrders, StackOf, StackOk, Earliest, Tips, Split, Admits,
         AllHandles, CritBit, SharedPrefixLen;
    HoleFacts(a, roots, ts, free, comp, c, sub);
    SplitPlugged(a, roots, ts, free, comp, c, sub, leaf, newLeaf, moved);
    SplitSides(sub, leaf.key);
    RootInHandles(sub);
    SplitCells(a.nodes, c, sub, leaf, newLeaf, moved);
    ContextStackOk(a'.nodes, c, sub.h, Earliest(sub));
    var other := HandlesOf(ts.Get(comp.Other()));
    assert AllHandles(ts) + {newLeaf} + {moved} == Handles(Split(sub, leaf, newLeaf, moved)) + ContextHandles(c) + other;
  }

  /** Adding an order beside `sub`: two new cells, the old parent cell overwritten, and the expiry carried up if
      the new order expires first. */
  lemma SplitOk(
      a: Arena, roots: Pair<OrderTreeRoot>, ts: Pair<Option<Tree>>, free: seq<nat>, comp: Component,
      c: Context, sub: Tree, leaf: LeafNode, newLeaf: nat, moved: nat, a': Arena, free': seq<nat>)
    requires Inv(a, roots, ts, free) && ts.Get(comp) == Some(Plug(c, sub)) && SplitPoint(c, sub, leaf.key)
    requires newLeaf !in AllHandles(ts) && moved !in AllHandles(ts) && newLeaf != moved
    requires newLeaf < |a.nodes| && moved < |a.nodes| && sub.h < |a.nodes|
    requires a'.nodes == a.nodes[newLeaf := Leaf(leaf)][moved := a.nodes[sub.h]][sub.h := SplitNode(sub, leaf, newLeaf, moved)]
    requires ArenaOk(a', AllHandles(ts) + {newLeaf} + {moved}, free')
    ensures StackOk(a'.nodes, StackOf(c))
    ensures var u := Plug(c, Split(sub, leaf, newLeaf, moved));
            var root := roots.Get(comp);
            var ns := if leaf.Expiry() < Earliest(sub)
                      then UpdateExpiries(a'.nodes, StackOf(c), Earliest(sub), leaf.Expiry()) else a'.nodes;
            && Inv(a'.(nodes := ns), roots.With(comp, root.(leafCount := root.leafCount + 1)),
                   ts.With(comp, Some(u)), free')
            && leaf.key !in OrdersOf(ts.Get(comp))
            && Orders(u) == OrdersOf(ts.Get(comp))[leaf.key := leaf]
  {
    hide Inv, Represents, RepresentsContext, Separate, WellFormed, ContextWellFormed, ArenaOk, UpdateExpiries, Plug,
         Handles, ContextHandles, Orders, ContextOrders, StackOf, StackOk, Earliest, Tips, Split, SplitPoint,
         AllHandles, SplitNode;
    HoleFacts(a, roots, ts, free, comp, c, sub);
    SplitPlugged(a, roots, ts, free, comp, c, sub, leaf, newLeaf, moved);
    SplitWritten(a, roots, ts, free, comp, c, sub, leaf, newLeaf, moved, a', free');
    var t := Split(sub, leaf, newLeaf, moved);
    if leaf.Expiry() < Earliest(sub) {
      WalkUpOk(a, roots, ts, free, comp, c, sub, a', t, free', Earliest(sub), Earliest(sub));
    } else {
      ReplaceHole(a, roots, ts, free, comp, c, sub, a', t, free');
    }
  }

  lemma SplitShape(sub: Tree, leaf: LeafNode, newLeaf: nat, moved: nat)
    ensures Split(sub, leaf, newLeaf, moved).h == sub.h
  {
  }

  // ---------- removal ----------

  lemma MovedTree(t: Tree, h: nat)
    requires Separate(t) && WellFormed(t) && h !in Handles(t)
    ensures var u := Moved(t, h);
            && Separate(u) && WellFormed(u) && Orders(u) == Orders(t) && Tips(u) == Tips(t)
            && Handles(u) == Handles(t) - {t.h} + {h}
  {
  }

  lemma UnderFacts(ns: seq<AnyNode>, c: Context, tip: Tree)
    requires c.Under? && tip.Tip?
    requires RepresentsContext(ns, c, tip.h, Earliest(tip))
    requires ContextSeparate(c) && {tip.h} !! ContextHandles(c) && ContextWellFormed(c, {tip.leaf.key})
    ensures var sub := Join(c.h, c.prefixLen, c.key, c.bit, tip, c.sibling);
            && Plug(c, tip) == Plug(c.up, sub) && sub.h == c.h
            && Handles(sub) == {c.h, tip.h} + Handles(c.sibling)
            && Earliest(sub) == Min(tip.leaf.Expiry(), Earliest(c.sibling))
            && ContextOrders(c) == Orders(c.sibling) + ContextOrders(c.up)
            && ContextTips(c) == Tips(c.sibling) + ContextTips(c.up)
    ensures c.h !in Handles(c.sibling) && tip.h !in Handles(c.sibling) && tip.h != c.h
    ensures Represents(ns, c.sibling) && Separate(c.sibling) && WellFormed(c.sibling)
    ensures ContextWellFormed(c.up, {tip.leaf.key} + Orders(c.sibling).Keys)
  {
  }

  /** The subtree with one order fewer: the sibling takes the parent's cell. */
  lemma RemovePlugged(a: Arena, roots: Pair<OrderTreeRoot>, ts: Pair<Option<Tree>>, free: seq<nat>,
                      comp: Component, c: Context, tip: Tree)
    requires Inv(a, roots, ts, free) && ts.Get(comp) == Some(Plug(c, tip)) && tip.Tip? && c.Under?
    ensures var sub := Join(c.h, c.prefixLen, c.key, c.bit, tip, c.sibling);
            var t := Moved(c.sibling, c.h);
            && Plug(c, tip) == Plug(c.up, sub) && sub.h == c.h
            && WellFormed(t) && Separate(t) && ContextWellFormed(c.up, Orders(t).Keys)
            && Handles(sub) == {c.h, tip.h} + Handles(c.sibling)
            && Handles(t) == Handles(c.sibling) - {c.sibling.h} + {c.h}
            && c.h !in Handles(c.sibling) && tip.h !in Handles(c.sibling) && tip.h != c.h
            && Represents(a.nodes, c.sibling) && Separate(c.sibling)
            && Earliest(sub) == Min(tip.leaf.Expiry(), Earliest(c.sibling))
            && tip.leaf.key in Orders(Plug(c, tip)) && Orders(Plug(c, tip))[tip.leaf.key] == tip.leaf
            && Orders(t) + ContextOrders(c.up) == Orders(Plug(c, tip)) - {tip.leaf.key}
            && Tips(Plug(c.up, t)) == Tips(Plug(c, tip)) - 1
  {
    hide Inv, WellFormed, ArenaOk, AllHandles, Chained, ContextWellFormed, RepresentsContext, Represents, Separate, Plug,
         ContextSeparate, Handles, ContextHandles, ContextOrders, Orders, Earliest, Tips, StackOk, StackOf, ContextTips, Moved;
    HoleFacts(a, roots, ts, free, comp, c, tip);
    TipFacts(tip);
    assert Orders(tip).Keys == {tip.leaf.key};
    UnderFacts(a.nodes, c, tip);
    MovedTree(c.sibling, c.h);
    PlugTips(c, tip);
    PlugTips(c.up, Moved(c.sibling, c.h));
    ContextMonotone(c.up, {tip.leaf.key} + Orders(c.sibling).Keys, Orders(Moved(c.sibling, c.h)).Keys);
    assert ContextOrders(c) == Orders(Plug(c, tip)) - {tip.leaf.key};
  }

  lemma ReleaseTwice(a: Arena, used: set<nat>, free: seq<nat>, parent: nat, sibling: nat, tip: nat)
    requires ArenaOk(a, used, free) && {parent, sibling, tip} <= used
    requires parent != sibling && parent != tip && sibling != tip
    requires parent < |a.nodes| && sibling < |a.nodes| && tip < |a.nodes|
    ensures var a1 := Release(a, sibling);
            var a' := Release(a1.(nodes := a1.nodes[parent := a.nodes[sibling]]), tip);
            && |a'.nodes| == |a.nodes| && a'.nodes[parent] == a.nodes[sibling]
            && (forall h :: 0 <= h < |a.nodes| && h !in {parent, sibling, tip} ==> a'.nodes[h] == a.nodes[h])
            && ArenaOk(a', used - {sibling} - {tip}, [tip, sibling] + free)
  {
    hide ArenaOk;
    var a1 := Release(a, sibling);
    ReleaseOk(a, used, free, sibling);
    var a2 := a1.(nodes := a1.nodes[parent := a.nodes[sibling]]);
    OverwriteOk(a1, used - {sibling}, [sibling] + free, a2.nodes);
    ReleaseOk(a2, used - {sibling}, [sibling] + free, tip);
    assert [tip] + ([sibling] + free) == [tip, sibling] + free;
  }

  /** The cells after the sibling is copied over the parent and the two cells are given back. */
  lemma RemoveWritten(a: Arena, roots: Pair<OrderTreeRoot>, ts: Pair<Option<Tree>>, free: seq<nat>,
                      comp: Component, c: Context, tip: Tree)
    requires Inv(a, roots, ts, free) && ts.Get(comp) == Some(Plug(c, tip)) && tip.Tip? && c.Under?
    ensures c.sibling.h < |a.nodes| && c.h < |a.nodes| && tip.h < |a.nodes|
    ensures var a1 := Release(a, c.sibling.h);
            var a' := Release(a1.(nodes := a1.nodes[c.h := a.nodes[c.sibling.h]]), tip.h);
            var t := Moved(c.sibling, c.h);
            var other := HandlesOf(ts.Get(comp.Other()));
            && Represents(a'.nodes, t)
            && RepresentsContext(a'.nodes, c.up, c.h, Min(tip.leaf.Expiry(), Earliest(c.sibling)))
            && Handles(t) !! ContextHandles(c.up) && Handles(t) !! other
            && (forall h :: h in other && h < |a.nodes| ==> a'.nodes[h] == a.nodes[h])
            && ArenaOk(a', Handles(t) + ContextHandles(c.up) + other, [tip.h, c.sibling.h] + free)
  {
    hide Inv, WellFormed, ContextWellFormed, ArenaOk, AllHandles, Chained, Represents, Orders, ContextOrders, Tips, Plug,
         RepresentsContext, Separate, Handles, ContextHandles, Earliest, ContextSeparate, Release, Moved, StackOk;
    var sub := Join(c.h, c.prefixLen, c.key, c.bit, tip, c.sibling);
    RemovePlugged(a, roots, ts, free, comp, c, tip);
    HoleFacts(a, roots, ts, free, comp, c.up, sub);
    var used, other := AllHandles(ts), HandlesOf(ts.Get(comp.Other()));
    RepresentsInRange(a.nodes, c.sibling);
    RepresentsInRange(a.nodes, sub);
    RootInHandles(c.sibling);
    ReleaseTwice(a, used, free, c.h, c.sibling.h, tip.h);
    var a1 := Release(a, c.sibling.h);
    var a' := Release(a1.(nodes := a1.nodes[c.h := a.nodes[c.sibling.h]]), tip.h);
    MovedFacts(a.nodes, a'.nodes, c.sibling, c.h);
    RepresentsContextFrame(a.nodes, a'.nodes, c.up, c.h, Earliest(sub));
    assert used - {c.sibling.h} - {tip.h} == Handles(Moved(c.sibling, c.h)) + ContextHandles(c.up) + other;
  }

  lemma RemoveOk(a: Arena, roots: Pair<OrderTreeRoot>, ts: Pair<Option<Tree>>, free: seq<nat>,
                 comp: Component, c: Context, tip: Tree)
    requires Inv(a, roots, ts, free) && ts.Get(comp) == Some(Plug(c, tip)) && tip.Tip? && c.Under?
    ensures c.sibling.h < |a.nodes| && c.h < |a.nodes| && tip.h < |a.nodes|
    ensures var a1 := Release(a, c.sibling.h);
            var a' := Release(a1.(nodes := a1.nodes[c.h := a.nodes[c.sibling.h]]), tip.h);
            var u := Plug(c.up, Moved(c.sibling, c.h));
            var root := roots.Get(comp);
            && StackOk(a'.nodes, StackOf(c.up))
            && root.leafCount >= 1
            && Inv(a'.(nodes := UpdateExpiries(a'.nodes, StackOf(c.up), tip.leaf.Expiry(), Earliest(c.sibling))),
                   roots.With(comp, root.(leafCount := root.leafCount - 1)), ts.With(comp, Some(u)),
                   [tip.h, c.sibling.h] + free)
            && tip.leaf.key in OrdersOf(ts.Get(comp)) && OrdersOf(ts.Get(comp))[tip.leaf.key] == tip.leaf
            && Orders(u) == OrdersOf(ts.Get(comp)) - {tip.leaf.key}
  {
    hide Inv, WellFormed, ContextWellFormed, ArenaOk, AllHandles, Chained, Represents, Orders, ContextOrders, Tips,
         RepresentsContext, Separate, Handles, ContextHandles, Earliest, ContextSeparate, StackOk, UpdateExpiries, StackOf;
    var sub, t := Join(c.h, c.prefixLen, c.key, c.bit, tip, c.sibling), Moved(c.sibling, c.h);
    RemovePlugged(a, roots, ts, free, comp, c, tip);
    RemoveWritten(a, roots, ts, free, comp, c, tip);
    HoleFacts(a, roots, ts, free, comp, c.up, sub);
    var a1 := Release(a, c.sibling.h);
    var a' := Release(a1.(nodes := a1.nodes[c.h := a.nodes[c.sibling.h]]), tip.h);
    MovedEarliest(c.sibling, c.h);
    WalkUpOk(a, roots, ts, free, comp, c.up, sub, a', t, [tip.h, c.sibling.h] + free, Earliest(sub), tip.leaf.Expiry());
  }

  lemma MovedEarliest(t: Tree, h: nat)
    ensures Earliest(Moved(t, h)) == Earliest(t) && Moved(t, h).h == h
  {
  }

  /** Removing the only order of a tree. */
  lemma RemoveRootOk(a: Arena, roots: Pair<OrderTreeRoot>, ts: Pair<Option<Tree>>, free: seq<nat>,
                     comp: Component, tip: Tree)
    requires Inv(a, roots, ts, free) && ts.Get(comp) == Some(tip) && tip.Tip?
    ensures tip.h < |a.nodes| && roots.Get(comp).leafCount == 1
    ensures Inv(Release(a, tip.h), roots.With(comp, OrderTreeRoot(0, 0)), ts.With(comp, None), [tip.h] + free)
  {
    RootAlone(a, roots, ts, free, comp, tip);
    ReleasedElsewhere(a, tip.h);
    hide *;
    var other := HandlesOf(ts.Get(comp.Other()));
    ReleaseOk(a, AllHandles(ts), free, tip.h);
    NoRoot(Release(a, tip.h).nodes);
    assert AllHandles(ts) - {tip.h} == {} + other;
    ReplaceTree(a, roots, ts, free, comp, Release(a, tip.h), OrderTreeRoot(0, 0), None, [tip.h] + free);
  }

  lemma ReleasedElsewhere(a: Arena, h: nat)
    requires h < |a.nodes|
    ensures forall i :: 0 <= i < |a.nodes| && i != h ==> Release(a, h).nodes[i] == a.nodes[i]
  {
  }

  lemma NoRoot(ns: seq<AnyNode>)
    ensures RootOk(ns, OrderTreeRoot(0, 0), None) && HandlesOf(None) == {}
  {
  }

  /** A root that is a single leaf, beside the other tree. */
  lemma RootAlone(a: Arena, roots: Pair<OrderTreeRoot>, ts: Pair<Option<Tree>>, free: seq<nat>, comp: Component, tip: Tree)
    requires Inv(a, roots, ts, free) && ts.Get(comp) == Some(tip) && tip.Tip?
    ensures tip.h < |a.nodes| && roots.Get(comp).leafCount == 1
    ensures var other := HandlesOf(ts.Get(comp.Other()));
            AllHandles(ts) == {tip.h} + other && tip.h !in other && ArenaOk(a, AllHandles(ts), free)
  {
    hide WellFormed, ArenaOk, Orders, Separate, Earliest;
  }

  /** One step of a descent: what the cell under the hole holds, and what taking a side means. */
  lemma SubtreeFacts(a: Arena, roots: Pair<OrderTreeRoot>, ts: Pair<Option<Tree>>, free: seq<nat>,
                     comp: Component, c: Context, sub: Tree, k: nat)
    requires Inv(a, roots, ts, free) && ts.Get(comp) == Some(Plug(c, sub)) && k < KEY_SIZE
    ensures sub.h < |a.nodes|
    ensures sub.Tip? ==> a.nodes[sub.h] == Leaf(sub.leaf) && sub.leaf.key < KEY_SIZE
    ensures sub.Fork? ==>
              && a.nodes[sub.h] == InnerNode(sub.prefixLen, sub.key, sub.zero.h, sub.one.h,
                                             Earliest(sub.zero), Earliest(sub.one))
              && sub.key < KEY_SIZE && sub.prefixLen < KEY_BITS
              && (SharedPrefixLen(sub.key, k) >= sub.prefixLen ==>
                    OnSide(k, sub.prefixLen, sub.key, CritBit(k, sub.prefixLen)))
              && (forall bit :: Plug(Under(sub.h, sub.prefixLen, sub.key, bit, sub.Child(!bit), c), sub.Child(bit))
                             == Plug(c, sub))
              && (forall bit, q :: q in Orders(sub.Child(bit)) ==> OnSide(q, sub.prefixLen, sub.key, bit))
  {
    hide Inv, RepresentsContext, Separate, ContextWellFormed, ArenaOk, Handles, ContextHandles, ContextOrders, AllHandles,
         StackOk, StackOf, SharedPrefixLen, CritBit;
    HoleFacts(a, roots, ts, free, comp, c, sub);
    if sub.Fork? && SharedPrefixLen(sub.key, k) >= sub.prefixLen {
      SharedPrefixLenIsLongest(sub.key, k);
      PrefixShorter(sub.key, k, sub.prefixLen, SharedPrefixLen(sub.key, k));
    }
  }

  /** What the two allocations beside `sub` may bring. */
  lemma BesideFacts(a: Arena, roots: Pair<OrderTreeRoot>, ts: Pair<Option<Tree>>, free: seq<nat>,
                    comp: Component, c: Context, sub: Tree, leaf: LeafNode)
    requires Inv(a, roots, ts, free) && ts.Get(comp) == Some(Plug(c, sub)) && SplitPoint(c, sub, leaf.key)
    ensures sub.h < |a.nodes| && a.nodes[sub.h].InUse() && sub.h in AllHandles(ts)
    ensures a.nodes[sub.h].EarliestExpiry() == Earliest(sub)
    ensures a.nodes[sub.h].Key() == (if sub.Tip? then sub.leaf.key else sub.key)
    ensures SharedPrefixLen(a.nodes[sub.h].Key(), leaf.key) < KEY_BITS
    ensures leaf.key !in OrdersOf(ts.Get(comp)) && OrdersOf(ts.Get(comp)) != map[]
    ensures var r1 := Allocate(a, Leaf(leaf));
            && !r1.Broken?
            && (r1.OutOfSpace? <==> Available(a) == 0)
            && (r1.Allocated? ==>
                  && r1.handle < |a.nodes| && r1.handle !in AllHandles(ts) && r1.handle != sub.h
                  && r1.arena.nodes == a.nodes[r1.handle := Leaf(leaf)]
                  && Inv(Release(r1.arena, r1.handle), roots, ts, [r1.handle] + FreeAfterAllocate(free))
                  && var r2 := Allocate(r1.arena, a.nodes[sub.h]);
                  && !r2.Broken?
                  && (r2.OutOfSpace? <==> Available(a) == 1)
                  && (r2.Allocated? ==>
                        && r2.handle !in AllHandles(ts) && r1.handle != r2.handle && r2.handle < |a.nodes|
                        && r2.handle != sub.h
                        && r2.arena.nodes == a.nodes[r1.handle := Leaf(leaf)][r2.handle := a.nodes[sub.h]]
                        && r2.arena.bump == Max(a.bump, |AllHandles(ts)| + 2)
                        && ArenaOk(r2.arena, AllHandles(ts) + {r1.handle} + {r2.handle},
                                   FreeAfterAllocate(FreeAfterAllocate(free)))))
  {
    hide Inv, Represents, RepresentsContext, Separate, WellFormed, ContextWellFormed, ArenaOk, Plug, Handles, ContextHandles,
         Orders, ContextOrders, StackOf, StackOk, Earliest, Tips, Split, Admits, AllHandles, Allocate, FreeAfterAllocate,
         SharedPrefixLen, Release;
    HoleFacts(a, roots, ts, free, comp, c, sub);
    SubtreeFacts(a, roots, ts, free, comp, c, sub, leaf.key);
    SplitSides(sub, leaf.key);
    RootInHandles(sub);
    SecondAllocationFails(a, roots, ts, free, leaf);
    AllocateOk(a, AllHandles(ts), free, Leaf(leaf));
    OrdersHaveTheirKeys(Plug(c, sub));
    AbsentAtSplitPoint(a, roots, ts, free, comp, c, sub, leaf.key);
    if Allocate(a, Leaf(leaf)).Allocated? {
      AllocateTwice(a, AllHandles(ts), free, Leaf(leaf), a.nodes[sub.h]);
    }
  }

  lemma AbsentAtSplitPoint(a: Arena, roots: Pair<OrderTreeRoot>, ts: Pair<Option<Tree>>, free: seq<nat>,
                           comp: Component, c: Context, sub: Tree, k: nat)
    requires Inv(a, roots, ts, free) && ts.Get(comp) == Some(Plug(c, sub)) && SplitPoint(c, sub, k)
    ensures k !in Orders(Plug(c, sub))
  {
    hide Inv, Represents, RepresentsContext, Separate, ContextWellFormed, ArenaOk, Plug, Handles, ContextHandles,
         StackOf, StackOk, Earliest, Tips, Split, Admits, AllHandles, SharedPrefixLen, WellFormed, CritBit;
    HoleFacts(a, roots, ts, free, comp, c, sub);
    SplitSides(sub, k);
    var n := SharedPrefixLen(if sub.Tip? then sub.leaf.key else sub.key, k);
    SidesDisjoint(Orders(sub).Keys, {k}, n, k, !CritBit(k, n));
    AdmittedIsNotAround(c, Orders(sub).Keys, k);
  }

  /** One more order, or another one under the same key, is map insertion. */
  lemma InsertedModel(a: Arena, ts: Pair<Option<Tree>>, comp: Component, leaf: LeafNode, a': Arena, u: Tree)
    requires |a'.nodes| == |a.nodes|
    requires var was := ModelOf(a, ts);
             && was.Demand(comp, leaf.key) <= was.Available()
             && Orders(u) == OrdersOf(ts.Get(comp))[leaf.key := leaf]
             && a'.bump == (var n := was.Demand(comp, leaf.key);
                            if n == 0 then a.bump else Max(a.bump, was.UsedCells() + n))
    ensures ModelOf(a, ts).Insert(comp, leaf) == Ok(ModelOf(a', ts.With(comp, Some(u))))
  {
    hide *;
    ModelWith(a, ts, comp, a', u);
    ModelOfGet(a, ts, comp);
    InsertIs(ModelOf(a, ts), comp, leaf);
  }

  lemma InsertIs(m: BookSideModel, comp: Component, leaf: LeafNode)
    requires m.Demand(comp, leaf.key) <= m.Available()
    ensures var n := m.Demand(comp, leaf.key);
            m.Insert(comp, leaf)
            == Ok(m.With(comp, m.Get(comp)[leaf.key := leaf]).(bump := if n == 0 then m.bump else Max(m.bump, m.UsedCells() + n)))
  {
  }

  lemma ModelWith(a: Arena, ts: Pair<Option<Tree>>, comp: Component, a': Arena, u: Tree)
    requires |a'.nodes| == |a.nodes|
    ensures ModelOf(a', ts.With(comp, Some(u))) == ModelOf(a, ts).With(comp, Orders(u)).(bump := a'.bump)
  {
    hide Orders;
  }

  lemma RootModel(a: Arena, ts: Pair<Option<Tree>>, comp: Component, leaf: LeafNode, a': Arena, u: Tree)
    requires |a'.nodes| == |a.nodes| && ts.Get(comp).None? && u.Tip? && u.leaf == leaf
    requires ModelOf(a, ts).Available() >= 0
    ensures ModelOf(a, ts).Available() == 0 ==>
              && ModelOf(a, ts).Insert(comp, leaf) == Err(SomeError)
              && ModelOf(a', ts).fixed == ModelOf(a, ts).fixed && ModelOf(a', ts).pegged == ModelOf(a, ts).pegged
    ensures ModelOf(a, ts).Available() > 0 && a'.bump == Max(a.bump, ModelOf(a, ts).UsedCells() + 1) ==>
              ModelOf(a, ts).Insert(comp, leaf) == Ok(ModelOf(a', ts.With(comp, Some(u))))
    ensures leaf.key !in ModelOf(a, ts).Get(comp)
  {
    if ModelOf(a, ts).Available() > 0 && a'.bump == Max(a.bump, ModelOf(a, ts).UsedCells() + 1) {
      InsertedModel(a, ts, comp, leaf, a', u);
    }
  }

  lemma ModelOfGet(a: Arena, ts: Pair<Option<Tree>>, comp: Component)
    ensures ModelOf(a, ts).Get(comp) == OrdersOf(ts.Get(comp)) && ModelOf(a, ts).capacity == |a.nodes|
    ensures ModelOf(a, ts).bump == a.bump
  {
  }

  lemma ClobberedModel(a: Arena, ts: Pair<Option<Tree>>, comp: Component, c: Context, sub: Tree, leaf: LeafNode, a': Arena, u: Tree)
    requires sub.Tip? && sub.leaf.key == leaf.key
    requires |a'.nodes| == |a.nodes| && a'.bump == a.bump
    requires OrdersOf(ts.Get(comp)) == map[leaf.key := sub.leaf] + ContextOrders(c)
    requires leaf.key !in ContextOrders(c)
    requires Orders(u) == map[leaf.key := leaf] + ContextOrders(c)
    requires ModelOf(a, ts).UsedCells() <= |a.nodes|
    ensures ModelOf(a, ts).Insert(comp, leaf) == Ok(ModelOf(a', ts.With(comp, Some(u))))
    ensures leaf.key in ModelOf(a, ts).Get(comp) && ModelOf(a, ts).Get(comp)[leaf.key] == sub.leaf
  {
    hide *;
    ModelOfGet(a, ts, comp);
    ClobberedMap(ContextOrders(c), sub.leaf, leaf);
    InsertedModel(a, ts, comp, leaf, a', u) by {
      KeyDemand(ModelOf(a, ts), comp, leaf.key);
    }
  }

  lemma ClobberedMap(m: map<nat, LeafNode>, was: LeafNode, leaf: LeafNode)
    requires was.key == leaf.key && leaf.key !in m
    ensures (map[leaf.key := was] + m)[leaf.key := leaf] == map[leaf.key := leaf] + m
    ensures leaf.key in map[leaf.key := was] + m && (map[leaf.key := was] + m)[leaf.key] == was
  {
  }

  lemma KeyDemand(m: BookSideModel, comp: Component, key: nat)
    ensures key in m.Get(comp) ==> m.Demand(comp, key) == 0
    ensures m.UsedCells() <= m.capacity ==> 0 <= m.Available()
  {
  }

  lemma BesideModel(a: Arena, ts: Pair<Option<Tree>>, comp: Component, leaf: LeafNode, a': Arena, u: Tree)
    requires |a'.nodes| == |a.nodes|
    requires leaf.key !in OrdersOf(ts.Get(comp)) && OrdersOf(ts.Get(comp)) != map[]
    requires Orders(u) == OrdersOf(ts.Get(comp))[leaf.key := leaf]
    requires ModelOf(a, ts).Available() >= 2
    requires a'.bump == Max(a.bump, ModelOf(a, ts).UsedCells() + 2)
    ensures ModelOf(a, ts).Insert(comp, leaf) == Ok(ModelOf(a', ts.With(comp, Some(u))))
    ensures leaf.key !in ModelOf(a, ts).Get(comp)
  {
    hide Orders;
    InsertedModel(a, ts, comp, leaf, a', u);
  }

  lemma BesideFails(a: Arena, ts: Pair<Option<Tree>>, comp: Component, leaf: LeafNode, a': Arena)
    requires leaf.key !in OrdersOf(ts.Get(comp)) && OrdersOf(ts.Get(comp)) != map[]
    requires ModelOf(a, ts).Available() < 2
    ensures ModelOf(a, ts).Insert(comp, leaf) == Err(SomeError)
    ensures ModelOf(a', ts).fixed == ModelOf(a, ts).fixed && ModelOf(a', ts).pegged == ModelOf(a, ts).pegged
  {
  }

  lemma NoOrders(t: Option<Tree>)
    requires t.None?
    ensures OrdersOf(t) == map[]
  {
  }

  lemma PlugTop(t: Tree)
    ensures Plug(Top, t) == t
  {
  }

  lemma RootTip(a: Arena, roots: Pair<OrderTreeRoot>, ts: Pair<Option<Tree>>, free: seq<nat>, comp: Component, tip: Tree)
    requires Inv(a, roots, ts, free) && ts.Get(comp) == Some(tip) && tip.Tip?
    ensures tip.h < |a.nodes| && a.nodes[tip.h] == Leaf(tip.leaf)
  {
  }

  /** What stands at the end of a search: the order under the key, if the tree has one. */
  lemma HoleLeaf(a: Arena, roots: Pair<OrderTreeRoot>, ts: Pair<Option<Tree>>, free: seq<nat>,
                 comp: Component, c: Context, tip: Tree, key: nat)
    requires Inv(a, roots, ts, free) && ts.Get(comp) == Some(Plug(c, tip)) && tip.Tip?
    requires key in Orders(Plug(c, tip)) ==> key in Orders(tip)
    ensures tip.h < |a.nodes| && a.nodes[tip.h] == Leaf(tip.leaf)
    ensures key in OrdersOf(ts.Get(comp)) <==> key == tip.leaf.key
    ensures c.Top? ==> Plug(c, tip) == tip
  {
    hide Inv;
    HoleFacts(a, roots, ts, free, comp, c, tip);
    TipFacts(tip);
    TipRepresents(a.nodes, tip);
  }

  lemma UnlinkFacts(a: Arena, roots: Pair<OrderTreeRoot>, ts: Pair<Option<Tree>>, free: seq<nat>,
                    comp: Component, c: Context, tip: Tree)
    requires Inv(a, roots, ts, free) && ts.Get(comp) == Some(Plug(c, tip)) && tip.Tip? && c.Under?
    ensures c.h < |a.nodes| && a.nodes[c.h].InnerNode? && a.nodes[c.h].Child(!c.bit) == c.sibling.h
    ensures tip.h < |a.nodes| && a.nodes[tip.h] == Leaf(tip.leaf) && tip.h != c.h && tip.h != c.sibling.h
    ensures c.sibling.h < |a.nodes| && c.sibling.h != c.h
    ensures a.nodes[c.sibling.h].InUse() && a.nodes[c.sibling.h].EarliestExpiry() == Earliest(c.sibling)
  {
    hide Inv, Represents, Separate, WellFormed, ArenaOk, Plug, Handles, Orders, Earliest, AllHandles;
    HoleFacts(a, roots, ts, free, comp, c, tip);
    RemovePlugged(a, roots, ts, free, comp, c, tip);
    RootInHandles(c.sibling);
    RepresentsInRange(a.nodes, c.sibling);
    TipRepresents(a.nodes, tip);
  }

  lemma RemovedModel(a: Arena, ts: Pair<Option<Tree>>, comp: Component, key: nat, a': Arena, u: Tree)
    requires |a'.nodes| == |a.nodes| && a'.bump == a.bump
    requires Orders(u) == OrdersOf(ts.Get(comp)) - {key}
    ensures ModelOf(a', ts.With(comp, Some(u))) == ModelOf(a, ts).Remove(comp, key)
  {
  }

  // ---------- searches ----------

  lemma RootFacts(a: Arena, roots: Pair<OrderTreeRoot>, ts: Pair<Option<Tree>>, free: seq<nat>, comp: Component)
    requires Inv(a, roots, ts, free) && ts.Get(comp).Some?
    ensures var t := ts.Get(comp).value;
            && roots.Get(comp) == OrderTreeRoot(t.h, Tips(t))
            && Represents(a.nodes, t) && WellFormed(t) && Separate(t)
            && OrdersOf(ts.Get(comp)) == Orders(t) && Orders(t) != map[]
  {
    OrdersHaveTheirKeys(ts.Get(comp).value);
  }

  lemma {:induction false} WellFormedKeys(t: Tree)
    requires WellFormed(t)
    ensures forall k :: k in Orders(t) ==> k < KEY_SIZE
  {
    if t.Fork? {
      WellFormedKeys(t.zero);
      WellFormedKeys(t.one);
    }
  }

  lemma FirstToExpireUnique(orders: map<nat, LeafNode>, k: nat)
    requires ExpiresFirst(orders, k)
    ensures orders != map[] && FirstToExpire(orders) == k
  {
    var q := FirstToExpire(orders);
    assert ExpiresFirst(orders, q);
  }

  lemma FirstToExpireIn(orders: map<nat, LeafNode>)
    requires orders != map[]
    ensures FirstToExpire(orders) in orders
  {
  }

  lemma WorstIn(m: BookSideModel, side: Side, now: int, oracle: Option<int>)
    requires KeysMatch(m.fixed) && KeysMatch(m.pegged)
    ensures match WorstItem(m, side, now, oracle)
            case None => true
            case Some(item) => item.leaf.key in m.Get(item.comp) && m.Get(item.comp)[item.leaf.key] == item.leaf
  {
  }

  // ---------- changing a quantity through a handle ----------

  /** Handle `h` is the cell of the order under `k` in that tree. */
  ghost predicate HandleOf(ts: Pair<Option<Tree>>, comp: Component, h: nat, k: nat) {
    ts.Get(comp).Some? && TipAt(ts.Get(comp).value, h, k)
  }

  lemma RequantifyOk(a: Arena, roots: Pair<OrderTreeRoot>, ts: Pair<Option<Tree>>, free: seq<nat>,
                     comp: Component, c: Context, tip: Tree, quantity: int)
    requires Inv(a, roots, ts, free) && ts.Get(comp) == Some(Plug(c, tip)) && tip.Tip?
    ensures var leaf := tip.leaf.(quantity := quantity);
            var orders := OrdersOf(ts.Get(comp));
            && tip.h < |a.nodes| && a.nodes[tip.h] == Leaf(tip.leaf)
            && Inv(a.(nodes := a.nodes[tip.h := Leaf(leaf)]), roots, ts.With(comp, Some(Plug(c, Tip(tip.h, leaf)))), free)
            && leaf.key in orders && orders[leaf.key] == tip.leaf
            && Orders(Plug(c, Tip(tip.h, leaf))) == orders[leaf.key := leaf]
  {
    hide *;
    var leaf := tip.leaf.(quantity := quantity);
    OverwrittenTip(a, roots, ts, free, comp, c, tip, leaf);
    var ns, tip' := a.nodes[tip.h := Leaf(leaf)], Tip(tip.h, leaf);
    SameExpiry(tip.leaf, quantity);
    TipFacts(tip');
    ReplaceHole(a, roots, ts, free, comp, c, tip, a.(nodes := ns), tip', free);
    SameRoot(a, roots, ts, free, comp, c, tip, tip');
    ClobberedMap(ContextOrders(c), tip.leaf, leaf);
  }

  lemma SameExpiry(leaf: LeafNode, quantity: int)
    ensures leaf.(quantity := quantity).Expiry() == leaf.Expiry()
  {
  }

  lemma HandlesKept(ts: Pair<Option<Tree>>, comp: Component, c: Context, tip: Tree, leaf: LeafNode)
    requires ts.Get(comp) == Some(Plug(c, tip)) && tip.Tip? && tip.leaf.key == leaf.key
    ensures forall d, h, k :: HandleOf(ts, d, h, k) ==> HandleOf(ts.With(comp, Some(Plug(c, Tip(tip.h, leaf)))), d, h, k)
  {
    forall d, h, k | HandleOf(ts, d, h, k)
      ensures HandleOf(ts.With(comp, Some(Plug(c, Tip(tip.h, leaf)))), d, h, k)
    {
      TipAtFrame(c, tip, Tip(tip.h, leaf), h, k);
    }
  }

  lemma RequantifiedModel(a: Arena, ts: Pair<Option<Tree>>, comp: Component, key: nat, leaf: LeafNode, a': Arena, u: Tree)
    requires |a'.nodes| == |a.nodes| && a'.bump == a.bump && leaf.key == key
    requires key in OrdersOf(ts.Get(comp)) && leaf == OrdersOf(ts.Get(comp))[key].(quantity := leaf.quantity)
    requires Orders(u) == OrdersOf(ts.Get(comp))[key := leaf]
    ensures key in ModelOf(a, ts).Get(comp)
    ensures ModelOf(a', ts.With(comp, Some(u))) == ModelOf(a, ts).WithQuantity(comp, key, leaf.quantity)
  {
  }
}
