/** One side of the order book: two crit-bit trees over one node array, updated in place. */
module BookSides {
  import opened Types
  import opened Keys
  import opened Trees
  import opened TreeWalks
  import opened Rankings
  import opened Prices
  import opened Arenas
  import opened BookSideModels
  import opened BookSideCells

  class BookSide {
    const side: Side
    const nodes: array<AnyNode>
    var roots: Pair<OrderTreeRoot>
    var bumpIndex: nat
    var freeListLen: nat
    var freeListHead: nat
    ghost var trees: Pair<Option<Tree>>
    ghost var freeChain: seq<nat>

    constructor (side: Side, capacity: nat)
      requires 1 <= capacity <= U32_MAX
      ensures Valid() && fresh(this) && fresh(nodes)
      ensures this.side == side
      ensures Model() == BookSideModel(map[], map[], 0, capacity)
    {
      this.side := side;
      nodes := new AnyNode[capacity](_ => Uninitialized);
      roots := Pair(OrderTreeRoot(0, 0), OrderTreeRoot(0, 0));
      bumpIndex, freeListLen, freeListHead := 0, 0, 0;
      trees, freeChain := Pair(None, None), [];
    }

    /** The side as another one is now, in memory of its own. */
    constructor Copy(from: BookSide)
      requires from.Valid()
      ensures Valid() && fresh(this) && fresh(nodes)
      ensures side == from.side && Model() == from.Model()
    {
      hide Inv, ModelOf;
      side := from.side;
      var cells := from.nodes[..];
      nodes := new AnyNode[|cells|](i requires 0 <= i < |cells| => cells[i]);
      roots, bumpIndex, freeListLen, freeListHead := from.roots, from.bumpIndex, from.freeListLen, from.freeListHead;
      trees, freeChain := from.trees, from.freeChain;
      new;
      assert nodes[..] == from.nodes[..];
    }

    ghost function A(): Arena
      reads this, nodes
    {
      Arena(nodes[..], bumpIndex, freeListLen, freeListHead)
    }

    ghost predicate Valid()
      reads this, nodes
    {
      Inv(A(), roots, trees, freeChain)
    }

    /** The two maps that the arena stands for. */
    ghost function Model(): BookSideModel
      reads this, nodes
    {
      ModelOf(A(), trees)
    }

    /** Takes a cell: from the free list, or beyond the bump index. */
    method Insert(val: AnyNode) returns (r: Option<nat>)
      requires val.InUse()
      requires !Allocate(A(), val).Broken?
      modifies this`bumpIndex, this`freeListLen, this`freeListHead, nodes
      ensures match old(Allocate(A(), val))
              case Allocated(a, h) => r == Some(h) && A() == a
              case OutOfSpace => r == None && A() == old(A())
              case Broken => false
    {
      if freeListLen == 0 {
        if bumpIndex < nodes.Length && bumpIndex < U32_MAX {
          nodes[bumpIndex] := val;
          bumpIndex := bumpIndex + 1;
          return Some(bumpIndex - 1);
        }
        return None;
      }
      var key := freeListHead;
      freeListHead := nodes[key].next;
      freeListLen := freeListLen - 1;
      nodes[key] := val;
      return Some(key);
    }

    /** Gives a cell back. */
    method Remove(key: nat) returns (val: AnyNode)
      requires key < nodes.Length
      modifies this`freeListLen, this`freeListHead, nodes
      ensures A() == old(Release(A(), key)) && val == old(nodes[key])
    {
      val := nodes[key];
      nodes[key] := if freeListLen == 0 then LastFreeNode(freeListHead) else FreeNode(freeListHead);
      freeListLen := freeListLen + 1;
      freeListHead := key;
    }

    /** Walks up the path `stack` and replaces the outdated cached expiries. */
    method UpdateParentEarliestExpiry(stack: seq<(nat, bool)>, outdatedExpiry: int, newExpiry: int)
      requires StackOk(nodes[..], stack)
      modifies nodes
      ensures nodes[..] == old(UpdateExpiries(nodes[..], stack, outdatedExpiry, newExpiry))
    {
      var outdated, fresh' := outdatedExpiry, newExpiry;
      var i := |stack|;
      assert stack[..i] == stack;
      while i > 0
        invariant 0 <= i <= |stack|
        invariant StackOk(nodes[..], stack[..i])
        invariant UpdateExpiries(nodes[..], stack[..i], outdated, fresh')
               == old(UpdateExpiries(nodes[..], stack, outdatedExpiry, newExpiry))
      {
        var (h, bit) := stack[i - 1];
        assert stack[..i][..i - 1] == stack[..i - 1];
        if nodes[h].ChildExpiry(bit) != outdated {
          break;
        }
        outdated := nodes[h].EarliestExpiry();
        nodes[h] := nodes[h].WithChildExpiry(bit, fresh');
        fresh' := nodes[h].EarliestExpiry();
        i := i - 1;
      }
    }

    /** Walks down to where an order under `key` belongs, collecting the path. */
    method FindInsertPoint(comp: Component, key: nat)
        returns (parent: nat, stack: seq<(nat, bool)>, ghost c: Context, ghost sub: Tree)
      requires Valid() && trees.Get(comp).Some? && key < KEY_SIZE
      ensures trees.Get(comp) == Some(Plug(c, sub)) && parent == sub.h && stack == StackOf(c) && Admits(c, key)
      ensures (sub.Tip? && sub.leaf.key == key) || SplitPoint(c, sub, key)
    {
      parent, stack, c, sub := roots.Get(comp).maybeNode, [], Top, trees.Get(comp).value;
      while true
        invariant trees.Get(comp) == Some(Plug(c, sub)) && parent == sub.h && stack == StackOf(c) && Admits(c, key)
        decreases sub
      {
        SubtreeFacts(A(), roots, trees, freeChain, comp, c, sub, key);
        var contents := nodes[parent];
        if contents.Leaf? {
          return;
        }
        var sharedPrefixLen := SharedPrefixLen(contents.Key(), key);
        if sharedPrefixLen < contents.prefixLen {
          return;
        }
        var critBit := CritBit(key, contents.prefixLen);
        stack := stack + [(parent, critBit)];
        parent := contents.Child(critBit);
        c := Under(sub.h, sub.prefixLen, sub.key, critBit, sub.Child(!critBit), c);
        sub := sub.Child(critBit);
      }
    }

    /** What an insertion leaves behind: map insertion, or both maps as they were. */
    ghost predicate InsertResult(was: BookSideModel, comp: Component, leaf: LeafNode, r: Result<(nat, Option<LeafNode>)>)
      reads this, nodes
    {
      match was.Insert(comp, leaf)
      case Ok(m) =>
        && Model() == m && r.Ok?
        && r.value.1 == (if leaf.key in was.Get(comp) then Some(was.Get(comp)[leaf.key]) else None)
      case Err(e) =>
        && r == Err(e) && Model().fixed == was.fixed && Model().pegged == was.pegged
    }

    method InsertLeaf(comp: Component, leaf: LeafNode) returns (r: Result<(nat, Option<LeafNode>)>)
      requires Valid() && leaf.key < KEY_SIZE
      modifies this, nodes
      ensures Valid()
      ensures InsertResult(old(Model()), comp, leaf, r)
    {
      hide Inv, Plug, SplitPoint, ModelOf, InsertResult, Orders, OrdersOf, Admits, StackOf;
      CellAccounting(A(), roots, trees, freeChain);
      if roots.Get(comp).leafCount == 0 {
        r := InsertRoot(comp, leaf);
        return;
      }
      var parent, stack;
      ghost var c, sub;
      parent, stack, c, sub := FindInsertPoint(comp, leaf.key);
      SubtreeFacts(A(), roots, trees, freeChain, comp, c, sub, leaf.key);
      if nodes[parent].Leaf? && nodes[parent].leaf.key == leaf.key {
        r := Clobber(comp, leaf, parent, stack, c, sub);
      } else {
        r := InsertBeside(comp, leaf, parent, stack, c, sub);
      }
    }

    method InsertRoot(comp: Component, leaf: LeafNode) returns (r: Result<(nat, Option<LeafNode>)>)
      requires Valid() && leaf.key < KEY_SIZE && trees.Get(comp).None?
      modifies this, nodes
      ensures Valid()
      ensures InsertResult(old(Model()), comp, leaf, r)
    {
      hide Inv, Orders, ModelOf, FreeAfterAllocate;
      ghost var a0, ts0 := A(), trees;
      CellAccounting(a0, roots, trees, freeChain);
      InsertRootOk(a0, roots, trees, freeChain, comp, leaf);
      var h := Insert(Leaf(leaf));
      if h.None? {
        RootModel(a0, ts0, comp, leaf, A(), Tip(0, leaf));
        return Err(SomeError);
      }
      roots := roots.With(comp, OrderTreeRoot(h.value, 1));
      trees, freeChain := trees.With(comp, Some(Tip(h.value, leaf))), FreeAfterAllocate(freeChain);
      r := Ok((h.value, None));
      RootModel(a0, ts0, comp, leaf, A(), Tip(h.value, leaf));
    }

    method Clobber(comp: Component, leaf: LeafNode, parent: nat, stack: seq<(nat, bool)>, ghost c: Context, ghost sub: Tree)
        returns (r: Result<(nat, Option<LeafNode>)>)
      requires Valid() && trees.Get(comp) == Some(Plug(c, sub)) && parent == sub.h && stack == StackOf(c)
      requires sub.Tip? && sub.leaf.key == leaf.key && leaf.key < KEY_SIZE
      modifies this, nodes
      ensures Valid()
      ensures InsertResult(old(Model()), comp, leaf, r)
    {
      hide Inv, Plug, UpdateExpiries, StackOk, StackOf, Orders, ContextOrders, ModelOf;
      ghost var a0, ts0 := A(), trees;
      CellAccounting(a0, roots, ts0, freeChain);
      ClobberOk(A(), roots, trees, freeChain, comp, c, sub, leaf);
      SubtreeFacts(A(), roots, trees, freeChain, comp, c, sub, leaf.key);
      var oldLeaf := nodes[parent].leaf;
      nodes[parent] := Leaf(leaf);
      UpdateParentEarliestExpiry(stack, oldLeaf.Expiry(), leaf.Expiry());
      trees := trees.With(comp, Some(Plug(c, Tip(sub.h, leaf))));
      r := Ok((parent, Some(oldLeaf)));
      ClobberedModel(a0, ts0, comp, c, sub, leaf, A(), Plug(c, Tip(sub.h, leaf)));
    }

    method InsertBeside(comp: Component, leaf: LeafNode, parent: nat, stack: seq<(nat, bool)>, ghost c: Context, ghost sub: Tree)
        returns (r: Result<(nat, Option<LeafNode>)>)
      requires Valid() && trees.Get(comp) == Some(Plug(c, sub)) && parent == sub.h && stack == StackOf(c)
      requires SplitPoint(c, sub, leaf.key)
      modifies this, nodes
      ensures Valid()
      ensures InsertResult(old(Model()), comp, leaf, r)
    {
      hide Inv, Plug, Split, SplitPoint, UpdateExpiries, ArenaOk, StackOk, StackOf, AllHandles, ModelOf, Orders, OrdersOf,
           SharedPrefixLen, CritBit, Earliest, FreeAfterAllocate, Allocate, Release;
      ghost var a0, ts0 := A(), trees;
      CellAccounting(a0, roots, trees, freeChain);
      BesideFacts(a0, roots, trees, freeChain, comp, c, sub, leaf);
      var contents := nodes[parent];
      var newLeafHandle := Insert(Leaf(leaf));
      if newLeafHandle.None? {
        BesideFails(a0, ts0, comp, leaf, A());
        return Err(SomeError);
      }
      var movedParentHandle := Insert(contents);
      if movedParentHandle.None? {
        var _ := Remove(newLeafHandle.value);
        freeChain := [newLeafHandle.value] + FreeAfterAllocate(freeChain);
        BesideFails(a0, ts0, comp, leaf, A());
        return Err(SomeError);
      }
      LinkBeside(comp, leaf, parent, stack, contents, newLeafHandle.value, movedParentHandle.value, c, sub, a0);
      r := Ok((newLeafHandle.value, None));
      BesideModel(a0, ts0, comp, leaf, A(), trees.Get(comp).value);
    }

    /** Overwrites the old parent with the inner node above it and the new order. */
    method LinkBeside(comp: Component, leaf: LeafNode, parent: nat, stack: seq<(nat, bool)>, contents: AnyNode,
                      newLeafHandle: nat, movedParentHandle: nat, ghost c: Context, ghost sub: Tree, ghost a0: Arena)
      requires Inv(a0, roots, trees, freeChain) && trees.Get(comp) == Some(Plug(c, sub))
      requires parent == sub.h && stack == StackOf(c) && SplitPoint(c, sub, leaf.key)
      requires newLeafHandle !in AllHandles(trees) && movedParentHandle !in AllHandles(trees)
      requires newLeafHandle != movedParentHandle && newLeafHandle < |a0.nodes| && movedParentHandle < |a0.nodes|
      requires sub.h < |a0.nodes| && contents == a0.nodes[sub.h] && sub.h in AllHandles(trees)
      requires contents.InUse() && contents.EarliestExpiry() == Earliest(sub)
      requires contents.Key() == (if sub.Tip? then sub.leaf.key else sub.key)
      requires SharedPrefixLen(contents.Key(), leaf.key) < KEY_BITS
      requires nodes[..] == a0.nodes[newLeafHandle := Leaf(leaf)][movedParentHandle := contents]
      requires ArenaOk(A(), AllHandles(trees) + {newLeafHandle} + {movedParentHandle},
                       FreeAfterAllocate(FreeAfterAllocate(freeChain)))
      modifies this`roots, this`trees, this`freeChain, nodes
      ensures Valid()
      ensures bumpIndex == old(bumpIndex)
      ensures trees == old(trees).With(comp, Some(Plug(c, Split(sub, leaf, newLeafHandle, movedParentHandle))))
      ensures Orders(trees.Get(comp).value) == OrdersOf(old(trees).Get(comp))[leaf.key := leaf]
    {
      hide Inv, Plug, Split, SplitPoint, UpdateExpiries, ArenaOk, StackOk, StackOf, AllHandles, ModelOf, Orders, OrdersOf,
           SharedPrefixLen, CritBit, Earliest, FreeAfterAllocate;
      var sharedPrefixLen := SharedPrefixLen(contents.Key(), leaf.key);
      var critBit := CritBit(leaf.key, sharedPrefixLen);
      var e := contents.EarliestExpiry();
      ghost var a2, free' := A(), FreeAfterAllocate(FreeAfterAllocate(freeChain));
      nodes[parent] := JoinNode(sharedPrefixLen, leaf.key, critBit, newLeafHandle, movedParentHandle, leaf.Expiry(), e);
      OverwriteOk(a2, AllHandles(trees) + {newLeafHandle} + {movedParentHandle}, free', A().nodes);
      SplitOk(a0, roots, trees, freeChain, comp, c, sub, leaf, newLeafHandle, movedParentHandle, A(), free');
      if leaf.Expiry() < e {
        UpdateParentEarliestExpiry(stack, e, leaf.Expiry());
      }
      roots := roots.With(comp, roots.Get(comp).(leafCount := roots.Get(comp).leafCount + 1));
      trees := trees.With(comp, Some(Plug(c, Split(sub, leaf, newLeafHandle, movedParentHandle))));
      freeChain := free';
    }

    /** The order under `key`, out of its tree; nothing if there is none. */
    method RemoveByKey(comp: Component, key: nat) returns (r: Option<LeafNode>)
      requires Valid() && key < KEY_SIZE
      modifies this, nodes
      ensures Valid()
      ensures var was := old(Model());
              if key in was.Get(comp) then r == Some(was.Get(comp)[key]) && Model() == was.Remove(comp, key)
              else r == None && Model() == was
    {
      hide Inv, Plug, ModelOf, Orders, OrdersOf, StackOf;
      CellAccounting(A(), roots, trees, freeChain);
      ModelOfGet(A(), trees, comp);
      if roots.Get(comp).leafCount == 0 {
        NoOrders(trees.Get(comp));
        return None;
      }
      var parent, child, critBit, stack;
      ghost var c, sub;
      child, parent, critBit, stack, c, sub := FindLeaf(comp, key);
      HoleLeaf(A(), roots, trees, freeChain, comp, c, sub, key);
      if nodes[child].leaf.key != key {
        return None;
      }
      if stack == [] {
        r := RemoveRoot(comp, child, sub);
      } else {
        r := Unlink(comp, parent, child, critBit, stack, c, sub);
      }
    }

    /** Walks down to the only order that may be under `key`, collecting the path. */
    method FindLeaf(comp: Component, key: nat)
        returns (child: nat, parent: nat, critBit: bool, stack: seq<(nat, bool)>, ghost c: Context, ghost sub: Tree)
      requires Valid() && trees.Get(comp).Some? && key < KEY_SIZE
      ensures trees.Get(comp) == Some(Plug(c, sub)) && child == sub.h && stack == StackOf(c) && sub.Tip?
      ensures c.Under? ==> parent == c.h && critBit == c.bit
      ensures stack == [] <==> c.Top?
      ensures key in Orders(Plug(c, sub)) ==> key in Orders(sub)
    {
      hide Inv, Plug, ModelOf;
      child, parent, critBit, stack, c, sub := roots.Get(comp).maybeNode, 0, false, [], Top, trees.Get(comp).value;
      HoleFacts(A(), roots, trees, freeChain, comp, c, sub) by { PlugTop(sub); }
      PlugTop(sub);
      while true
        invariant trees.Get(comp) == Some(Plug(c, sub)) && child == sub.h && stack == StackOf(c)
        invariant c.Under? ==> parent == c.h && critBit == c.bit
        invariant stack == [] <==> c.Top?
        invariant key in Orders(Plug(c, sub)) ==> key in Orders(sub)
        decreases sub
      {
        SubtreeFacts(A(), roots, trees, freeChain, comp, c, sub, key);
        var contents := nodes[child];
        if contents.Leaf? {
          return;
        }
        var bit := CritBit(key, contents.prefixLen);
        assert key in Orders(sub.Child(!bit)) ==> OnSide(key, sub.prefixLen, sub.key, !bit);
        parent, child, critBit := child, contents.Child(bit), bit;
        stack := stack + [(parent, bit)];
        c := Under(sub.h, sub.prefixLen, sub.key, bit, sub.Child(!bit), c);
        sub := sub.Child(bit);
      }
    }

    method RemoveRoot(comp: Component, child: nat, ghost tip: Tree) returns (r: Option<LeafNode>)
      requires Valid() && trees.Get(comp) == Some(tip) && tip.Tip? && child == tip.h
      modifies this, nodes
      ensures Valid()
      ensures tip.leaf.key in old(Model()).Get(comp) && r == Some(old(Model()).Get(comp)[tip.leaf.key])
      ensures Model() == old(Model()).Remove(comp, tip.leaf.key)
    {
      hide Inv;
      ghost var a0, ts0 := A(), trees;
      RemoveRootOk(A(), roots, trees, freeChain, comp, tip);
      RootTip(A(), roots, trees, freeChain, comp, tip);
      var contents := Remove(child);
      roots := roots.With(comp, OrderTreeRoot(0, 0));
      trees, freeChain := trees.With(comp, None), [child] + freeChain;
      r := Some(contents.leaf);
      assert Orders(tip) - {tip.leaf.key} == map[];
    }

    /** Replaces the parent of a leaf by the leaf's sibling and gives both cells back. */
    method Unlink(comp: Component, parent: nat, child: nat, critBit: bool, stack: seq<(nat, bool)>,
                  ghost c: Context, ghost tip: Tree) returns (r: Option<LeafNode>)
      requires Valid() && trees.Get(comp) == Some(Plug(c, tip)) && tip.Tip? && child == tip.h
      requires c.Under? && parent == c.h && critBit == c.bit && stack == StackOf(c)
      modifies this, nodes
      ensures Valid()
      ensures tip.leaf.key in old(Model()).Get(comp) && r == Some(old(Model()).Get(comp)[tip.leaf.key])
      ensures Model() == old(Model()).Remove(comp, tip.leaf.key)
    {
      hide Inv, Plug, ModelOf, Orders, OrdersOf, StackOk, UpdateExpiries, Moved, Earliest;
      ghost var a0, ts0 := A(), trees;
      RemoveOk(A(), roots, trees, freeChain, comp, c, tip);
      UnlinkFacts(A(), roots, trees, freeChain, comp, c, tip);
      ModelOfGet(a0, ts0, comp);
      assert stack[..|stack| - 1] == StackOf(c.up);
      var otherChild := nodes[parent].Child(!critBit);
      var otherContents := Remove(otherChild);
      var newExpiry := otherContents.EarliestExpiry();
      nodes[parent] := otherContents;
      var removed := Remove(child);
      ghost var a1 := A();
      UpdateParentEarliestExpiry(stack[..|stack| - 1], removed.leaf.Expiry(), newExpiry);
      roots := roots.With(comp, roots.Get(comp).(leafCount := roots.Get(comp).leafCount - 1));
      trees := trees.With(comp, Some(Plug(c.up, Moved(c.sibling, c.h))));
      freeChain := [child, otherChild] + freeChain;
      r := Some(removed.leaf);
      RemovedModel(a0, ts0, comp, tip.leaf.key, A(), trees.Get(comp).value);
    }

    predicate IsFull()
      reads this
    {
      freeListLen <= 1 && bumpIndex >= nodes.Length - 1
    }

    lemma IsFullIsModel()
      requires Valid()
      ensures IsFull() == Model().IsFull()
      ensures Model().UsedCells() <= Model().bump <= Model().capacity
    {
      CellAccounting(A(), roots, trees, freeChain);
    }

    /** The orders carry the keys they are stored under. */
    lemma KeysAreMatched(comp: Component)
      requires Valid()
      ensures KeysMatch(Model().Get(comp)) && forall k :: k in Model().Get(comp) ==> k < KEY_SIZE
    {
      hide WellFormed, Represents;
      ModelOfGet(A(), trees, comp);
      if trees.Get(comp).Some? {
        OrdersHaveTheirKeys(trees.Get(comp).value);
        WellFormedKeys(trees.Get(comp).value);
      }
    }

    /** The order at one end of a tree. */
    method LeafMinMax(findMax: bool, comp: Component) returns (r: Option<(nat, LeafNode)>)
      requires Valid()
      ensures var orders := Model().Get(comp);
              if orders == map[] then r == None
              else r.Some? && r.value.1 == orders[FirstKey(if findMax then Bid else Ask, orders.Keys)]
    {
      hide Inv, ModelOf, FirstKey, Orders;
      CellAccounting(A(), roots, trees, freeChain);
      ModelOfGet(A(), trees, comp);
      if roots.Get(comp).leafCount == 0 {
        NoOrders(trees.Get(comp));
        return None;
      }
      ghost var sub := trees.Get(comp).value;
      RootFacts(A(), roots, trees, freeChain, comp);
      OutermostIsFirst(sub, findMax);
      var handle := roots.Get(comp).maybeNode;
      while true
        invariant Represents(nodes[..], sub) && sub.h == handle
        invariant Outermost(sub, findMax) == Outermost(trees.Get(comp).value, findMax)
        decreases sub
      {
        match nodes[handle]
        case Leaf(leaf) => return Some((handle, leaf));
        case InnerNode(_, _, _, _, _, _) =>
          handle, sub := nodes[handle].Child(findMax), sub.Child(findMax);
      }
    }

    method FindWorst(comp: Component) returns (r: Option<(nat, LeafNode)>)
      requires Valid()
      ensures if r.None? then Worst(side, Model().Get(comp)) == None
              else Worst(side, Model().Get(comp)) == Some(r.value.1)
    {
      r := LeafMinMax(side.Ask?, comp);
    }

    /** The order with the smallest expiry, found by following the cached expiries. */
    method FindEarliestExpiry(comp: Component) returns (r: Option<(nat, int)>)
      requires Valid()
      ensures var orders := Model().Get(comp);
              if orders == map[] then r == None
              else && r.Some? && r.value.0 < nodes.Length && nodes[r.value.0].Leaf?
                   && nodes[r.value.0].leaf == orders[FirstToExpire(orders)]
                   && nodes[r.value.0].leaf.key == FirstToExpire(orders)
                   && r.value.1 == orders[FirstToExpire(orders)].Expiry()
    {
      hide Inv, ModelOf, Orders, FirstToExpire, ExpiresFirst;
      CellAccounting(A(), roots, trees, freeChain);
      ModelOfGet(A(), trees, comp);
      if roots.Get(comp).leafCount == 0 {
        NoOrders(trees.Get(comp));
        return None;
      }
      ghost var sub := trees.Get(comp).value;
      RootFacts(A(), roots, trees, freeChain, comp);
      ExpiringExpiresFirst(sub);
      FirstToExpireUnique(Orders(sub), Expiring(sub).leaf.key);
      var current := roots.Get(comp).maybeNode;
      while true
        invariant Represents(nodes[..], sub) && sub.h == current
        invariant Expiring(sub) == Expiring(trees.Get(comp).value)
        decreases sub
      {
        var contents := nodes[current];
        if contents.Leaf? {
          return Some((current, contents.EarliestExpiry()));
        }
        var bit := contents.zeroExpiry > contents.oneExpiry;
        current, sub := contents.Child(bit), sub.Child(bit);
      }
    }

    /** Removes the order that expires first from one tree, if that has expired. */
    method RemoveOneExpiredFrom(comp: Component, now: int) returns (r: Option<LeafNode>)
      requires Valid()
      modifies this, nodes
      ensures Valid()
      ensures r == ExpiredOrder(old(Model()).Get(comp), now)
      ensures Model() == if r.Some? then old(Model()).Remove(comp, r.value.key) else old(Model())
    {
      hide Inv, ModelOf, FirstToExpire, ExpiresFirst;
      KeysAreMatched(comp);
      var earliest := FindEarliestExpiry(comp);
      if earliest.None? || earliest.value.1 >= now {
        return None;
      }
      FirstToExpireIn(Model().Get(comp));
      r := RemoveByKey(comp, nodes[earliest.value.0].leaf.key);
    }

    /** Removes an expired order, from the given tree if it has one, else from the other. */
    method RemoveOneExpired(comp: Component, now: int) returns (r: Option<LeafNode>)
      requires Valid()
      modifies this, nodes
      ensures Valid()
      ensures var was := old(Model());
              var from := ExpiredComponent(was, comp, now);
              && r == ExpiredOrder(was.Get(from), now)
              && Model() == if r.Some? then was.Remove(from, r.value.key) else was
    {
      r := RemoveOneExpiredFrom(comp, now);
      if r.Some? {
        return;
      }
      r := RemoveOneExpiredFrom(comp.Other(), now);
    }

    /** Removes the order with the worst price of both trees. */
    method RemoveWorst(now: int, oracle: Option<int>) returns (r: Option<(LeafNode, int)>)
      requires Valid()
      modifies this, nodes
      ensures Valid()
      ensures match WorstItem(old(Model()), side, now, oracle)
              case None => r == None && Model() == old(Model())
              case Some(item) =>
                && r == Some((item.leaf, item.price))
                && Model() == old(Model()).Remove(item.comp, item.leaf.key)
    {
      hide Inv, ModelOf, FirstKey;
      KeysAreMatched(Fixed);
      KeysAreMatched(OraclePegged);
      var worstFixed := FindWorst(Fixed);
      var worstPegged := FindWorst(OraclePegged);
      var worse := RankOrders(side, if worstFixed.Some? then Some(worstFixed.value.1) else None,
                              if worstPegged.Some? then Some(worstPegged.value.1) else None, true, now, oracle);
      if worse.None? {
        return None;
      }
      WorstIn(Model(), side, now, oracle);
      var n := RemoveByKey(worse.value.comp, worse.value.leaf.key);
      return Some((n.value, worse.value.price));
    }

    /** Writes the quantity of the order in a cell; no other cell changes hands. */
    method SetQuantity(handle: nat, quantity: int, ghost comp: Component, ghost key: nat)
      requires Valid() && HandleOf(trees, comp, handle, key)
      modifies this`trees, nodes
      ensures Valid()
      ensures key in old(Model()).Get(comp) && Model() == old(Model()).WithQuantity(comp, key, quantity)
      ensures forall d, h, k :: HandleOf(old(trees), d, h, k) ==> HandleOf(trees, d, h, k)
    {
      hide Inv, ModelOf, Plug, Orders, TipAt;
      ghost var a0, ts0 := A(), trees;
      ghost var c, tip := TipContext(trees.Get(comp).value, handle, key, Top);
      PlugTop(trees.Get(comp).value);
      RequantifyOk(a0, roots, trees, freeChain, comp, c, tip, quantity);
      ghost var leaf' := tip.leaf.(quantity := quantity);
      HandlesKept(trees, comp, c, tip, leaf');
      var leaf := nodes[handle].leaf;
      nodes[handle] := Leaf(leaf.(quantity := quantity));
      trees := trees.With(comp, Some(Plug(c, Tip(tip.h, leaf'))));
      RequantifiedModel(a0, ts0, comp, key, leaf', A(), trees.Get(comp).value);
    }
  }
}
