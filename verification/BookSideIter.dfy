/** The iterators over one tree and over both trees of a book side. The book side is not changed while they are used. */
module BookSideIterators {
  import opened Types
  import opened Trees
  import opened TreeWalks
  import opened Arenas
  import opened BookSideCells
  import opened BookSides
  import opened Rankings
  import opened Prices
  import opened Iterations

  /** What a stack of inner nodes still stands for: the far side of each, from the top down. */
  function Pending(stack: seq<Tree>, side: Side): seq<(nat, LeafNode)>
    requires forall i :: 0 <= i < |stack| ==> stack[i].Fork?
  {
    if stack == [] then []
    else Walk(stack[|stack| - 1].Child(!side.Bid?), side) + Pending(stack[..|stack| - 1], side)
  }

  ghost predicate StackHolds(ns: seq<AnyNode>, stack: seq<AnyNode>, trees: seq<Tree>) {
    && |stack| == |trees|
    && forall i :: 0 <= i < |stack| ==>
         trees[i].Fork? && Represents(ns, trees[i]) && stack[i].InnerNode?
         && stack[i].zero == trees[i].zero.h && stack[i].one == trees[i].one.h
  }

  class OrderTreeIter {
    const book: BookSide
    /** Inner nodes whose far side is still to be walked. */
    var stack: seq<AnyNode>
    var nextLeaf: Option<(nat, LeafNode)>
    ghost var stackTrees: seq<Tree>
    /** What is still to come, with the cells. */
    ghost var rest: seq<(nat, LeafNode)>

    ghost predicate Valid()
      reads this, book, book.nodes
    {
      && StackHolds(book.nodes[..], stack, stackTrees)
      && (nextLeaf.None? ==> stack == [] && rest == [])
      && (nextLeaf.Some? ==> rest == [nextLeaf.value] + Pending(stackTrees, book.side))
    }

    constructor (book: BookSide, comp: Component)
      requires book.Valid()
      ensures Valid() && this.book == book
      ensures Leaves(rest) == Ranked(book.side, book.Model().Get(comp))
      ensures forall x :: x in rest ==> HandleOf(book.trees, comp, x.0, x.1.key)
    {
      this.book := book;
      stack, nextLeaf := [], None;
      stackTrees, rest := [], [];
      new;
      hide *;
      Start(comp);
    }

    /** Stands the iterator at the first order of the tree. */
    method Start(comp: Component)
      requires book.Valid()
      requires stack == [] && nextLeaf == None && stackTrees == [] && rest == []
      modifies this
      ensures Valid()
      ensures Leaves(rest) == Ranked(book.side, book.Model().Get(comp))
      ensures forall x :: x in rest ==> HandleOf(book.trees, comp, x.0, x.1.key)
    {
      hide Inv, ModelOf, Represents, Ranked, Walk, HandleOf;
      StartFacts(book.A(), book.roots, book.trees, book.freeChain, comp, book.side);
      if book.roots.Get(comp).leafCount != 0 {
        ghost var t := book.trees.Get(comp).value;
        FindLeftmostLeaf(book.roots.Get(comp).maybeNode, t);
        rest := Walk(t, book.side);
        assert Walk(t, book.side) + Pending([], book.side) == Walk(t, book.side);
      }
    }

    /** The next order, without moving on. */
    function Peek(): (r: Option<(nat, LeafNode)>)
      requires Valid()
      reads this, book, book.nodes
      ensures r == if rest == [] then None else Some(rest[0])
    {
      nextLeaf
    }

    /** Walks down the near side, leaving the inner nodes passed on the stack. */
    method FindLeftmostLeaf(start: nat, ghost t: Tree)
      requires StackHolds(book.nodes[..], stack, stackTrees)
      requires Represents(book.nodes[..], t) && t.h == start
      modifies this`stack, this`stackTrees, this`nextLeaf
      ensures StackHolds(book.nodes[..], stack, stackTrees)
      ensures nextLeaf.Some?
      ensures [nextLeaf.value] + Pending(stackTrees, book.side)
           == Walk(t, book.side) + Pending(old(stackTrees), book.side)
    {
      hide Represents;
      var current := start;
      ghost var sub := t;
      while true
        invariant StackHolds(book.nodes[..], stack, stackTrees)
        invariant Represents(book.nodes[..], sub) && sub.h == current
        invariant Walk(sub, book.side) + Pending(stackTrees, book.side)
               == Walk(t, book.side) + Pending(old(stackTrees), book.side)
        decreases sub
      {
        SubtreeCell(book.nodes[..], sub);
        match book.nodes[current]
        case Leaf(leaf) =>
          nextLeaf := Some((current, leaf));
          return;
        case InnerNode(_, _, _, _, _, _) =>
          PushFork(stackTrees, sub, book.side);
          stack, stackTrees := stack + [book.nodes[current]], stackTrees + [sub];
          current, sub := book.nodes[current].Child(book.side.Bid?), sub.Child(book.side.Bid?);
      }
    }

    method Next() returns (r: Option<(nat, LeafNode)>)
      requires Valid()
      modifies this
      ensures Valid()
      ensures if old(rest) == [] then r == None && rest == []
              else r == Some(old(rest)[0]) && rest == old(rest)[1..]
    {
      if nextLeaf.None? {
        return None;
      }
      r := nextLeaf;
      rest := rest[1..];
      if stack == [] {
        nextLeaf := None;
      } else {
        var inner := stack[|stack| - 1];
        ghost var fork := stackTrees[|stackTrees| - 1];
        SubtreeCell(book.nodes[..], fork);
        stack, stackTrees := stack[..|stack| - 1], stackTrees[..|stackTrees| - 1];
        FindLeftmostLeaf(inner.Child(!book.side.Bid?), fork.Child(!book.side.Bid?));
      }
    }
  }

  /** The iterator over both trees. */
  class BookSideIter {
    const book: BookSide
    const fixedIter: OrderTreeIter
    const oraclePeggedIter: OrderTreeIter
    const now: int
    const oracle: Option<int>

    ghost predicate Valid()
      reads this, fixedIter, oraclePeggedIter, book, book.nodes
    {
      && fixedIter != oraclePeggedIter && fixedIter.book == book && oraclePeggedIter.book == book
      && fixedIter.Valid() && oraclePeggedIter.Valid()
    }

    /** The items still to come. */
    ghost function ToCome(): seq<Item>
      reads this, fixedIter, oraclePeggedIter, book, book.nodes
      requires Valid()
    {
      Items(book.side, Leaves(fixedIter.rest), Leaves(oraclePeggedIter.rest), now, oracle)
    }

    /** Every order still to come sits in the cell that the iterators name for it. */
    ghost predicate HandlesAreRight()
      reads this, fixedIter, oraclePeggedIter, book
    {
      && (forall x :: x in fixedIter.rest ==> HandleOf(book.trees, Fixed, x.0, x.1.key))
      && (forall x :: x in oraclePeggedIter.rest ==> HandleOf(book.trees, OraclePegged, x.0, x.1.key))
    }

    constructor (book: BookSide, now: int, oracle: Option<int>)
      requires book.Valid()
      ensures Valid() && HandlesAreRight() && fresh(fixedIter) && fresh(oraclePeggedIter)
      ensures this.book == book && this.now == now && this.oracle == oracle
      ensures ToCome() == Items(book.side, Ranked(book.side, book.Model().fixed), Ranked(book.side, book.Model().pegged),
                                now, oracle)
    {
      hide Inv, ModelOf, Items, Ranked, HandleOf, StackHolds, Pending;
      this.book, this.now, this.oracle := book, now, oracle;
      fixedIter := new OrderTreeIter(book, Fixed);
      oraclePeggedIter := new OrderTreeIter(book, OraclePegged);
    }

    /** Moves the pegged iterator past the orders that cannot be represented at the oracle price. */
    method PeekOraclePegged(price: int) returns (o: Option<(nat, LeafNode)>)
      requires Valid()
      modifies oraclePeggedIter
      ensures Valid()
      ensures (LeafOf(o), Leaves(oraclePeggedIter.rest))
           == PeekPegged(Leaves(old(oraclePeggedIter.rest)), Some(price), book.side)
      ensures o.Some? ==> o.value in old(oraclePeggedIter.rest)
      ensures forall x :: x in oraclePeggedIter.rest ==> x in old(oraclePeggedIter.rest)
    {
      hide StackHolds, Pending, IsSkipped;
      ghost var all := Leaves(oraclePeggedIter.rest);
      ghost var started := false;
      o := oraclePeggedIter.Peek();
      while o.Some?
        invariant Valid()
        invariant !started ==> Leaves(oraclePeggedIter.rest) == all
                               && o == if oraclePeggedIter.rest == [] then None else Some(oraclePeggedIter.rest[0])
        invariant started ==>
                    && all != [] && IsSkipped(price, all[0], book.side)
                    && NextUnskipped(all, price, book.side) ==
                       (if o.None? then (None, Leaves(oraclePeggedIter.rest))
                        else if IsSkipped(price, o.value.1, book.side)
                        then NextUnskipped(Leaves(oraclePeggedIter.rest), price, book.side)
                        else (Some(o.value.1), Leaves(oraclePeggedIter.rest)))
        invariant o.Some? ==> o.value in old(oraclePeggedIter.rest)
        invariant forall x :: x in oraclePeggedIter.rest ==> x in old(oraclePeggedIter.rest)
        decreases |oraclePeggedIter.rest| + (if o.Some? then 1 else 0)
      {
        if !IsSkipped(price, o.value.1, book.side) {
          break;
        }
        ghost var before := oraclePeggedIter.rest;
        o := oraclePeggedIter.Next();
        assert before != [] ==> Leaves(before[1..]) == Leaves(before)[1..];
        started := true;
      }
    }

    method Next() returns (r: Option<(Item, nat)>)
      requires Valid()
      modifies fixedIter, oraclePeggedIter
      ensures Valid()
      ensures match Step(book.side, Leaves(old(fixedIter.rest)), Leaves(old(oraclePeggedIter.rest)), now, oracle)
              case None => r == None
              case Some((item, fixed, pegged)) =>
                && r.Some? && r.value.0 == item
                && Leaves(fixedIter.rest) == fixed && Leaves(oraclePeggedIter.rest) == pegged
      ensures old(HandlesAreRight()) ==>
                && HandlesAreRight()
                && (r.Some? ==> HandleOf(book.trees, r.value.0.comp, r.value.1, r.value.0.leaf.key))
    {
      hide StackHolds, Pending, HandleOf, RankOrders, Leaves, Step, LeafOf, PeekPegged, NextUnskipped;
      ghost var was := oraclePeggedIter.rest;
      var oPeek := None;
      NothingPeeked(Leaves(was), book.side);
      if oracle.Some? {
        oPeek := PeekOraclePegged(oracle.value);
      }
      var fPeek := fixedIter.Peek();
      var better := RankOrders(book.side, LeafOf(fPeek), LeafOf(oPeek), false, now, oracle);
      StepIs(book.side, fixedIter.rest, was, oraclePeggedIter.rest, oPeek, now, oracle);
      PeekedOne(book.side, fPeek, oPeek, now, oracle);
      if better.None? {
        return None;
      }
      match better.value.comp {
        case Fixed =>
          var _ := fixedIter.Next();
          r := Some((better.value, fPeek.value.0));
        case OraclePegged =>
          var _ := oraclePeggedIter.Next();
          r := Some((better.value, oPeek.value.0));
      }
    }
  }

  lemma LeavesFacts(s: seq<(nat, LeafNode)>)
    ensures Head(Leaves(s)) == LeafOf(if s == [] then None else Some(s[0]))
    ensures Tail(Leaves(s)) == Leaves(if s == [] then [] else s[1..])
  {
  }

  lemma NothingPeeked(pegged: seq<LeafNode>, side: Side)
    ensures (LeafOf(None), pegged) == PeekPegged(pegged, None, side)
  {
  }

  /** One step in terms of what both iterators peek at. */
  lemma StepIs(side: Side, fixed: seq<(nat, LeafNode)>, was: seq<(nat, LeafNode)>, pegged: seq<(nat, LeafNode)>,
               o: Option<(nat, LeafNode)>, now: int, oracle: Option<int>)
    requires (LeafOf(o), Leaves(pegged)) == PeekPegged(Leaves(was), oracle, side)
    ensures var f := if fixed == [] then None else Some(fixed[0]);
            var r := RankOrders(side, LeafOf(f), LeafOf(o), false, now, oracle);
            var step := Step(side, Leaves(fixed), Leaves(was), now, oracle);
            && (r.None? ==> step.None?)
            && (r.Some? ==> step == if r.value.comp.Fixed?
                                    then Some((r.value, Leaves(if fixed == [] then [] else fixed[1..]), Leaves(pegged)))
                                    else Some((r.value, Leaves(fixed), Leaves(if pegged == [] then [] else pegged[1..]))))
  {
    LeavesFacts(fixed);
    LeavesFacts(pegged);
    hide Leaves, RankOrders, PeekPegged, LeafOf;
  }

  function LeafOf(x: Option<(nat, LeafNode)>): Option<LeafNode> { if x.None? then None else Some(x.value.1) }

  lemma PeekedOne(side: Side, f: Option<(nat, LeafNode)>, o: Option<(nat, LeafNode)>, now: int, oracle: Option<int>)
    ensures var r := RankOrders(side, LeafOf(f), LeafOf(o), false, now, oracle);
            r.Some? ==> var x := if r.value.comp.Fixed? then f else o; x.Some? && x.value.1 == r.value.leaf
  {
  }

  /** What a walk over one tree starts from. */
  lemma StartFacts(a: Arena, roots: Pair<OrderTreeRoot>, ts: Pair<Option<Tree>>, free: seq<nat>, comp: Component, side: Side)
    requires Inv(a, roots, ts, free)
    ensures roots.Get(comp).leafCount == 0 ==> Ranked(side, ModelOf(a, ts).Get(comp)) == []
    ensures roots.Get(comp).leafCount != 0 ==>
              && ts.Get(comp).Some? && Represents(a.nodes, ts.Get(comp).value)
              && roots.Get(comp).maybeNode == ts.Get(comp).value.h
              && Leaves(Walk(ts.Get(comp).value, side)) == Ranked(side, ModelOf(a, ts).Get(comp))
              && forall x :: x in Walk(ts.Get(comp).value, side) ==> HandleOf(ts, comp, x.0, x.1.key)
  {
    hide Inv, Represents, WellFormed, Separate, Orders, TipAt, Walk, Tips, ModelOf;
    CellAccounting(a, roots, ts, free);
    ModelOfGet(a, ts, comp);
    if roots.Get(comp).leafCount != 0 {
      var t := ts.Get(comp).value;
      RootFacts(a, roots, ts, free, comp);
      WalkIsRanking(t, side);
      WalkTipAt(t, side);
    } else {
      NoOrders(ts.Get(comp));
    }
  }

  lemma SubtreeCell(ns: seq<AnyNode>, t: Tree)
    requires Represents(ns, t)
    ensures t.h < |ns|
    ensures t.Tip? ==> ns[t.h] == Leaf(t.leaf)
    ensures t.Fork? ==>
              && ns[t.h].InnerNode? && ns[t.h].zero == t.zero.h && ns[t.h].one == t.one.h
              && Represents(ns, t.zero) && Represents(ns, t.one)
  {
  }

  lemma PushFork(stack: seq<Tree>, t: Tree, side: Side)
    requires t.Fork? && forall i :: 0 <= i < |stack| ==> stack[i].Fork?
    ensures Walk(t, side) + Pending(stack, side)
         == Walk(t.Child(side.Bid?), side) + Pending(stack + [t], side)
  {
    assert (stack + [t])[..|stack|] == stack;
  }
}
