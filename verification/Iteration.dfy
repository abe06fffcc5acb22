/** The order in which both trees of a book side are walked together. */
module Iterations {
  import opened Types
  import opened Rankings
  import opened Prices

  function Head(s: seq<LeafNode>): Option<LeafNode> { if s == [] then None else Some(s[0]) }

  function Tail(s: seq<LeafNode>): seq<LeafNode> { if s == [] then [] else s[1..] }

  /** Calls to `next` until it returns an order that is not skipped: that order, and what the iterator still has. */
  function NextUnskipped(rest: seq<LeafNode>, oracle: int, side: Side): (r: (Option<LeafNode>, seq<LeafNode>))
    ensures |r.1| <= |rest| && r.1 == rest[|rest| - |r.1|..]
    ensures r.0.Some? ==> |r.1| < |rest| && r.0.value == rest[|rest| - |r.1| - 1] && !IsSkipped(oracle, r.0.value, side)
    ensures r.0.None? ==> r.1 == []
    ensures forall i :: 0 <= i < |rest| - |r.1| - (if r.0.Some? then 1 else 0) ==> IsSkipped(oracle, rest[i], side)
  {
    if rest == [] then (None, [])
    else if IsSkipped(oracle, rest[0], side) then NextUnskipped(rest[1..], oracle, side)
    else (Some(rest[0]), rest[1..])
  }

  /** The pegged order to compare with the fixed one, and what the pegged iterator still has. When the order it
      stands at is skipped, the loop leaves the iterator behind the order that it returns. */
  function PeekPegged(pegged: seq<LeafNode>, oracle: Option<int>, side: Side): (r: (Option<LeafNode>, seq<LeafNode>))
    ensures |r.1| <= |pegged|
    ensures r.0.Some? && r.1 == pegged ==> pegged != []
  {
    if oracle.None? then (None, pegged)
    else if pegged == [] then (None, [])
    else if IsSkipped(oracle.value, pegged[0], side) then NextUnskipped(pegged, oracle.value, side)
    else (Some(pegged[0]), pegged)
  }

  lemma PeekSuffix(pegged: seq<LeafNode>, oracle: Option<int>, side: Side)
    ensures var rest := PeekPegged(pegged, oracle, side).1;
            |rest| <= |pegged| && rest == pegged[|pegged| - |rest|..]
  {
  }

  /** One call of `next` on the iterator over both trees: the item, and what both iterators still have. */
  function Step(side: Side, fixed: seq<LeafNode>, pegged: seq<LeafNode>, now: int, oracle: Option<int>)
      : (r: Option<(Item, seq<LeafNode>, seq<LeafNode>)>)
    ensures r.Some? ==> |r.value.1| + |r.value.2| < |fixed| + |pegged|
  {
    var (o, rest) := PeekPegged(pegged, oracle, side);
    match RankOrders(side, Head(fixed), o, false, now, oracle)
    case None => None
    case Some(item) =>
      if item.comp.Fixed? then Some((item, Tail(fixed), rest)) else Some((item, fixed, Tail(rest)))
  }

  /** Everything the iterator over both trees yields, from the best order on. */
  function Items(side: Side, fixed: seq<LeafNode>, pegged: seq<LeafNode>, now: int, oracle: Option<int>): seq<Item>
    decreases |fixed| + |pegged|
  {
    match Step(side, fixed, pegged, now, oracle)
    case None => []
    case Some((item, fixed', pegged')) => [item] + Items(side, fixed', pegged', now, oracle)
  }

  /** An item shows an order of one of the two lists; pegged orders show up only when they are not skipped. */
  predicate ShowsOrder(item: Item, side: Side, fixed: seq<LeafNode>, pegged: seq<LeafNode>, now: int, oracle: Option<int>) {
    if item.comp.Fixed? then item.leaf in fixed && item == FixedItem(item.leaf, now)
    else
      && oracle.Some? && item.leaf in pegged && !IsSkipped(oracle.value, item.leaf, side)
      && item == PeggedItem(item.leaf, side, oracle.value, now)
  }

  lemma ShowsOrderWeaken(item: Item, side: Side, fixed: seq<LeafNode>, pegged: seq<LeafNode>,
                         fixed': seq<LeafNode>, pegged': seq<LeafNode>, now: int, oracle: Option<int>)
    requires ShowsOrder(item, side, fixed, pegged, now, oracle)
    requires forall l :: l in fixed ==> l in fixed'
    requires forall l :: l in pegged ==> l in pegged'
    ensures ShowsOrder(item, side, fixed', pegged', now, oracle)
  {
  }

  predicate IsSuffix(t: seq<LeafNode>, s: seq<LeafNode>) { |t| <= |s| && t == s[|s| - |t|..] }

  lemma SuffixMembers(t: seq<LeafNode>, s: seq<LeafNode>)
    requires IsSuffix(t, s)
    ensures forall l :: l in t ==> l in s
  {
  }

  lemma RankedOne(side: Side, f: Option<LeafNode>, o: Option<LeafNode>, now: int, oracle: Option<int>)
    ensures var r := RankOrders(side, f, o, false, now, oracle);
            && (r.Some? && r.value.comp.Fixed? ==> f.Some? && r.value.leaf == f.value && r.value == FixedItem(f.value, now))
            && (r.Some? && r.value.comp.OraclePegged? ==>
                  && o.Some? && oracle.Some? && r.value.leaf == o.value
                  && r.value == PeggedItem(o.value, side, oracle.value, now))
  {
  }

  /** What one step yields and takes. */
  lemma StepFacts(side: Side, fixed: seq<LeafNode>, pegged: seq<LeafNode>, now: int, oracle: Option<int>)
    requires Step(side, fixed, pegged, now, oracle).Some?
    ensures var (item, fixed', pegged') := Step(side, fixed, pegged, now, oracle).value;
            && ShowsOrder(item, side, fixed, pegged, now, oracle)
            && IsSuffix(fixed', fixed) && IsSuffix(pegged', PeekPegged(pegged, oracle, side).1)
            && IsSuffix(pegged', pegged)
            && (item.comp.Fixed? ==> fixed != [] && item.leaf == fixed[0] && fixed' == fixed[1..])
            && (item.comp.OraclePegged? ==> |pegged'| < |pegged| && item.leaf in pegged[..|pegged| - |pegged'|])
  {
    var (o, rest) := PeekPegged(pegged, oracle, side);
    PeekSuffix(pegged, oracle, side);
    RankedOne(side, Head(fixed), o, now, oracle);
    hide RankOrders, PeekPegged, IsSkipped, FixedItem, PeggedItem;
    var (item, fixed', pegged') := Step(side, fixed, pegged, now, oracle).value;
    if item.comp.OraclePegged? {
      PeekedLeaf(pegged, oracle.value, side);
    }
  }

  /** The pegged order that is compared stands before what the iterator has after yielding it. */
  lemma PeekedLeaf(pegged: seq<LeafNode>, oracle: int, side: Side)
    requires PeekPegged(pegged, Some(oracle), side).0.Some?
    ensures var (o, rest) := PeekPegged(pegged, Some(oracle), side);
            && |Tail(rest)| < |pegged| && IsSuffix(Tail(rest), pegged)
            && o.value in pegged[..|pegged| - |Tail(rest)|] && o.value in pegged
            && !IsSkipped(oracle, o.value, side)
  {
    var (o, rest) := PeekPegged(pegged, Some(oracle), side);
    PeekSuffix(pegged, Some(oracle), side);
    var i := if rest == pegged then 0 else |pegged| - |rest| - 1;
    assert pegged[i] == o.value && !IsSkipped(oracle, o.value, side);
    hide PeekPegged, IsSkipped;
    StandsBefore(pegged, Tail(rest), i);
  }

  lemma StandsBefore(s: seq<LeafNode>, t: seq<LeafNode>, i: nat)
    requires |t| <= |s| && i < |s| - |t|
    ensures s[i] in s[..|s| - |t|] && s[i] in s
  {
    assert s[..|s| - |t|][i] == s[i];
  }

  lemma {:induction false} ItemsShowOrders(side: Side, fixed: seq<LeafNode>, pegged: seq<LeafNode>, now: int, oracle: Option<int>)
    ensures forall i :: 0 <= i < |Items(side, fixed, pegged, now, oracle)| ==>
              ShowsOrder(Items(side, fixed, pegged, now, oracle)[i], side, fixed, pegged, now, oracle)
    decreases |fixed| + |pegged|
  {
    var s := Items(side, fixed, pegged, now, oracle);
    if s != [] {
      var (item, fixed', pegged') := Step(side, fixed, pegged, now, oracle).value;
      StepFacts(side, fixed, pegged, now, oracle);
      SuffixMembers(fixed', fixed);
      SuffixMembers(pegged', pegged);
      ItemsShowOrders(side, fixed', pegged', now, oracle);
      var tail := Items(side, fixed', pegged', now, oracle);
      forall i | 0 <= i < |s|
        ensures ShowsOrder(s[i], side, fixed, pegged, now, oracle)
      {
        if i > 0 {
          assert s[i] == tail[i - 1];
          ShowsOrderWeaken(tail[i - 1], side, fixed', pegged', fixed, pegged, now, oracle);
        }
      }
    }
  }

  /** Within each tree the items come in key order, so no order shows up twice. */
  ghost predicate InTreeOrder(side: Side, s: seq<Item>) {
    forall i, j :: 0 <= i < j < |s| && s[i].comp == s[j].comp ==> Before(side, s[i].leaf.key, s[j].leaf.key)
  }

  lemma PrependInTreeOrder(side: Side, item: Item, tail: seq<Item>)
    requires InTreeOrder(side, tail)
    requires forall j :: 0 <= j < |tail| && tail[j].comp == item.comp ==> Before(side, item.leaf.key, tail[j].leaf.key)
    ensures InTreeOrder(side, [item] + tail)
  {
    var s := [item] + tail;
    forall i, j | 0 <= i < j < |s| && s[i].comp == s[j].comp
      ensures Before(side, s[i].leaf.key, s[j].leaf.key)
    {
      assert s[j] == tail[j - 1];
      if i > 0 { assert s[i] == tail[i - 1]; }
    }
  }

  /** An order that one of the iterators still has comes after the one just yielded from the same tree. */
  lemma YieldedBefore(side: Side, fixed: seq<LeafNode>, pegged: seq<LeafNode>, now: int, oracle: Option<int>, later: Item)
    requires StrictlyRanked(side, fixed) && StrictlyRanked(side, pegged)
    requires Step(side, fixed, pegged, now, oracle).Some?
    requires var (item, fixed', pegged') := Step(side, fixed, pegged, now, oracle).value;
             later.comp == item.comp && ShowsOrder(later, side, fixed', pegged', now, oracle)
    ensures Before(side, Step(side, fixed, pegged, now, oracle).value.0.leaf.key, later.leaf.key)
  {
    hide Step, PeekPegged, StrictlyRanked;
    StepFacts(side, fixed, pegged, now, oracle);
    var (item, fixed', pegged') := Step(side, fixed, pegged, now, oracle).value;
    if item.comp.Fixed? {
      assert item.leaf == fixed[..1][0];
      BeforeSuffix(side, fixed, fixed', item.leaf, later.leaf);
    } else {
      BeforeSuffix(side, pegged, pegged', item.leaf, later.leaf);
    }
  }

  lemma {:induction false} ItemsInTreeOrder(side: Side, fixed: seq<LeafNode>, pegged: seq<LeafNode>, now: int, oracle: Option<int>)
    requires StrictlyRanked(side, fixed) && StrictlyRanked(side, pegged)
    ensures InTreeOrder(side, Items(side, fixed, pegged, now, oracle))
    decreases |fixed| + |pegged|
  {
    hide Step, PeekPegged, StrictlyRanked, ShowsOrder, InTreeOrder;
    if Step(side, fixed, pegged, now, oracle).None? {
      EmptyInTreeOrder(side);
    } else {
      var (item, fixed', pegged') := Step(side, fixed, pegged, now, oracle).value;
      StepFacts(side, fixed, pegged, now, oracle);
      SuffixRanked(side, fixed, fixed');
      SuffixRanked(side, pegged, pegged');
      ItemsInTreeOrder(side, fixed', pegged', now, oracle);
      ItemsShowOrders(side, fixed', pegged', now, oracle);
      var tail := Items(side, fixed', pegged', now, oracle);
      forall j | 0 <= j < |tail| && tail[j].comp == item.comp
        ensures Before(side, item.leaf.key, tail[j].leaf.key)
      {
        YieldedBefore(side, fixed, pegged, now, oracle, tail[j]);
      }
      PrependInTreeOrder(side, item, tail);
    }
  }

  lemma EmptyInTreeOrder(side: Side)
    ensures InTreeOrder(side, [])
  {
  }

  lemma SuffixRanked(side: Side, s: seq<LeafNode>, t: seq<LeafNode>)
    requires StrictlyRanked(side, s) && IsSuffix(t, s)
    ensures StrictlyRanked(side, t)
  {
  }

  lemma BeforeSuffix(side: Side, s: seq<LeafNode>, t: seq<LeafNode>, a: LeafNode, b: LeafNode)
    requires StrictlyRanked(side, s) && IsSuffix(t, s)
    requires a in s[..|s| - |t|] && b in t
    ensures Before(side, a.key, b.key)
  {
    var i :| 0 <= i < |s| - |t| && s[..|s| - |t|][i] == a;
    var j :| 0 <= j < |t| && t[j] == b;
    assert s[i] == a && s[|s| - |t| + j] == b;
  }

  /** Merge order: no item comes after one that would match later. */
  ghost predicate InMergeOrder(side: Side, s: seq<Item>)
    requires PricesPositive(s)
  {
    forall i, j :: 0 <= i < j < |s| ==> !Before(side, RankKey(s[j]), RankKey(s[i]))
  }

  ghost predicate KeysBounded(s: seq<LeafNode>) {
    forall l :: l in s ==> l.key < U64_SIZE * U64_SIZE
  }

  /** An item that shows an order comes no earlier than the first order left of its tree. */
  lemma NotBeforeHead(side: Side, item: Item, fixed: seq<LeafNode>, pegged: seq<LeafNode>, head: LeafNode, now: int, oracle: Option<int>)
    requires StrictlyRanked(side, fixed) && KeysBounded(pegged)
    requires ShowsOrder(item, side, fixed, pegged, now, oracle)
    requires item.comp.Fixed? ==> head == fixed[0]
    requires item.comp.OraclePegged? ==>
               && head.key < U64_SIZE * U64_SIZE && !IsSkipped(oracle.value, head, side)
               && (item.leaf == head || Before(side, head.key, item.leaf.key))
    ensures var first := if item.comp.Fixed? then FixedItem(head, now) else PeggedItem(head, side, oracle.value, now);
            !Before(side, RankKey(item), RankKey(first))
  {
    if item.comp.Fixed? {
      var i :| 0 <= i < |fixed| && fixed[i] == item.leaf;
    } else if item.leaf != head {
      RekeyKeepsOrder(side, oracle.value, head, item.leaf);
    }
  }

  /** The first item against any later one. */
  lemma FirstIsBest(side: Side, fixed: seq<LeafNode>, pegged: seq<LeafNode>, now: int, oracle: Option<int>, later: Item)
    requires StrictlyRanked(side, fixed) && StrictlyRanked(side, pegged) && KeysBounded(pegged)
    requires var (o, rest) := PeekPegged(pegged, oracle, side);
             var first := RankOrders(side, Head(fixed), o, false, now, oracle);
             && first.Some?
             && ShowsOrder(later, side, fixed, if o.Some? then pegged else [], now, oracle)
             && (later.comp.OraclePegged? && o.Some? ==> later.leaf == o.value || Before(side, o.value.key, later.leaf.key))
    ensures var first := RankOrders(side, Head(fixed), PeekPegged(pegged, oracle, side).0, false, now, oracle).value;
            !Before(side, RankKey(later), RankKey(first))
  {
    var (o, rest) := PeekPegged(pegged, oracle, side);
    var first := RankOrders(side, Head(fixed), o, false, now, oracle).value;
    if later.comp.Fixed? {
      NotBeforeHead(side, later, fixed, pegged, fixed[0], now, oracle);
    } else {
      NotBeforeHead(side, later, fixed, pegged, o.value, now, oracle);
    }
  }

  /** A pegged order that the iterator still has is the one that was compared, or comes after it. */
  lemma PeggedLeft(side: Side, pegged: seq<LeafNode>, oracle: int, leaf: LeafNode)
    requires StrictlyRanked(side, pegged)
    requires leaf in PeekPegged(pegged, Some(oracle), side).1
    ensures var o := PeekPegged(pegged, Some(oracle), side).0;
            o.Some? && leaf in pegged && (leaf == o.value || Before(side, o.value.key, leaf.key))
  {
    var (o, rest) := PeekPegged(pegged, Some(oracle), side);
    var j :| 0 <= j < |rest| && rest[j] == leaf;
    assert pegged[|pegged| - |rest| + j] == leaf;
  }

  lemma LaterItem(side: Side, fixed: seq<LeafNode>, pegged: seq<LeafNode>, now: int, oracle: Option<int>, later: Item)
    requires StrictlyRanked(side, fixed) && StrictlyRanked(side, pegged) && KeysBounded(pegged)
    requires RankOrders(side, Head(fixed), PeekPegged(pegged, oracle, side).0, false, now, oracle).Some?
    requires ShowsOrder(later, side, fixed, PeekPegged(pegged, oracle, side).1, now, oracle)
    ensures var first := RankOrders(side, Head(fixed), PeekPegged(pegged, oracle, side).0, false, now, oracle).value;
            !Before(side, RankKey(later), RankKey(first))
  {
    if later.comp.OraclePegged? {
      PeggedLeft(side, pegged, oracle.value, later.leaf);
    }
    FirstIsBest(side, fixed, pegged, now, oracle, later);
  }

  predicate PricesPositive(s: seq<Item>) {
    forall i :: 0 <= i < |s| && s[i].comp.OraclePegged? ==> s[i].price >= 1
  }

  lemma PrependInMergeOrder(side: Side, item: Item, tail: seq<Item>)
    requires PricesPositive(tail) && (item.comp.OraclePegged? ==> item.price >= 1)
    requires InMergeOrder(side, tail)
    requires forall j :: 0 <= j < |tail| ==> !Before(side, RankKey(tail[j]), RankKey(item))
    ensures PricesPositive([item] + tail) && InMergeOrder(side, [item] + tail)
  {
    var s := [item] + tail;
    forall i, j | 0 <= i < j < |s|
      ensures !Before(side, RankKey(s[j]), RankKey(s[i]))
    {
      assert s[j] == tail[j - 1];
      if i > 0 { assert s[i] == tail[i - 1]; }
    }
  }

  lemma {:induction false} ItemsInMergeOrder(side: Side, fixed: seq<LeafNode>, pegged: seq<LeafNode>, now: int, oracle: Option<int>)
    requires StrictlyRanked(side, fixed) && StrictlyRanked(side, pegged) && KeysBounded(pegged)
    ensures PricesPositive(Items(side, fixed, pegged, now, oracle))
    ensures InMergeOrder(side, Items(side, fixed, pegged, now, oracle))
    decreases |fixed| + |pegged|
  {
    hide PeekPegged, StrictlyRanked, ShowsOrder, RankOrders, RankKey;
    if Step(side, fixed, pegged, now, oracle).Some? {
      var (item, fixed', pegged') := Step(side, fixed, pegged, now, oracle).value;
      var rest := PeekPegged(pegged, oracle, side).1;
      StepFacts(side, fixed, pegged, now, oracle);
      SuffixMembers(fixed', fixed);
      SuffixMembers(pegged', pegged);
      SuffixMembers(pegged', rest);
      SuffixRanked(side, fixed, fixed');
      SuffixRanked(side, pegged, pegged');
      ItemsInMergeOrder(side, fixed', pegged', now, oracle);
      ItemsShowOrders(side, fixed', pegged', now, oracle);
      ShownPrice(item, side, fixed, pegged, now, oracle);
      var tail := Items(side, fixed', pegged', now, oracle);
      forall j | 0 <= j < |tail|
        ensures !Before(side, RankKey(tail[j]), RankKey(item))
      {
        ShowsOrderWeaken(tail[j], side, fixed', pegged', fixed, rest, now, oracle);
        LaterItem(side, fixed, pegged, now, oracle, tail[j]);
      }
      PrependInMergeOrder(side, item, tail);
    }
  }

  lemma ShownPrice(item: Item, side: Side, fixed: seq<LeafNode>, pegged: seq<LeafNode>, now: int, oracle: Option<int>)
    requires ShowsOrder(item, side, fixed, pegged, now, oracle)
    ensures item.comp.OraclePegged? ==> item.price >= 1
    ensures !item.state.Skipped?
  {
  }
}
