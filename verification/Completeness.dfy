/** When the iterator over both trees yields every pegged order that can be matched, and when it passes one over. */
module Completeness {
  import opened Types
  import opened Rankings
  import opened Prices
  import opened Iterations

  ghost predicate Yields(s: seq<Item>, leaf: LeafNode) {
    exists i :: 0 <= i < |s| && s[i].comp.OraclePegged? && s[i].leaf == leaf
  }

  ghost predicate YieldsAllUnskipped(s: seq<Item>, side: Side, pegged: seq<LeafNode>, oracle: int) {
    forall l :: l in pegged && !IsSkipped(oracle, l, side) ==> Yields(s, l)
  }

  /** The first pegged order is not skipped; or none can be matched; or exactly one can, and it is better than the
      best fixed order. */
  predicate NothingPassedOver(side: Side, fixed: seq<LeafNode>, pegged: seq<LeafNode>, now: int, oracle: int) {
    pegged == [] || !IsSkipped(oracle, pegged[0], side) ||
    var (o, rest) := NextUnskipped(pegged, oracle, side);
    o.None? ||
    (&& (rest == [] || IsSkipped(oracle, rest[0], side))
     && (fixed == [] || !Before(side, fixed[0].key, RankKey(PeggedItem(o.value, side, oracle, now)))))
  }

  /** The orders that can be matched stand next to each other in key order. */
  lemma UnskippedAreContiguous(side: Side, oracle: int, a: LeafNode, b: LeafNode, c: LeafNode)
    requires a.key < U64_SIZE * U64_SIZE && b.key < U64_SIZE * U64_SIZE && c.key < U64_SIZE * U64_SIZE
    requires Before(side, a.key, b.key) && Before(side, b.key, c.key)
    requires !IsSkipped(oracle, a, side) && !IsSkipped(oracle, c, side)
    ensures !IsSkipped(oracle, b, side)
  {
    PegDataRoundTrip(a.PriceData());
    PegDataRoundTrip(b.PriceData());
    PegDataRoundTrip(c.PriceData());
  }

  /** After an order that can be matched, one that is skipped has only skipped ones behind it. */
  lemma SkippedTail(side: Side, oracle: int, pegged: seq<LeafNode>, i: nat)
    requires StrictlyRanked(side, pegged) && KeysBounded(pegged)
    requires i + 1 < |pegged| && !IsSkipped(oracle, pegged[i], side) && IsSkipped(oracle, pegged[i + 1], side)
    ensures forall l :: l in pegged[i + 1..] ==> IsSkipped(oracle, l, side)
  {
    forall l | l in pegged[i + 1..]
      ensures IsSkipped(oracle, l, side)
    {
      var j :| i + 1 <= j < |pegged| && pegged[j] == l;
      if j > i + 1 && !IsSkipped(oracle, l, side) {
        UnskippedAreContiguous(side, oracle, pegged[i], pegged[i + 1], pegged[j]);
      }
    }
  }

  ghost predicate AllSkipped(side: Side, oracle: int, s: seq<LeafNode>) {
    forall l :: l in s ==> IsSkipped(oracle, l, side)
  }

  lemma YieldsMore(item: Item, tail: seq<Item>, leaf: LeafNode)
    ensures Yields([item] + tail, leaf) <==> (item.comp.OraclePegged? && item.leaf == leaf) || Yields(tail, leaf)
  {
    var s := [item] + tail;
    if item.comp.OraclePegged? && item.leaf == leaf { assert s[0].leaf == leaf; }
    if Yields(tail, leaf) {
      var i :| 0 <= i < |tail| && tail[i].comp.OraclePegged? && tail[i].leaf == leaf;
      assert s[i + 1] == tail[i];
    }
  }

  /** As long as the pegged iterator stands at an order that can be matched, nothing is lost. */
  lemma {:induction false} CompleteFromUnskipped(side: Side, fixed: seq<LeafNode>, pegged: seq<LeafNode>, now: int, oracle: int)
    requires StrictlyRanked(side, pegged) && KeysBounded(pegged)
    requires pegged == [] || !IsSkipped(oracle, pegged[0], side) || AllSkipped(side, oracle, pegged)
    ensures YieldsAllUnskipped(Items(side, fixed, pegged, now, Some(oracle)), side, pegged, oracle)
    decreases |fixed| + |pegged|
  {
    if pegged != [] && !IsSkipped(oracle, pegged[0], side) {
      assert PeekPegged(pegged, Some(oracle), side) == (Some(pegged[0]), pegged);
      var (item, fixed', pegged') := Step(side, fixed, pegged, now, Some(oracle)).value;
      SuffixRanked(side, pegged, pegged');
      if pegged' != pegged && pegged' != [] && IsSkipped(oracle, pegged'[0], side) {
        SkippedTail(side, oracle, pegged, 0);
      }
      CompleteFromUnskipped(side, fixed', pegged', now, oracle);
      var tail := Items(side, fixed', pegged', now, Some(oracle));
      forall l | l in pegged && !IsSkipped(oracle, l, side)
        ensures Yields([item] + tail, l)
      {
        YieldsMore(item, tail, l);
        if l != pegged[0] { assert l in pegged[1..]; }
      }
    }
  }

  /** What the iterators no longer have is not yielded later. */
  lemma NotYieldedLater(side: Side, fixed: seq<LeafNode>, pegged: seq<LeafNode>, now: int, oracle: int, leaf: LeafNode)
    requires leaf !in pegged
    ensures !Yields(Items(side, fixed, pegged, now, Some(oracle)), leaf)
  {
    ItemsShowOrders(side, fixed, pegged, now, Some(oracle));
  }

  lemma NotInSuffix(side: Side, s: seq<LeafNode>, i: nat)
    requires StrictlyRanked(side, s) && i < |s|
    ensures s[i] !in s[i + 1..]
  {
  }

  lemma InTail(s: seq<LeafNode>, i: nat, n: nat)
    requires i < |s| && n <= |s|
    ensures n <= i ==> s[i] in s[n..]
  {
    if n <= i { assert s[n..][i - n] == s[i]; }
  }

  /** The first step when the iterator stands at a skipped order. */
  lemma FirstStep(side: Side, fixed: seq<LeafNode>, pegged: seq<LeafNode>, now: int, oracle: int)
    requires pegged != [] && IsSkipped(oracle, pegged[0], side) && NextUnskipped(pegged, oracle, side).0.Some?
    ensures var (o, rest) := NextUnskipped(pegged, oracle, side);
            var better := fixed != [] && Before(side, fixed[0].key, RankKey(PeggedItem(o.value, side, oracle, now)));
            Step(side, fixed, pegged, now, Some(oracle)) ==
              if better then Some((FixedItem(fixed[0], now), fixed[1..], rest))
              else Some((PeggedItem(o.value, side, oracle, now), fixed, Tail(rest)))
  {
  }

  /** The order compared is lost when the fixed one is better. */
  lemma ComparedIsLost(side: Side, fixed: seq<LeafNode>, pegged: seq<LeafNode>, now: int, oracle: int, item: Item, n: nat)
    requires StrictlyRanked(side, pegged) && n < |pegged| && item.comp.Fixed?
    ensures !Yields([item] + Items(side, fixed, pegged[n + 1..], now, Some(oracle)), pegged[n])
  {
    NotInSuffix(side, pegged, n);
    YieldsMore(item, Items(side, fixed, pegged[n + 1..], now, Some(oracle)), pegged[n]);
    NotYieldedLater(side, fixed, pegged[n + 1..], now, oracle, pegged[n]);
  }

  /** The order behind it is lost when the one compared is yielded. */
  lemma NextIsLost(side: Side, fixed: seq<LeafNode>, pegged: seq<LeafNode>, now: int, oracle: int, item: Item, n: nat)
    requires StrictlyRanked(side, pegged) && n + 1 < |pegged| && item.leaf == pegged[n]
    ensures !Yields([item] + Items(side, fixed, pegged[n + 2..], now, Some(oracle)), pegged[n + 1])
  {
    NotInSuffix(side, pegged, n + 1);
    NotInSuffix(side, pegged, n);
    assert pegged[n + 1] == pegged[n + 1..][0];
    YieldsMore(item, Items(side, fixed, pegged[n + 2..], now, Some(oracle)), pegged[n + 1]);
    NotYieldedLater(side, fixed, pegged[n + 2..], now, oracle, pegged[n + 1]);
  }

  lemma OnlyOneLeft(side: Side, pegged: seq<LeafNode>, oracle: int, item: Item, tail: seq<Item>, n: nat)
    requires StrictlyRanked(side, pegged) && KeysBounded(pegged) && n < |pegged|
    requires item.comp.OraclePegged? && item.leaf == pegged[n] && !IsSkipped(oracle, pegged[n], side)
    requires forall i :: 0 <= i < n ==> IsSkipped(oracle, pegged[i], side)
    requires n + 1 == |pegged| || IsSkipped(oracle, pegged[n + 1], side)
    ensures YieldsAllUnskipped([item] + tail, side, pegged, oracle)
  {
    if n + 1 < |pegged| { SkippedTail(side, oracle, pegged, n); }
    forall l | l in pegged && !IsSkipped(oracle, l, side)
      ensures Yields([item] + tail, l)
    {
      var i :| 0 <= i < |pegged| && pegged[i] == l;
      InTail(pegged, i, n + 1);
      YieldsMore(item, tail, l);
    }
  }

  /** When the first pegged order is skipped, the fate of the others is decided in the first step. */
  lemma DecidedAtOnce(side: Side, fixed: seq<LeafNode>, pegged: seq<LeafNode>, now: int, oracle: int)
    requires StrictlyRanked(side, pegged) && KeysBounded(pegged)
    requires pegged != [] && IsSkipped(oracle, pegged[0], side) && NextUnskipped(pegged, oracle, side).0.Some?
    ensures YieldsAllUnskipped(Items(side, fixed, pegged, now, Some(oracle)), side, pegged, oracle)
            <==> NothingPassedOver(side, fixed, pegged, now, oracle)
  {
    hide Yields, StrictlyRanked, KeysBounded, RankKey, IsSkipped, Step, PeekPegged, RankOrders, NextUnskipped;
    FirstStep(side, fixed, pegged, now, oracle);
    var (o, rest) := NextUnskipped(pegged, oracle, side);
    var (item, fixed', pegged') := Step(side, fixed, pegged, now, Some(oracle)).value;
    var tail := Items(side, fixed', pegged', now, Some(oracle));
    var n := |pegged| - |rest| - 1;
    assert pegged[n] == o.value && rest == pegged[n + 1..];
    if item.comp.Fixed? {
      ComparedIsLost(side, fixed', pegged, now, oracle, item, n);
    } else if rest != [] && !IsSkipped(oracle, rest[0], side) {
      assert Tail(rest) == pegged[n + 2..] && rest[0] == pegged[n + 1];
      NextIsLost(side, fixed', pegged, now, oracle, item, n);
    } else {
      OnlyOneLeft(side, pegged, oracle, item, tail, n);
    }
  }

  /** The iterator yields every pegged order that can be matched exactly when nothing is passed over. */
  lemma CompleteExactlyWhen(side: Side, fixed: seq<LeafNode>, pegged: seq<LeafNode>, now: int, oracle: int)
    requires StrictlyRanked(side, pegged) && KeysBounded(pegged)
    ensures YieldsAllUnskipped(Items(side, fixed, pegged, now, Some(oracle)), side, pegged, oracle)
            <==> NothingPassedOver(side, fixed, pegged, now, oracle)
  {
    if pegged == [] || !IsSkipped(oracle, pegged[0], side) {
      CompleteFromUnskipped(side, fixed, pegged, now, oracle);
    } else if NextUnskipped(pegged, oracle, side).0.None? {
      assert AllSkipped(side, oracle, pegged);
      CompleteFromUnskipped(side, fixed, pegged, now, oracle);
    } else {
      DecidedAtOnce(side, fixed, pegged, now, oracle);
    }
  }

  ghost predicate YieldsFixed(s: seq<Item>, leaf: LeafNode, now: int) {
    exists i :: 0 <= i < |s| && s[i] == FixedItem(leaf, now)
  }

  lemma YieldsFixedMore(item: Item, s: seq<Item>, leaf: LeafNode, now: int)
    ensures item == FixedItem(leaf, now) || YieldsFixed(s, leaf, now) ==> YieldsFixed([item] + s, leaf, now)
  {
    var t := [item] + s;
    if YieldsFixed(s, leaf, now) {
      var i :| 0 <= i < |s| && s[i] == FixedItem(leaf, now);
      assert t[i + 1] == s[i];
    }
    if item == FixedItem(leaf, now) { assert t[0] == item; }
  }

  lemma StepsWithFixed(side: Side, fixed: seq<LeafNode>, pegged: seq<LeafNode>, now: int, oracle: Option<int>)
    requires fixed != []
    ensures Step(side, fixed, pegged, now, oracle).Some?
    ensures var (item, fixed', _) := Step(side, fixed, pegged, now, oracle).value;
            (item == FixedItem(fixed[0], now) && fixed' == fixed[1..]) || fixed' == fixed
  {
    hide PeekPegged, RankKey, OraclePeggedPrice;
  }

  /** Every fixed order is yielded, whatever happens to the pegged ones. */
  lemma {:induction false} FixedAlwaysYielded(side: Side, fixed: seq<LeafNode>, pegged: seq<LeafNode>, now: int, oracle: Option<int>, leaf: LeafNode)
    requires leaf in fixed
    ensures YieldsFixed(Items(side, fixed, pegged, now, oracle), leaf, now)
    decreases |fixed| + |pegged|
  {
    StepsWithFixed(side, fixed, pegged, now, oracle);
    hide Step, YieldsFixed, FixedItem;
    var (item, fixed', pegged') := Step(side, fixed, pegged, now, oracle).value;
    if leaf in fixed' {
      FixedAlwaysYielded(side, fixed', pegged', now, oracle, leaf);
    }
    YieldsFixedMore(item, Items(side, fixed', pegged', now, oracle), leaf, now);
  }

  function SampleAsk(offset: int, n: nat): LeafNode
    requires IsI64(offset) && 0 < n < 9
  {
    PegOffsetRoundTrip(offset, offset);
    LeafNode(0, 0, NewNodeKey(Ask, OraclePeggedPriceData(offset), n), Pubkey(1), 1, 0, -1, 0)
  }

  lemma SampleFacts(offset: int, n: nat)
    requires -100 <= offset <= 100 && 0 < n < 9
    ensures var l := SampleAsk(offset, n);
            l.key < U64_SIZE * U64_SIZE && (IsSkipped(50, l, Ask) <==> 50 + offset < 1)
  {
    PegOffsetRoundTrip(offset, offset);
    KeyRoundTrip(Ask, OraclePeggedPriceData(offset), n);
  }

  lemma SamplesOrdered(a: int, m: nat, b: int, n: nat)
    requires IsI64(a) && IsI64(b) && a < b && 0 < m < 9 && 0 < n < 9
    ensures Before(Ask, SampleAsk(a, m).key, SampleAsk(b, n).key)
  {
    PegOffsetRoundTrip(a, b);
    PegOffsetRoundTrip(b, a);
    KeyOrder(Ask, OraclePeggedPriceData(a), m, OraclePeggedPriceData(b), n);
  }

  /** Asks pegged at -100, 5 and 6 around an oracle price of 50: the ask at 56 is never shown. */
  lemma OrderPassedOver()
    ensures var pegged := [SampleAsk(-100, 1), SampleAsk(5, 2), SampleAsk(6, 3)];
            && StrictlyRanked(Ask, pegged) && KeysBounded(pegged)
            && !IsSkipped(50, pegged[2], Ask)
            && !Yields(Items(Ask, [], pegged, 0, Some(50)), pegged[2])
  {
    var pegged := [SampleAsk(-100, 1), SampleAsk(5, 2), SampleAsk(6, 3)];
    SampleFacts(-100, 1);
    SampleFacts(5, 2);
    SampleFacts(6, 3);
    SamplesOrdered(-100, 1, 5, 2);
    SamplesOrdered(5, 2, 6, 3);
    SamplesOrdered(-100, 1, 6, 3);
    hide SampleAsk, IsSkipped, NewNodeKey, OraclePeggedPriceData, RankKey;
    assert pegged[1..][0] == pegged[1];
    assert NextUnskipped(pegged, 50, Ask) == (Some(pegged[1]), pegged[2..]);
    FirstStep(Ask, [], pegged, 0, 50);
    var (item, fixed', pegged') := Step(Ask, [], pegged, 0, Some(50)).value;
    assert item.leaf == pegged[1] && pegged' == [];
    NotYieldedLater(Ask, fixed', pegged', 0, 50, pegged[2]);
    YieldsMore(item, Items(Ask, fixed', pegged', 0, Some(50)), pegged[2]);
  }
}
