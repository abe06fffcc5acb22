/** What the iteration over a book side says about its orders, in terms of their own fields: whether they can be matched, at
    which price, and in which order. */
module BookItems {
  import opened Types
  import opened Rankings
  import opened Prices
  import opened Iterations
  import opened BookSideModels
  import opened Exchanges
  import opened ExchangeSpending

  /** The price of an order under a key: a fixed one has it in the upper half, a pegged one its offset from the oracle price. */
  function PriceOf(comp: Component, key: nat, oracle: int): int {
    if comp.Fixed? then key / 0x1_0000_0000_0000_0000
    else oracle + (key / 0x1_0000_0000_0000_0000 - 0x8000_0000_0000_0000)
  }

  /** The order has not run out of time, and is not past its peg limit. */
  predicate IsAlive(side: Side, comp: Component, leaf: LeafNode, now: int, oracle: int) {
    && (leaf.timeInForce == 0 || now < leaf.timestamp + leaf.timeInForce)
    && (comp.OraclePegged? && leaf.pegLimit != -1 ==>
          if side.Bid? then PriceOf(comp, leaf.key, oracle) <= leaf.pegLimit else PriceOf(comp, leaf.key, oracle) >= leaf.pegLimit)
  }

  /** The price can be represented; there is none without an oracle price. */
  predicate HasPrice(comp: Component, leaf: LeafNode, oracle: Option<int>) {
    comp.OraclePegged? ==> oracle.Some? && 1 <= PriceOf(comp, leaf.key, oracle.value) < 0x7FFF_FFFF_FFFF_FFFF
  }

  function OracleOr(oracle: Option<int>): int { if oracle.Some? then oracle.value else 0 }

  /** The item shows an order of the book at its price, as one that can be matched exactly if it can. */
  ghost predicate IsTrue(m: BookSideModel, side: Side, now: int, oracle: Option<int>, item: Item) {
    && item.leaf.key in m.Get(item.comp) && m.Get(item.comp)[item.leaf.key] == item.leaf
    && HasPrice(item.comp, item.leaf, oracle) && item.price == PriceOf(item.comp, item.leaf.key, OracleOr(oracle)) >= 1
    && (item.state.Valid? <==> IsAlive(side, item.comp, item.leaf, now, OracleOr(oracle)))
  }

  ghost predicate AllTrue(m: BookSideModel, side: Side, now: int, oracle: Option<int>, items: seq<Item>) {
    forall i :: 0 <= i < |items| ==> IsTrue(m, side, now, oracle, items[i])
  }

  lemma FixedIsTrue(leaf: LeafNode, side: Side, now: int)
    ensures var item := FixedItem(leaf, now);
            && item.leaf == leaf && item.comp.Fixed? && item.price == PriceOf(Fixed, leaf.key, 0)
            && (item.state.Valid? <==> IsAlive(side, Fixed, leaf, now, 0))
  {
  }

  /** Exactly the orders without a representable price are passed over. */
  lemma SkippedExactlyWhen(leaf: LeafNode, side: Side, oracle: int)
    requires leaf.key < U64_SIZE * U64_SIZE
    ensures IsSkipped(oracle, leaf, side) <==> !HasPrice(OraclePegged, leaf, Some(oracle))
  {
    PegDataRoundTrip(leaf.PriceData());
  }

  lemma PeggedIsTrue(leaf: LeafNode, side: Side, oracle: int, now: int)
    requires leaf.key < U64_SIZE * U64_SIZE && !IsSkipped(oracle, leaf, side)
    ensures var item := PeggedItem(leaf, side, oracle, now);
            && item.leaf == leaf && item.comp.OraclePegged? && item.price == PriceOf(OraclePegged, leaf.key, oracle)
            && (item.state.Valid? <==> IsAlive(side, OraclePegged, leaf, now, oracle))
  {
    PegDataRoundTrip(leaf.PriceData());
  }

  /** Everything the iteration yields is true: an order is shown as valid exactly when it has time left and keeps to its peg
      limit, and its price is the one in its key, or its offset from the oracle price. */
  lemma ItemsAreTrue(m: BookSideModel, side: Side, now: int, oracle: Option<int>)
    requires BookOk(m)
    ensures AllTrue(m, side, now, oracle, Items(side, Ranked(side, m.fixed), Ranked(side, m.pegged), now, oracle))
  {
    var fixed, pegged := Ranked(side, m.fixed), Ranked(side, m.pegged);
    var items := Items(side, fixed, pegged, now, oracle);
    RankedIsRanked(side, m.fixed);
    RankedIsRanked(side, m.pegged);
    ItemsShowOrders(side, fixed, pegged, now, oracle);
    hide Items, FixedItem, PeggedItem, IsSkipped, PriceOf, IsAlive, Ranked, StrictlyRanked;
    forall i | 0 <= i < |items|
      ensures IsTrue(m, side, now, oracle, items[i])
    {
      var item := items[i];
      assert ShowsOrder(item, side, fixed, pegged, now, oracle);
      ItemIsTrue(m, side, now, oracle, item);
    }
  }

  lemma ItemIsTrue(m: BookSideModel, side: Side, now: int, oracle: Option<int>, item: Item)
    requires BookOk(m) && ShowsOrder(item, side, Ranked(side, m.fixed), Ranked(side, m.pegged), now, oracle)
    ensures IsTrue(m, side, now, oracle, item)
  {
    var leaf := item.leaf;
    RankedIsRanked(side, m.fixed);
    RankedIsRanked(side, m.pegged);
    hide Ranked, StrictlyRanked, FixedItem, PeggedItem, IsSkipped, IsAlive;
    assert leaf.key in m.Get(item.comp) && m.Get(item.comp)[leaf.key] == leaf;
    assert if item.comp.Fixed? then FixedOk(leaf) else PeggedOk(leaf);
    if item.comp.Fixed? {
      FixedIsTrue(leaf, side, now);
      AliveWithoutOracle(leaf, side, now, OracleOr(oracle));
    } else {
      SkippedExactlyWhen(leaf, side, oracle.value);
      PeggedIsTrue(leaf, side, oracle.value, now);
    }
  }

  lemma AliveWithoutOracle(leaf: LeafNode, side: Side, now: int, oracle: int)
    ensures IsAlive(side, Fixed, leaf, now, oracle) == IsAlive(side, Fixed, leaf, now, 0)
  {
  }

  /** Better prices come first, and of orders at the same price those that arrived first, whichever tree they are in. */
  ghost predicate InPriceTimeOrder(side: Side, items: seq<Item>) {
    forall i, j :: 0 <= i < j < |items| ==>
      || (if side.Bid? then items[i].price > items[j].price else items[i].price < items[j].price)
      || (items[i].price == items[j].price && SeqNumOf(side, items[i].leaf.key) <= SeqNumOf(side, items[j].leaf.key))
  }

  lemma RankKeyParts(item: Item)
    requires item.price >= 1 && (item.comp.Fixed? ==> item.price == item.leaf.key / U64_SIZE)
    ensures RankKey(item) / U64_SIZE == item.price && RankKey(item) % U64_SIZE == item.leaf.key % U64_SIZE
  {
    if item.comp.OraclePegged? {
      DivModUnique(RankKey(item), item.price, item.leaf.key % U64_SIZE);
    }
  }

  /** Price-time order is the order of the keys by which items are ranked. */
  lemma RankKeysTell(side: Side, a: Item, b: Item)
    requires a.price >= 1 && (a.comp.Fixed? ==> a.price == a.leaf.key / U64_SIZE)
    requires b.price >= 1 && (b.comp.Fixed? ==> b.price == b.leaf.key / U64_SIZE)
    ensures !Before(side, RankKey(b), RankKey(a)) <==>
              || (if side.Bid? then a.price > b.price else a.price < b.price)
              || (a.price == b.price && SeqNumOf(side, a.leaf.key) <= SeqNumOf(side, b.leaf.key))
  {
    RankKeyParts(a);
    RankKeyParts(b);
    hide RankKey;
  }

  lemma ItemsInPriceTimeOrder(m: BookSideModel, side: Side, now: int, oracle: Option<int>)
    requires BookOk(m)
    ensures InPriceTimeOrder(side, Items(side, Ranked(side, m.fixed), Ranked(side, m.pegged), now, oracle))
  {
    var fixed, pegged := Ranked(side, m.fixed), Ranked(side, m.pegged);
    RankedIsRanked(side, m.fixed);
    RankedIsRanked(side, m.pegged);
    PeggedKeysBounded(m, side);
    ItemsInMergeOrder(side, fixed, pegged, now, oracle);
    ItemsAreTrue(m, side, now, oracle);
    var items := Items(side, fixed, pegged, now, oracle);
    hide Items, Ranked, StrictlyRanked, BookOk, RankKey, SeqNumOf, IsAlive;
    forall i, j | 0 <= i < j < |items|
      ensures || (if side.Bid? then items[i].price > items[j].price else items[i].price < items[j].price)
              || (items[i].price == items[j].price && SeqNumOf(side, items[i].leaf.key) <= SeqNumOf(side, items[j].leaf.key))
    {
      assert IsTrue(m, side, now, oracle, items[i]) && IsTrue(m, side, now, oracle, items[j]);
      RankKeysTell(side, items[i], items[j]);
    }
  }
}
