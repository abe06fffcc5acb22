/** Which orders make room for a new one, in terms of their own fields: one that has run out of time, and the worst of a full
    side. */
module Evictions {
  import opened Types
  import opened Rankings
  import opened Prices
  import opened BookSideModels
  import opened Exchanges
  import opened BookItems

  // ---------- the worst order ----------

  /** The price at which an order is ranked: its own, or the nearest that can be represented. */
  function RankedPrice(comp: Component, key: nat, oracle: int): int {
    var price := PriceOf(comp, key, oracle);
    if price < 1 then 1 else if price > 0x7FFF_FFFF_FFFF_FFFF then 0x7FFF_FFFF_FFFF_FFFF else price
  }

  /** The orders that are ranked: without an oracle price only the fixed ones. */
  predicate IsRanked(m: BookSideModel, comp: Component, key: nat, oracle: Option<int>) {
    key in m.Get(comp) && (comp.OraclePegged? ==> oracle.Some?)
  }

  predicate IsWorse(side: Side, a: int, b: int) { if side.Bid? then a < b else a > b }

  /** No ranked order has a worse price; if all prices can be represented, none at the same price has arrived later. */
  ghost predicate RanksLast(m: BookSideModel, side: Side, oracle: Option<int>, item: Item) {
    && IsRanked(m, item.comp, item.leaf.key, oracle) && m.Get(item.comp)[item.leaf.key] == item.leaf
    && item.price == RankedPrice(item.comp, item.leaf.key, OracleOr(oracle))
    && forall comp, key :: IsRanked(m, comp, key, oracle) ==>
         && !IsWorse(side, RankedPrice(comp, key, OracleOr(oracle)), item.price)
         && (RankedPrice(comp, key, OracleOr(oracle)) == item.price
             && (oracle.Some? ==> AllHavePrices(m.pegged, oracle.value)) ==>
               SeqNumOf(side, key) <= SeqNumOf(side, item.leaf.key))
  }

  ghost predicate AllHavePrices(orders: map<nat, LeafNode>, oracle: int) {
    forall k :: k in orders ==> 1 <= PriceOf(OraclePegged, k, oracle) <= 0x7FFF_FFFF_FFFF_FFFF
  }

  /** The items that are compared. */
  function ItemFor(comp: Component, leaf: LeafNode, side: Side, now: int, oracle: int): Item {
    if comp.Fixed? then FixedItem(leaf, now) else PeggedItem(leaf, side, oracle, now)
  }

  lemma ItemForIs(comp: Component, leaf: LeafNode, side: Side, now: int, oracle: int)
    requires leaf.key < U64_SIZE * U64_SIZE && (comp.Fixed? ==> 1 <= leaf.PriceData() <= I64_MAX)
    ensures var item := ItemFor(comp, leaf, side, now, oracle);
            && item.comp == comp && item.leaf == leaf && item.price == RankedPrice(comp, leaf.key, oracle) >= 1
            && RankKey(item) / U64_SIZE == item.price && RankKey(item) % U64_SIZE == leaf.key % U64_SIZE
  {
    PegDataRoundTrip(leaf.PriceData());
    RankKeyParts(ItemFor(comp, leaf, side, now, oracle));
    hide RankKey;
  }

  /** The last order of a tree against the others of that tree. */
  lemma LastOfTree(m: BookSideModel, side: Side, comp: Component, key: nat, now: int, oracle: int)
    requires BookOk(m) && key in m.Get(comp)
    ensures var last := Worst(side, m.Get(comp));
            && last.Some? && last.value.key in m.Get(comp) && m.Get(comp)[last.value.key] == last.value
            && !IsWorse(side, RankedPrice(comp, key, oracle), RankedPrice(comp, last.value.key, oracle))
            && (RankedPrice(comp, key, oracle) == RankedPrice(comp, last.value.key, oracle)
                && (comp.OraclePegged? ==> AllHavePrices(m.pegged, oracle)) ==>
                  SeqNumOf(side, key) <= SeqNumOf(side, last.value.key))
  {
    var last := Worst(side, m.Get(comp)).value;
    assert if comp.Fixed? then FixedOk(m.fixed[key]) && FixedOk(last) else PeggedOk(m.pegged[key]) && PeggedOk(last);
    hide BookOk, Worst;
    assert key == last.key || Before(side, key, last.key);
    KeyParts(side, key, last.key);
  }

  lemma KeyParts(side: Side, a: nat, b: nat)
    requires a == b || Before(side, a, b)
    ensures var (p, q) := (a / U64_SIZE, b / U64_SIZE);
            !IsWorse(side, p, q) && (p == q ==> SeqNumOf(side, a) <= SeqNumOf(side, b))
  {
  }

  lemma WorstIs(m: BookSideModel, side: Side, now: int, oracle: Option<int>)
    ensures var (f, p) := (Worst(side, m.fixed), if oracle.Some? then Worst(side, m.pegged) else None);
            var r := WorstItem(m, side, now, oracle);
            && (f.None? && p.None? ==> r.None?)
            && (f.Some? && p.None? ==> r == Some(ItemFor(Fixed, f.value, side, now, OracleOr(oracle))))
            && (f.None? && p.Some? ==> r == Some(ItemFor(OraclePegged, p.value, side, now, OracleOr(oracle))))
            && (f.Some? && p.Some? ==>
                  var (a, b) := (ItemFor(Fixed, f.value, side, now, OracleOr(oracle)),
                                 ItemFor(OraclePegged, p.value, side, now, OracleOr(oracle)));
                  r == Some(if Before(side, RankKey(a), RankKey(b)) then b else a))
  {
    hide Worst, FixedItem, OraclePeggedPrice;
  }

  /** The last order of each tree, as it is ranked. */
  lemma LastIs(m: BookSideModel, side: Side, comp: Component, now: int, oracle: int)
    requires BookOk(m) && Worst(side, m.Get(comp)).Some?
    ensures var leaf := Worst(side, m.Get(comp)).value;
            var item := ItemFor(comp, leaf, side, now, oracle);
            && leaf.key in m.Get(comp) && m.Get(comp)[leaf.key] == leaf
            && item.comp == comp && item.leaf == leaf && item.price == RankedPrice(comp, leaf.key, oracle) >= 1
            && (comp.Fixed? ==> item.price == leaf.key / U64_SIZE)
  {
    var leaf := Worst(side, m.Get(comp)).value;
    assert if comp.Fixed? then FixedOk(leaf) else PeggedOk(leaf);
    hide BookOk, Worst, ItemFor, RankedPrice;
    ItemForIs(comp, leaf, side, now, oracle);
    if comp.Fixed? { FixedPrice(leaf, side, now, oracle); }
  }

  lemma FixedPrice(leaf: LeafNode, side: Side, now: int, oracle: int)
    ensures ItemFor(Fixed, leaf, side, now, oracle).price == leaf.key / U64_SIZE
  {
  }

  /** One ranked order against the worst. */
  lemma NotBehindWorst(m: BookSideModel, side: Side, now: int, oracle: Option<int>, comp: Component, key: nat)
    requires BookOk(m) && IsRanked(m, comp, key, oracle)
    ensures var (r, price) := (WorstItem(m, side, now, oracle), RankedPrice(comp, key, OracleOr(oracle)));
            && r.Some? && !IsWorse(side, price, r.value.price)
            && (price == r.value.price && (oracle.Some? ==> AllHavePrices(m.pegged, oracle.value)) ==>
                  SeqNumOf(side, key) <= SeqNumOf(side, r.value.leaf.key))
  {
    var o := OracleOr(oracle);
    LastOfTree(m, side, comp, key, now, o);
    WorstIs(m, side, now, oracle);
    hide WorstItem, Worst, BookOk, RankKey, RankedPrice, ItemFor, AllHavePrices, SeqNumOf;
    if Worst(side, m.fixed).Some? { LastIs(m, side, Fixed, now, o); }
    if Worst(side, m.pegged).Some? { LastIs(m, side, OraclePegged, now, o); }
    if Worst(side, m.fixed).Some? && Worst(side, m.pegged).Some? {
      var (a, b) := (ItemFor(Fixed, Worst(side, m.fixed).value, side, now, o),
                     ItemFor(OraclePegged, Worst(side, m.pegged).value, side, now, o));
      RankKeysTell(side, a, b);
      RankKeysTell(side, b, a);
    }
  }

  /** What `remove_worst` takes out of a full side: nothing ranks behind it. */
  lemma WorstRanksLast(m: BookSideModel, side: Side, now: int, oracle: Option<int>)
    requires BookOk(m)
    ensures var r := WorstItem(m, side, now, oracle);
            && (r.Some? ==> RanksLast(m, side, oracle, r.value))
            && (r.None? ==> forall comp, key :: !IsRanked(m, comp, key, oracle))
  {
    var r, o := WorstItem(m, side, now, oracle), OracleOr(oracle);
    WorstIs(m, side, now, oracle);
    hide WorstItem, Worst, BookOk, RankKey, RankedPrice, ItemFor, AllHavePrices, SeqNumOf, IsWorse, Before;
    forall comp, key | IsRanked(m, comp, key, oracle)
      ensures var price := RankedPrice(comp, key, o);
              && r.Some? && !IsWorse(side, price, r.value.price)
              && (price == r.value.price && (oracle.Some? ==> AllHavePrices(m.pegged, oracle.value)) ==>
                    SeqNumOf(side, key) <= SeqNumOf(side, r.value.leaf.key))
    {
      NotBehindWorst(m, side, now, oracle, comp, key);
    }
    if Worst(side, m.fixed).Some? { LastIs(m, side, Fixed, now, o); }
    if oracle.Some? && Worst(side, m.pegged).Some? { LastIs(m, side, OraclePegged, now, o); }
  }

  // ---------- an order that has run out of time ----------

  predicate HasRunOut(leaf: LeafNode, now: int) { leaf.timeInForce > 0 && leaf.timestamp + leaf.timeInForce < now }

  ghost predicate NoneHasRunOut(orders: map<nat, LeafNode>, now: int) {
    forall k :: k in orders ==> !HasRunOut(orders[k], now)
  }

  /** Of the orders of one tree that have run out of time, this one did first. */
  ghost predicate RanOutFirst(orders: map<nat, LeafNode>, key: nat, now: int) {
    && key in orders && HasRunOut(orders[key], now)
    && forall k :: k in orders && HasRunOut(orders[k], now) ==>
         orders[key].timestamp + orders[key].timeInForce <= orders[k].timestamp + orders[k].timeInForce
  }

  lemma TreeRunsOut(orders: map<nat, LeafNode>, now: int)
    requires KeysMatch(orders) && now <= U64_MAX
    ensures var r := ExpiredOrder(orders, now);
            && (r.None? ==> NoneHasRunOut(orders, now))
            && (r.Some? ==> RanOutFirst(orders, r.value.key, now) && orders[r.value.key] == r.value)
  {
  }

  /** What `remove_one_expired` takes out: of the preferred tree what ran out of time first, else of the other one. */
  lemma ExpiredRanOut(m: BookSideModel, comp: Component, now: int)
    requires BookOk(m) && now <= U64_MAX
    ensures var from := ExpiredComponent(m, comp, now);
            var r := ExpiredOrder(m.Get(from), now);
            && (r.None? ==> NoneHasRunOut(m.fixed, now) && NoneHasRunOut(m.pegged, now))
            && (r.Some? ==> RanOutFirst(m.Get(from), r.value.key, now) && m.Get(from)[r.value.key] == r.value)
            && (from != comp ==> NoneHasRunOut(m.Get(comp), now))
  {
    TreeRunsOut(m.fixed, now);
    TreeRunsOut(m.pegged, now);
    hide ExpiredOrder, NoneHasRunOut, RanOutFirst;
  }
}
