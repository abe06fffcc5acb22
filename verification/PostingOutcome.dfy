/** What a new order puts on the book, in terms of what it states: when it is posted, at which price, how much of it, and
    which orders make room for it. */
module PostingOutcomes {
  import opened Types
  import opened Prices
  import opened Markets
  import opened Accounts
  import opened Ledgers
  import opened BookSideModels
  import opened Matching
  import opened MatchingLaws
  import opened MatchingTerms
  import opened Posting
  import opened Exchanges
  import opened ExchangeInvariants
  import opened ExchangePosting
  import opened ExchangeOrders
  import opened ExchangeNewOrder
  import opened ExchangeSpending
  import opened OrderLaws
  import opened BookItems
  import opened OrderTerms
  import opened OrderOutcomes
  import opened Evictions

  // ---------- how much ----------

  /** `q` lots at `price`, and a maker fee at `rate` on them, fit in `quote` lots; one more lot would not, or there is none. */
  predicate IsMost(base: int, quote: int, price: int, rate: int, q: int) {
    && q <= base && q * price * 1_000_000 <= quote * (1_000_000 - rate)
    && (q == base || quote * (1_000_000 - rate) < (q + 1) * price * 1_000_000)
  }

  /** The price at which an order locks funds: bids that are pegged lock at their peg limit. */
  function LockPrice(o: Order, price: int): int {
    if o.side.Bid? && o.params.PeggedOrder? then o.params.pegLimit else price
  }

  /** The quote lots left to be posted, when those taken and the fee on them, in whole lots, are paid. */
  function RestOfQuote(c: Config, o: Order, takenQuote: int, takerFees: int): int
    requires c.Ok()
  {
    o.maxQuoteLotsIncludingFees - takenQuote - (takerFees + c.quoteLotSize - 1) / c.quoteLotSize
  }

  lemma LockPriceIs(o: Order, price: int)
    requires OrderOk(o)
    ensures LockingPrice(o, price) == LockPrice(o, price)
  {
  }

  lemma LessFee(c: Config, quote: int)
    requires c.Ok() && quote >= 0
    ensures var room := quote - MakerFeesCeil(c, quote);
            0 <= room && room * 1_000_000 <= quote * (1_000_000 - FeeRate(c, false)) < (room + 1) * 1_000_000
  {
    FeesRound(c, quote);
    FeeBounds(c, quote);
    hide MakerFeesCeil;
    Distribute(1_000_000 - FeeRate(c, false), FeeRate(c, false), quote);
  }

  lemma MostLots(base: int, room: int, price: int)
    requires price >= 1 && room >= 0
    ensures var q := Min(base, TruncDiv(room, price));
            q <= base && q * price <= room && (q == base || room < (q + 1) * price)
  {
    var m := TruncDiv(room, price);
    assert m * price <= room < m * price + price;
    MulOrder(Min(base, m), m, price);
    assert (m + 1) * price == m * price + price;
  }

  /** What is left is posted as far as quote and maker fee allow; nothing, if they allow no lot. */
  lemma QuantityIsMost(c: Config, o: Order, price: int, base: int, takenQuote: int, takerFees: int)
    requires c.Ok() && LockingPrice(o, price) >= 1 && takerFees >= 0 && base >= 0
    ensures var q := PostQuantity(c, o, price, base, takenQuote, takerFees);
            var (quote, lock, rate) := (RestOfQuote(c, o, takenQuote, takerFees), LockingPrice(o, price), FeeRate(c, false));
            && (q >= 1 ==> IsMost(base, quote, lock, rate, q))
            && (q <= 0 ==> base <= 0 || quote * (1_000_000 - rate) < lock * 1_000_000)
  {
    var (quote, lock, rate) := (RestOfQuote(c, o, takenQuote, takerFees), LockingPrice(o, price), FeeRate(c, false));
    var q := PostQuantity(c, o, price, base, takenQuote, takerFees);
    QuantityIs(c, o, price, base, takenQuote, takerFees);
    hide PostQuantity, RestOfQuote, LockingPrice, TruncDiv, MakerFeesCeil;
    if quote <= 0 {
      NegativePostsNothing(c, quote, lock);
      MulOrder(quote, 0, 1_000_000 - rate);
    } else {
      var room := quote - MakerFeesCeil(c, quote);
      LessFee(c, quote);
      MostLots(base, room, lock);
      MulOrder(q * lock, room, 1_000_000);
      if q != base { MulOrder(room + 1, (q + 1) * lock, 1_000_000); }
      if q <= 0 && q != base { MulOrder(q + 1, 1, lock); MulOrder((q + 1) * lock, lock, 1_000_000); }
    }
  }

  lemma QuantityIs(c: Config, o: Order, price: int, base: int, takenQuote: int, takerFees: int)
    requires c.Ok() && LockingPrice(o, price) >= 1 && takerFees >= 0
    ensures var quote := RestOfQuote(c, o, takenQuote, takerFees);
            PostQuantity(c, o, price, base, takenQuote, takerFees)
            == Min(base, TruncDiv(quote - MakerFeesCeil(c, quote), LockingPrice(o, price)))
  {
  }

  // ---------- when ----------

  predicate MayRest(o: Order) { o.params.FixedOrder? || o.params.PeggedOrder? }

  predicate KeepsPegLimit(o: Order, price: int) {
    o.params.PeggedOrder? ==> if o.side.Bid? then price <= o.params.pegLimit else price >= o.params.pegLimit
  }

  /** The order has come to the end of the opposing orders, has spent what it may take, or stands at one beyond its price. */
  ghost predicate IsFree(o: Order, items: seq<Item>, actions: seq<Action>, n: nat, quote: int, price: int) {
    n <= |items| && (|| n == |items| || TakenBase(actions) == o.maxBaseLots || TakenQuote(actions) == quote
                     || (items[n].state.Valid? && if o.side.Bid? then items[n].price > price else items[n].price < price))
  }

  /** The base lots left, and the quote lots left for them. */
  ghost function BaseLeft(ex: Exchange, env: Env, o: Order, limit: nat): int
    requires Succeeds(ex, env, o, limit)
  {
    o.maxBaseLots - TakenBase(Deals(ex, env, o, limit))
  }

  ghost function QuoteLeft(ex: Exchange, env: Env, o: Order, limit: nat): int
    requires Succeeds(ex, env, o, limit)
  {
    RestOfQuote(ex.market.config, o, TakenQuote(Deals(ex, env, o, limit)), Outcome(ex, env, o, limit).takerFees)
  }

  /** The facts that decide. */
  lemma RestFacts(ex: Exchange, env: Env, o: Order, limit: nat)
    requires Succeeds(ex, env, o, limit)
    ensures var (c, w, (price, data), p) :=
              (ex.market.config, WalkFor(ex, env, o, limit), PriceFor(ex, env, o), Outcome(ex, env, o, limit));
            var taken := TakeOrder(ex, env, o, price, w);
            && taken.Ok? && IsU64(data) && IsU64(ex.market.seqNum + 1) && LockingPrice(o, price) == LockPrice(o, price) >= 1
            && p.takerFees == taken.value.takerFees >= 0 && taken.value.orderId.None?
            && w.left.base == BaseLeft(ex, env, o, limit) >= 0
            && w.left.quote == OrderMaxQuote(c, o) - TakenQuote(Deals(ex, env, o, limit))
            && IsQuoteToTake(c, o, OrderMaxQuote(c, o)) && IsPriceFor(o, env.oracle, Opposing(ex, env, o), price)
            && Opposing(ex, env, o) == ItemsOf(ex, o.side.Invert(), env.now, env.oracle)
            && (MayPost(w.stop) <==>
                  IsFree(o, Opposing(ex, env, o), Deals(ex, env, o, limit), Reached(ex, env, o, limit), OrderMaxQuote(c, o), price))
            && var q := PostQuantity(c, o, price, BaseLeft(ex, env, o, limit), TakenQuote(Deals(ex, env, o, limit)), p.takerFees);
               PostRest(c, taken.value, env, o, price, NewNodeKey(o.side, data, ex.market.seqNum + 1), PostedTo(o, price, w.stop, q), q)
               == Ok(p)
  {
    hide *;
    var (c, w, (price, data)) := (ex.market.config, WalkFor(ex, env, o, limit), PriceFor(ex, env, o));
    var (items, t, b) := (Opposing(ex, env, o), TakerFor(ex, env, o), BudgetFor(ex, o, limit));
    Accepted(ex, env, o, limit);
    Definitions(ex, env, o, limit);
    Stages(ex, env, o, limit);
    WalkIs(ex, env, o, limit);
    ReachedIs(ex, env, o, limit);
    BaseLeftIs(ex, env, o, limit);
    WalkTotals(t, items, b);
    WalkStopsFree(t, items, b);
    StartIsOk(c, o, limit);
    PriceIsRight(o, env.oracle, items);
    LockPriceIs(o, price);
    NoIdYet(ex, env, o, price, w);
    TakeOrderReferrer(ex, env, o, price, w);
    FeesNotBelowZero(c, TakenQuote(w.actions), SelfQuote(t, w.actions));
    var taken := TakeOrder(ex, env, o, price, w).value;
    var q := PostQuantity(c, o, price, w.left.base, TakenQuote(w.actions), taken.takerFees);
    PostRestIs(c, taken, env, o, price, NewNodeKey(o.side, data, ex.market.seqNum + 1), PostedTo(o, price, w.stop, q), q);
    FreeIs(ex, env, o, w, items, Reached(ex, env, o, limit), OrderMaxQuote(c, o));
    LeftIsOk(w);
  }

  lemma BaseLeftIs(ex: Exchange, env: Env, o: Order, limit: nat)
    requires Succeeds(ex, env, o, limit)
    ensures BaseLeft(ex, env, o, limit) == o.maxBaseLots - TakenBase(Deals(ex, env, o, limit))
  {
    hide Succeeds, Deals, TakenBase;
  }

  lemma FreeIs(ex: Exchange, env: Env, o: Order, w: Walked, items: seq<Item>, n: nat, quote: int)
    requires w.left.base == o.maxBaseLots - TakenBase(w.actions) && w.left.quote == quote - TakenQuote(w.actions)
    ensures StopsFree(TakerFor(ex, env, o), items, w.left, n) <==> IsFree(o, items, w.actions, n, quote, PriceFor(ex, env, o).0)
  {
    hide PriceFor, TakenBase, TakenQuote, MayTake;
  }

  lemma TargetIs(o: Order, price: int, stop: Stop, q: int)
    requires OrderOk(o)
    ensures PostedTo(o, price, stop, q)
         == if MayPost(stop) && q >= 1 && KeepsPegLimit(o, price) && MayRest(o)
            then Some(if o.params.PeggedOrder? then OraclePegged else Fixed) else None
  {
  }

  lemma QuoteLeftIs(ex: Exchange, env: Env, o: Order, limit: nat)
    requires Succeeds(ex, env, o, limit)
    ensures OrderOk(o)
    ensures QuoteLeft(ex, env, o, limit)
         == RestOfQuote(ex.market.config, o, TakenQuote(Deals(ex, env, o, limit)), Outcome(ex, env, o, limit).takerFees)
  {
    hide Deals, TakenQuote, Outcome;
  }

  /** An order is posted if and only if it is of a kind that rests, is free to, keeps its peg limit at its price, and the base
      and quote that it has left come to at least a lot with its maker fee. */
  lemma PostedExactlyWhen(ex: Exchange, env: Env, o: Order, limit: nat)
    requires Succeeds(ex, env, o, limit)
    ensures var (c, (price, _), quote) := (ex.market.config, PriceFor(ex, env, o), OrderMaxQuote(ex.market.config, o));
            && IsPriceFor(o, env.oracle, Opposing(ex, env, o), price) && IsQuoteToTake(c, o, quote)
            && (Outcome(ex, env, o, limit).orderId.Some? <==>
                  && MayRest(o) && KeepsPegLimit(o, price)
                  && IsFree(o, Opposing(ex, env, o), Deals(ex, env, o, limit), Reached(ex, env, o, limit), quote, price)
                  && BaseLeft(ex, env, o, limit) >= 1
                  && LockPrice(o, price) * 1_000_000 <= QuoteLeft(ex, env, o, limit) * (1_000_000 - FeeRate(c, false)))
  {
    hide *;
    var (c, w, (price, data)) := (ex.market.config, WalkFor(ex, env, o, limit), PriceFor(ex, env, o));
    Accepted(ex, env, o, limit);
    RestFacts(ex, env, o, limit);
    QuoteLeftIs(ex, env, o, limit);
    var (base, fees) := (BaseLeft(ex, env, o, limit), Outcome(ex, env, o, limit).takerFees);
    var taken := TakenQuote(Deals(ex, env, o, limit));
    var q := PostQuantity(c, o, price, base, taken, fees);
    QuantityIsMost(c, o, price, base, taken, fees);
    PostRestIs(c, TakeOrder(ex, env, o, price, w).value, env, o, price, NewNodeKey(o.side, data, ex.market.seqNum + 1),
               PostedTo(o, price, w.stop, q), q);
    TargetIs(o, price, w.stop, q);
    MostMeans(base, QuoteLeft(ex, env, o, limit), LockPrice(o, price), FeeRate(c, false), q);
  }

  lemma MostMeans(base: int, quote: int, price: int, rate: int, q: int)
    requires price >= 1
    ensures IsMost(base, quote, price, rate, q) && q >= 1 ==> base >= 1 && price * 1_000_000 <= quote * (1_000_000 - rate)
  {
    if q >= 1 { MulOrder(1, q, price); }
  }

  // ---------- room ----------

  ghost predicate SameBook(m: BookSideModel, m': BookSideModel) {
    m'.fixed == m.fixed && m'.pegged == m.pegged
  }

  ghost predicate Leaves(m: BookSideModel, m': BookSideModel, comp: Component, key: nat) {
    key in m.Get(comp) && m'.Get(comp) == m.Get(comp) - {key} && m'.Get(comp.Other()) == m.Get(comp.Other())
  }

  /** One order that has run out of time leaves, if there is one: of the tree that the new order goes to, if that has one. */
  ghost predicate ExpiredLeaves(m: BookSideModel, m': BookSideModel, comp: Component, now: int) {
    if NoneHasRunOut(m.fixed, now) && NoneHasRunOut(m.pegged, now) then SameBook(m, m')
    else exists from, key :: Leaves(m, m', from, key) && RanOutFirst(m.Get(from), key, now)
                             && (from == comp || NoneHasRunOut(m.Get(comp), now))
  }

  /** If at most one cell is free again and at most one was never used, an order behind which none ranks leaves for the new
      one, whose price is better. */
  ghost predicate WorstLeaves(m: BookSideModel, m': BookSideModel, side: Side, oracle: Option<int>, price: int) {
    if m.bump - m.UsedCells() <= 1 && m.capacity - m.bump <= 1
    then exists item ::
           RanksLast(m, side, oracle, item) && Leaves(m, m', item.comp, item.leaf.key) && IsWorse(side, item.price, price)
    else SameBook(m, m')
  }

  ghost predicate Joins(m: BookSideModel, m': BookSideModel, comp: Component, leaf: LeafNode) {
    m'.Get(comp) == m.Get(comp)[leaf.key := leaf] && m'.Get(comp.Other()) == m.Get(comp.Other())
  }

  /** What posting makes of the order's own side. */
  ghost predicate OwnSideAfter(m: BookSideModel, m': BookSideModel, env: Env, side: Side, price: int, comp: Component,
                               leaf: LeafNode)
  {
    exists m1, m2 ::
      ExpiredLeaves(m, m1, comp, env.now) && WorstLeaves(m1, m2, side, env.oracle, price) && Joins(m2, m', comp, leaf)
  }

  lemma RemovedBook(m: BookSideModel, comp: Component, key: nat)
    requires BookOk(m) && key in m.Get(comp)
    ensures var m' := m.Remove(comp, key); BookOk(m') && Leaves(m, m', comp, key)
  {
    BookRemove(m, comp, key);
    hide BookOk;
  }

  lemma OutKeepsBooks(ex: Exchange, env: Env, e: Event)
    requires e.Out?
    ensures var r := ProcessOut(ex, env, e);
            r.Ok? ==> r.value.orders.bids == ex.orders.bids && r.value.orders.asks == ex.orders.asks
  {
    hide CancelOrder;
  }

  lemma WithoutBook(ex: Exchange, side: Side, comp: Component, key: nat)
    ensures ex.Without(side, comp, key).orders.Book(side) == ex.orders.Book(side).Remove(comp, key)
  {
  }

  lemma ExpiredMakesRoom(ex: Exchange, env: Env, side: Side, comp: Component)
    requires BookOk(ex.orders.Book(side)) && env.now <= U64_MAX
    ensures var r := EvictExpired(ex, env, side, comp);
            var m, m' := ex.orders.Book(side), if r.Ok? then r.value.orders.Book(side) else ex.orders.Book(side);
            r.Ok? ==> BookOk(m') && ExpiredLeaves(m, m', comp, env.now)
  {
    var m := ex.orders.Book(side);
    var from := ExpiredComponent(m, comp, env.now);
    var x := ExpiredOrder(m.Get(from), env.now);
    EvictExpiredIs(ex, env, side, comp);
    ExpiredRanOut(m, comp, env.now);
    hide EvictExpired, ExpiredOrder, ExpiredComponent, ProcessOut, Exchange.Without, BookOk, NoneHasRunOut, OutOf, BookSideModel.Remove;
    if x.Some? {
      FirstHasRunOut(m.Get(from), x.value.key, env.now);
      RemovedBook(m, from, x.value.key);
      WithoutBook(ex, side, from, x.value.key);
      OutKeepsBooks(ex.Without(side, from, x.value.key), env, OutOf(side, x.value));
    }
  }

  lemma FirstHasRunOut(orders: map<nat, LeafNode>, key: nat, now: int)
    requires RanOutFirst(orders, key, now)
    ensures key in orders && !NoneHasRunOut(orders, now)
  {
  }

  lemma WorstMakesRoom(ex: Exchange, env: Env, side: Side, price: int)
    requires BookOk(ex.orders.Book(side))
    ensures var r := EvictWorst(ex, env, side, price);
            var m, m' := ex.orders.Book(side), if r.Ok? then r.value.orders.Book(side) else ex.orders.Book(side);
            r.Ok? ==> BookOk(m') && WorstLeaves(m, m', side, env.oracle, price)
  {
    var m := ex.orders.Book(side);
    var x := WorstItem(m, side, env.now, env.oracle);
    EvictWorstIs(ex, env, side, price);
    WorstRanksLast(m, side, env.now, env.oracle);
    FullIs(m);
    hide EvictWorst, WorstItem, ProcessOut, Exchange.Without, BookOk, OutOf, BookSideModel.Remove, BookSideModel.IsFull,
         BookSideModel.UsedCells;
    if m.IsFull() && x.Some? {
      LastIsRanked(m, side, env.oracle, x.value);
      hide RanksLast;
      RemovedBook(m, x.value.comp, x.value.leaf.key);
      WithoutBook(ex, side, x.value.comp, x.value.leaf.key);
      OutKeepsBooks(ex.Without(side, x.value.comp, x.value.leaf.key), env, OutOf(side, x.value.leaf));
    }
  }

  lemma FullIs(m: BookSideModel)
    ensures m.IsFull() <==> m.bump - m.UsedCells() <= 1 && m.capacity - m.bump <= 1
  {
  }

  lemma LastIsRanked(m: BookSideModel, side: Side, oracle: Option<int>, item: Item)
    requires RanksLast(m, side, oracle, item)
    ensures item.leaf.key in m.Get(item.comp)
  {
  }

  // ---------- the order itself ----------

  /** The order as it rests: what it states, who placed it and when. */
  predicate IsLeafOf(env: Env, o: Order, leaf: LeafNode, key: nat, quantity: int) {
    && leaf.key == key && leaf.owner == env.owner && leaf.quantity == quantity && leaf.timestamp == env.now
    && leaf.timeInForce == o.timeInForce && leaf.clientOrderId == o.clientOrderId
    && leaf.pegLimit == if o.params.PeggedOrder? then o.params.pegLimit else -1
  }

  /** The first slot of its owner that was free names it. */
  predicate IsNamed(ex: Exchange, o: Order, comp: Component, leaf: LeafNode, lock: int) {
    && leaf.owner in ex.accounts
    && var slots := ex.accounts[leaf.owner].slots;
       && leaf.ownerSlot < |slots| && slots[leaf.ownerSlot] == OpenOrder(false, o.side, comp, leaf.key, o.clientOrderId, lock)
       && forall s :: 0 <= s < leaf.ownerSlot ==> !slots[s].isFree
  }

  /** The order joins its side, in a slot of its owner. */
  ghost predicate EntersAs(ex: Exchange, ex': Exchange, env: Env, o: Order, comp: Component, key: nat, quantity: int, lock: int) {
    exists leaf :: IsLeafOf(env, o, leaf, key, quantity) && IsNamed(ex', o, comp, leaf, lock)
                   && Joins(ex.orders.Book(o.side), ex'.orders.Book(o.side), comp, leaf)
  }

  lemma LeafIs(env: Env, o: Order, slot: nat, key: nat, quantity: int)
    ensures var leaf := LeafFor(env, o, slot, key, quantity); IsLeafOf(env, o, leaf, key, quantity) && leaf.ownerSlot == slot
  {
  }

  lemma InsertJoins(m: BookSideModel, comp: Component, leaf: LeafNode)
    ensures m.Insert(comp, leaf).Ok? ==> Joins(m, m.Insert(comp, leaf).value, comp, leaf)
  {
  }

  lemma NamedIs(ex: Exchange, ex': Exchange, env: Env, o: Order, comp: Component, leaf: LeafNode, lock: int)
    requires env.owner in ex.accounts && leaf.owner == env.owner && leaf.clientOrderId == o.clientOrderId
    requires NextOrderSlot(ex.accounts[env.owner]) == Some(leaf.ownerSlot)
    requires ex'.accounts == ex.accounts[env.owner := Posted(ex.market.config, ex.accounts[env.owner], o.side, comp, leaf, lock)]
    ensures IsNamed(ex', o, comp, leaf, lock)
  {
    PostedSlots(ex.market.config, ex.accounts[env.owner], o.side, comp, leaf, lock);
    hide Posted, NextOrderSlotFrom;
  }

  lemma EnterIsRight(ex: Exchange, env: Env, o: Order, comp: Component, lock: int, key: nat, quantity: int)
    ensures var r := Enter(ex, env, o, comp, lock, key, quantity);
            r.Ok? ==> EntersAs(ex, r.value, env, o, comp, key, quantity, lock)
  {
    var r := Enter(ex, env, o, comp, lock, key, quantity);
    if r.Ok? {
      EnterIs(ex, env, o, comp, lock, key, quantity);
      hide Enter, NextOrderSlot, Posted, BookSideModel.Insert, IsLeafOf, IsNamed, Joins, LeafFor;
      var slot := NextOrderSlot(ex.accounts[env.owner]).value;
      var leaf := LeafFor(env, o, slot, key, quantity);
      LeafIs(env, o, slot, key, quantity);
      LeafFields(env, o, leaf, key, quantity);
      InsertJoins(ex.orders.Book(o.side), comp, leaf);
      NamedIs(ex, r.value, env, o, comp, leaf, lock);
      assert IsLeafOf(env, o, leaf, key, quantity);
    }
  }

  lemma LeafFields(env: Env, o: Order, leaf: LeafNode, key: nat, quantity: int)
    requires IsLeafOf(env, o, leaf, key, quantity)
    ensures leaf.owner == env.owner && leaf.clientOrderId == o.clientOrderId && leaf.key == key && leaf.quantity == quantity
  {
  }

  /** The order rests among what its side keeps, in a slot that names it. */
  ghost predicate Rests(ex: Exchange, ex': Exchange, env: Env, o: Order, comp: Component, leaf: LeafNode, price: int) {
    && IsNamed(ex', o, comp, leaf, LockPrice(o, price))
    && OwnSideAfter(ex.orders.Book(o.side), ex'.orders.Book(o.side), env, o.side, price, comp, leaf)
  }

  lemma PostOrderIsRight(ex: Exchange, env: Env, o: Order, comp: Component, price: int, key: nat, quantity: int)
    requires BookOk(ex.orders.Book(o.side)) && env.now <= U64_MAX && OrderOk(o)
    ensures var r := PostOrder(ex, env, o, comp, price, key, quantity);
            r.Ok? ==> exists leaf :: IsLeafOf(env, o, leaf, key, quantity) && Rests(ex, r.value, env, o, comp, leaf, price)
  {
    var r := PostOrder(ex, env, o, comp, price, key, quantity);
    hide EvictExpired, EvictWorst, Enter, BookOk, LockingPrice, LockPrice, OrderOk, IsLeafOf, IsNamed, Joins, WorstLeaves,
         ExpiredLeaves;
    if r.Ok? {
      var ex1 := EvictExpired(ex, env, o.side, comp).value;
      ExpiredMakesRoom(ex, env, o.side, comp);
      var ex2 := EvictWorst(ex1, env, o.side, price).value;
      WorstMakesRoom(ex1, env, o.side, price);
      LockPriceIs(o, price);
      EnterIsRight(ex2, env, o, comp, LockPrice(o, price), key, quantity);
      hide PostOrder;
      var leaf :| IsLeafOf(env, o, leaf, key, quantity) && IsNamed(r.value, o, comp, leaf, LockPrice(o, price))
                  && Joins(ex2.orders.Book(o.side), r.value.orders.Book(o.side), comp, leaf);
      assert Rests(ex, r.value, env, o, comp, leaf, price);
    }
  }

  /** What an order that rests is charged: its lots, or their price and the maker fee on it, rounded up. */
  predicate IsCharged(c: Config, o: Order, quantity: int, price: int, p: Placed) {
    && p.postedBase == quantity * c.baseLotSize && p.postedQuote == quantity * LockPrice(o, price) * c.quoteLotSize
    && (if o.side.Bid? then RoundsUp(p.makerFees, p.postedQuote, FeeRate(c, false)) else p.makerFees == 0)
  }

  /** An order that is posted rests at the price found for it, with the next arrival number, as it was stated, with as many
      lots as it has left base and quote for. */
  ghost predicate PostsAs(ex: Exchange, env: Env, o: Order, limit: nat, key: nat, price: int, leaf: LeafNode)
    requires Succeeds(ex, env, o, limit)
  {
    var (c, p) := (ex.market.config, Outcome(ex, env, o, limit));
    && IsPriceFor(o, env.oracle, Opposing(ex, env, o), price) && PriceOf(TreeOf(o), key, OracleOr(env.oracle)) == price
    && SeqNumOf(o.side, key) == ex.market.seqNum + 1
    && IsLeafOf(env, o, leaf, key, leaf.quantity) && Rests(ex, p.ex, env, o, TreeOf(o), leaf, price)
    && leaf.quantity >= 1
    && IsMost(BaseLeft(ex, env, o, limit), QuoteLeft(ex, env, o, limit), LockPrice(o, price), FeeRate(c, false), leaf.quantity)
    && IsCharged(c, o, leaf.quantity, price, p)
  }

  lemma ChargedIs(c: Config, o: Order, quantity: int, price: int, p: Placed)
    requires c.Ok() && quantity >= 0 && LockPrice(o, price) >= 1
    requires var quote := quantity * LockPrice(o, price) * c.quoteLotSize;
             && p.postedBase == quantity * c.baseLotSize && p.postedQuote == quote
             && p.makerFees == if o.side.Bid? then MakerFeesCeil(c, quote) else 0
    ensures IsCharged(c, o, quantity, price, p)
  {
    CeilRounds(c, quantity, LockPrice(o, price));
    hide MakerFeesCeil, LockPrice;
  }

  /** Before it is posted, the order has left its own side alone. */
  lemma OwnSideBefore(ex: Exchange, env: Env, o: Order, limit: nat)
    requires Succeeds(ex, env, o, limit)
    ensures TakeOrder(ex, env, o, PriceFor(ex, env, o).0, WalkFor(ex, env, o, limit)).Ok?
    ensures var taken := TakeOrder(ex, env, o, PriceFor(ex, env, o).0, WalkFor(ex, env, o, limit)).value;
            && taken.ex.orders.Book(o.side) == ex.orders.Book(o.side)
            && taken.postedBase == taken.postedQuote == taken.makerFees == 0
  {
    hide *;
    Accepted(ex, env, o, limit);
    Definitions(ex, env, o, limit);
    Stages(ex, env, o, limit);
    MatchingChangesBooks(ex, env, o, limit, PriceFor(ex, env, o).0);
    TakeOrderAmounts(ex, env, o, PriceFor(ex, env, o).0, WalkFor(ex, env, o, limit));
  }

  lemma PostsAsStated(ex: Exchange, env: Env, o: Order, limit: nat)
    requires Succeeds(ex, env, o, limit) && BookOk(ex.orders.Book(o.side)) && env.now <= U64_MAX
    ensures var p := Outcome(ex, env, o, limit);
            && (p.orderId.Some? ==> MayRest(o) && exists price, leaf :: PostsAs(ex, env, o, limit, p.orderId.value, price, leaf))
            && (p.orderId.None? ==> p.ex.orders.Book(o.side) == ex.orders.Book(o.side)
                                    && p.postedBase == p.postedQuote == p.makerFees == 0)
  {
    hide *;
    var (c, w, (price, data), p) :=
      (ex.market.config, WalkFor(ex, env, o, limit), PriceFor(ex, env, o), Outcome(ex, env, o, limit));
    Accepted(ex, env, o, limit);
    RestFacts(ex, env, o, limit);
    QuoteLeftIs(ex, env, o, limit);
    OwnSideBefore(ex, env, o, limit);
    var (base, deals) := (BaseLeft(ex, env, o, limit), Deals(ex, env, o, limit));
    var taken := TakeOrder(ex, env, o, price, w).value;
    var q := PostQuantity(c, o, price, base, TakenQuote(deals), p.takerFees);
    var key := NewNodeKey(o.side, data, ex.market.seqNum + 1);
    PostRestIs(c, taken, env, o, price, key, PostedTo(o, price, w.stop, q), q);
    TargetIs(o, price, w.stop, q);
    if p.orderId.Some? {
      QuantityIsMost(c, o, price, base, TakenQuote(deals), p.takerFees);
      PostOrderIsRight(taken.ex, env, o, TreeOf(o), price, key, q);
      TreeIs(o);
      var leaf :| IsLeafOf(env, o, leaf, key, q) && Rests(taken.ex, p.ex, env, o, TreeOf(o), leaf, price);
      LeafFields(env, o, leaf, key, q);
      SameOwnSide(taken.ex, ex, p.ex, env, o, TreeOf(o), leaf, price);
      KeyRoundTrip(o.side, data, ex.market.seqNum + 1);
      Stages(ex, env, o, limit);
      PriceIsRight(o, env.oracle, Opposing(ex, env, o));
      ChargedIs(c, o, q, price, p);
      MakePosts(ex, env, o, limit, key, price, leaf);
    }
  }

  lemma TreeIs(o: Order)
    ensures TreeOf(o) == if o.params.PeggedOrder? then OraclePegged else Fixed
  {
  }

  lemma SameOwnSide(ex: Exchange, ex0: Exchange, ex': Exchange, env: Env, o: Order, comp: Component, leaf: LeafNode, price: int)
    requires Rests(ex, ex', env, o, comp, leaf, price) && ex0.orders.Book(o.side) == ex.orders.Book(o.side)
    ensures Rests(ex0, ex', env, o, comp, leaf, price)
  {
    hide OwnSideAfter, IsNamed;
  }

  lemma MakePosts(ex: Exchange, env: Env, o: Order, limit: nat, key: nat, price: int, leaf: LeafNode)
    requires Succeeds(ex, env, o, limit)
    requires IsPriceFor(o, env.oracle, Opposing(ex, env, o), price) && PriceOf(TreeOf(o), key, OracleOr(env.oracle)) == price
    requires SeqNumOf(o.side, key) == ex.market.seqNum + 1
    requires IsLeafOf(env, o, leaf, key, leaf.quantity) && Rests(ex, Outcome(ex, env, o, limit).ex, env, o, TreeOf(o), leaf, price)
    requires leaf.quantity >= 1
    requires IsMost(BaseLeft(ex, env, o, limit), QuoteLeft(ex, env, o, limit), LockPrice(o, price), FeeRate(ex.market.config, false),
                    leaf.quantity)
    requires IsCharged(ex.market.config, o, leaf.quantity, price, Outcome(ex, env, o, limit))
    ensures PostsAs(ex, env, o, limit, key, price, leaf)
  {
    hide Succeeds, IsPriceFor, Rests, IsLeafOf, IsMost, IsCharged, Outcome, BaseLeft, QuoteLeft, PriceOf, Opposing, SeqNumOf;
  }
}
