/** What a new order may cost its owner, and what it may not do: bounds on the whole of `NewOrder`. */
module ExchangeSpending {
  import opened Types
  import opened Rankings
  import opened Prices
  import opened Markets
  import opened Ledgers
  import opened BookSideModels
  import opened Iterations
  import opened Matching
  import opened MatchingLaws
  import opened Posting
  import opened Exchanges
  import opened ExchangeOrders
  import opened ExchangeNewOrder

  /** The items of a book come in the order of their prices. */
  lemma ItemsAreRanked(m: BookSideModel, side: Side, now: int, oracle: Option<int>)
    requires BookOk(m)
    ensures PricesRanked(side, Items(side, Ranked(side, m.fixed), Ranked(side, m.pegged), now, oracle))
  {
    var fixed, pegged := Ranked(side, m.fixed), Ranked(side, m.pegged);
    RankedIsRanked(side, m.fixed);
    RankedIsRanked(side, m.pegged);
    PeggedKeysBounded(m, side);
    hide *;
    ItemsShowOrders(side, fixed, pegged, now, oracle);
    ItemsInMergeOrder(side, fixed, pegged, now, oracle);
    MergeOrderRanksPrices(side, Items(side, fixed, pegged, now, oracle), fixed, pegged, now, oracle);
  }

  lemma PeggedKeysBounded(m: BookSideModel, side: Side)
    requires BookOk(m)
    ensures KeysBounded(Ranked(side, m.pegged))
  {
    RankedIsRanked(side, m.pegged);
    var pegged := Ranked(side, m.pegged);
    forall i | 0 <= i < |pegged|
      ensures pegged[i].key < U64_SIZE * U64_SIZE
    {
      assert PeggedOk(m.pegged[pegged[i].key]);
    }
  }

  /** What the walk of an order takes is within its limits; a post-only order takes nothing. */
  lemma WalkWithin(ex: Exchange, env: Env, o: Order, limit: nat, priceLots: int)
    requires ex.market.config.Ok() && BookOk(ex.orders.Book(o.side.Invert()))
    requires o.maxBaseLots >= 0 && o.maxQuoteLotsIncludingFees >= 0
    ensures var w, c := WalkOf(ex, env, o, limit, priceLots), ex.market.config;
            var self := SelfQuote(TakerOf(o, env.owner, env.hasAccount, priceLots), w.actions);
            && 0 <= self <= TakenQuote(w.actions) <= OrderMaxQuote(c, o)
            && w.left.base == o.maxBaseLots - TakenBase(w.actions) && 0 <= w.left.base
            && (IsPostOnly(o) ==> TakenQuote(w.actions) == 0 && TakenBase(w.actions) == 0)
  {
    hide *;
    var opp, t, b := o.side.Invert(), TakerOf(o, env.owner, env.hasAccount, priceLots), StartBudget(ex.market.config, o, limit);
    StartIsOk(ex.market.config, o, limit);
    WalkOfIs(ex, env, o, limit, priceLots);
    var items := ItemsOf(ex, opp, env.now, env.oracle);
    WalkTotals(t, items, b);
    LeftIsOk(Walk(t, items, b));
    TakerSide(o, env, priceLots);
    if IsPostOnly(o) {
      ItemsAreRanked(ex.orders.Book(opp), opp, env.now, env.oracle);
      PostOnlyNeverTakes(t, items, b);
    }
  }

  lemma LeftIsOk(w: Walked)
    ensures BudgetOk(w.left) ==> w.left.base >= 0 && w.left.quote >= 0
  {
  }

  lemma TakerSide(o: Order, env: Env, priceLots: int)
    ensures var t := TakerOf(o, env.owner, env.hasAccount, priceLots); t.side == o.side && t.postOnly == IsPostOnly(o)
  {
  }

  /** A bid costs no more quote than its limit says, with all fees, and no order moves more base than its limit says. */
  lemma OrderSpends(ex: Exchange, env: Env, o: Order, limit: nat)
    requires OrderOk(o) && ex.market.config.Ok() && ex.market.seqNum >= 0 && BookOk(ex.orders.Book(o.side.Invert()))
    requires PegLimit(o) == -1 || PegLimit(o) >= 1
    requires NewOrder(ex, env, o, limit).Ok?
    ensures var c, p := ex.market.config, NewOrder(ex, env, o, limit).value;
            && (o.side.Bid? ==>
                  p.takenQuote + p.takerFees + p.postedQuote + p.makerFees <= o.maxQuoteLotsIncludingFees * c.quoteLotSize)
            && p.takenBase + p.postedBase <= o.maxBaseLots * c.baseLotSize
  {
    hide BookOk, ItemsOf, OrderPrice, OrderOk, OrderAt, OrderMaxQuote, MaxBaseLots, MaxQuoteLots, Config.Ok, PegLimit, LockingPrice;
    OrderOkIs(o);
    PriceFacts(o, env.oracle, ItemsOf(ex, o.side.Invert(), env.now, env.oracle));
    var (priceLots, priceData) := OrderPrice(o, env.oracle, ItemsOf(ex, o.side.Invert(), env.now, env.oracle)).value;
    OrderAtSpends(ex, env, o, limit, priceLots, priceData);
  }

  lemma OrderAtSpends(ex: Exchange, env: Env, o: Order, limit: nat, priceLots: int, priceData: int)
    requires o.maxBaseLots >= 0 && o.maxQuoteLotsIncludingFees >= 0
    requires ex.market.config.Ok() && 0 <= ex.market.seqNum < U64_MAX && BookOk(ex.orders.Book(o.side.Invert()))
    requires LockingPrice(o, priceLots) >= 1 && IsU64(priceData)
    requires OrderAt(ex, env, o, limit, priceLots, priceData).Ok?
    ensures var c, p := ex.market.config, OrderAt(ex, env, o, limit, priceLots, priceData).value;
            && (o.side.Bid? ==>
                  p.takenQuote + p.takerFees + p.postedQuote + p.makerFees <= o.maxQuoteLotsIncludingFees * c.quoteLotSize)
            && p.takenBase + p.postedBase <= o.maxBaseLots * c.baseLotSize
  {
    hide *;
    var c, w := ex.market.config, WalkOf(ex, env, o, limit, priceLots);
    SeqNumInRange(ex.market.seqNum);
    OrderAtIs(ex, env, o, limit, priceLots, priceData);
    WalkWithin(ex, env, o, limit, priceLots);
    TakeOrderAmounts(ex, env, o, priceLots, w);
    var p := TakeOrder(ex, env, o, priceLots, w).value;
    var taken, self := TakenQuote(w.actions), SelfQuote(TakerOf(o, env.owner, env.hasAccount, priceLots), w.actions);
    var quantity := PostQuantity(c, o, priceLots, w.left.base, taken, p.takerFees);
    var target := PostedTo(o, priceLots, w.stop, quantity);
    PostRestIs(c, p, env, o, priceLots, NewNodeKey(o.side, priceData, ex.market.seqNum + 1), target, quantity);
    PostedToFacts(o, priceLots, w.stop, quantity);
    if o.side.Bid? { SpendingBound(c, o, priceLots, taken, self, w.left.base); }
    FeesNotBelowZero(c, taken, self);
    PostedWithinBase(c, o, priceLots, w.left.base, taken, p.takerFees);
    var q := if target.Some? then quantity else 0;
    BaseFits(c, TakenBase(w.actions), q, o.maxBaseLots);
    if o.side.Bid? {
      NothingCosts(c, LockingPrice(o, priceLots), quantity);
    }
  }

  lemma BaseFits(c: Config, taken: int, posted: int, max: int)
    requires c.Ok()
    ensures taken + posted <= max ==> taken * c.baseLotSize + posted * c.baseLotSize <= max * c.baseLotSize
    ensures 0 * c.baseLotSize == 0
  {
    if taken + posted <= max { MulOrder(taken + posted, max, c.baseLotSize); }
    Distribute(taken, posted, c.baseLotSize);
  }

  lemma NothingCosts(c: Config, price: int, quantity: int)
    requires c.Ok() && price >= 1
    ensures var posted := quantity * price * c.quoteLotSize;
            quantity >= 0 ==> posted + MakerFeesCeil(c, posted) >= 0
  {
    if quantity >= 0 {
      QuoteMonotone(c, quantity, 0, price);
      FeeBounds(c, Quote(c, quantity, price));
      hide MakerFeesCeil;
    }
  }

  lemma FeesNotBelowZero(c: Config, taken: int, self: int)
    requires c.Ok() && 0 <= self <= taken
    ensures TakerFees(c, taken, self) >= 0
  {
    MulOrder(0, taken - self, c.quoteLotSize);
    FeeBounds(c, (taken - self) * c.quoteLotSize);
  }

  lemma {:induction false} ActionsConfig(ex: Exchange, env: Env, side: Side, actions: seq<Action>, processed: nat)
    ensures var r := ApplyActions(ex, env, side, actions, processed);
            r.Ok? ==> r.value.0.market.config == ex.market.config
    decreases |actions|
  {
    if actions != [] {
      ActionConfig(ex, env, side, actions[0], processed);
      hide ApplyAction;
      var r := ApplyAction(ex, env, side, actions[0], processed);
      if r.Ok? { ActionsConfig(r.value.0, env, side, actions[1..], r.value.1); }
    }
  }

  lemma ActionConfig(ex: Exchange, env: Env, side: Side, a: Action, processed: nat)
    ensures var r := ApplyAction(ex, env, side, a, processed);
            r.Ok? ==> r.value.0.market.config == ex.market.config
  {
  }

  lemma TakeOrderAmounts(ex: Exchange, env: Env, o: Order, priceLots: int, w: Walked)
    ensures var r, c := TakeOrder(ex, env, o, priceLots, w), ex.market.config;
            r.Ok? ==>
              && r.value.takenBase == TakenBase(w.actions) * c.baseLotSize
              && r.value.takenQuote == TakenQuote(w.actions) * c.quoteLotSize
              && r.value.takerFees == TakerFees(c, TakenQuote(w.actions), SelfQuote(TakerOf(o, env.owner, env.hasAccount, priceLots), w.actions))
              && r.value.postedBase == 0 && r.value.postedQuote == 0 && r.value.makerFees == 0
  {
    ActionsConfig(NextSeqNum(ex), env, o.side, w.actions, 0);
    hide TakerFees, ApplyActions, ReferrerAmount;
  }
}
