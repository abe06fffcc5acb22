/** What a new order does to the opposing side, in terms of what it states: which orders it may match, how much of each, what it
    must not leave out, and what it leaves on the book. */
module OrderOutcomes {
  import opened Types
  import opened Prices
  import opened Markets
  import opened BookSideModels
  import opened Matching
  import opened MatchingLaws
  import opened MatchingTerms
  import opened Crossings
  import opened Posting
  import opened Exchanges
  import opened ExchangeActions
  import opened ExchangeOrders
  import opened ExchangeNewOrder
  import opened ExchangeSpending
  import opened OrderLaws
  import opened BookItems
  import opened OrderTerms

  /** The order is accepted. */
  ghost predicate Succeeds(ex: Exchange, env: Env, o: Order, limit: nat)
    ensures Succeeds(ex, env, o, limit) ==>
              && ex.market.config.Ok() && ex.market.seqNum >= 0 && BookOk(ex.orders.Book(o.side.Invert()))
              && (PegLimit(o) == -1 || PegLimit(o) >= 1) && NewOrder(ex, env, o, limit).Ok?
  {
    && o.maxBaseLots >= 0 && o.maxQuoteLotsIncludingFees >= 0 && (o.params.PeggedOrder? ==> o.params.pegLimit >= 1)
    && ex.market.config.Ok() && ex.market.seqNum >= 0 && BookOk(ex.orders.Book(o.side.Invert()))
    && (PegLimit(o) == -1 || PegLimit(o) >= 1) && NewOrder(ex, env, o, limit).Ok?
  }

  ghost function Outcome(ex: Exchange, env: Env, o: Order, limit: nat): Placed
    requires Succeeds(ex, env, o, limit)
  {
    NewOrder(ex, env, o, limit).value
  }

  ghost function Opposing(ex: Exchange, env: Env, o: Order): seq<Item> {
    ItemsOf(ex, o.side.Invert(), env.now, env.oracle)
  }

  /** The price of the order, and its price data. */
  ghost function PriceFor(ex: Exchange, env: Env, o: Order): (int, int) {
    var r := OrderPrice(o, env.oracle, Opposing(ex, env, o));
    if r.Ok? then r.value else (0, 0)
  }

  ghost function WalkFor(ex: Exchange, env: Env, o: Order, limit: nat): Walked
    requires ex.market.config.Ok() && BookOk(ex.orders.Book(o.side.Invert()))
  {
    WalkOf(ex, env, o, limit, PriceFor(ex, env, o).0)
  }

  /** What the order does to opposing orders, one after the other. */
  ghost function Deals(ex: Exchange, env: Env, o: Order, limit: nat): seq<Action>
    requires Succeeds(ex, env, o, limit)
  {
    WalkFor(ex, env, o, limit).actions
  }

  /** The stages of an order that is accepted. */
  lemma Stages(ex: Exchange, env: Env, o: Order, limit: nat)
    requires Succeeds(ex, env, o, limit)
    ensures OrderOk(o) && OrderPrice(o, env.oracle, Opposing(ex, env, o)) == Ok(PriceFor(ex, env, o))
    ensures o.maxBaseLots >= 0 && o.maxQuoteLotsIncludingFees >= 0
    ensures var (price, data) := PriceFor(ex, env, o);
            && 0 <= ex.market.seqNum < U64_MAX && IsU64(data) && IsU64(ex.market.seqNum + 1) && LockingPrice(o, price) >= 1
            && o.maxBaseLots <= MaxBaseLots(ex.market.config) && OrderMaxQuote(ex.market.config, o) <= MaxQuoteLots(ex.market.config)
            && var w := WalkFor(ex, env, o, limit);
               var taken := TakeOrder(ex, env, o, price, w);
               && taken.Ok? && (IsFillOrKill(o) ==> w.left.base <= 0)
               && var quantity := PostQuantity(ex.market.config, o, price, w.left.base, TakenQuote(w.actions), taken.value.takerFees);
                  PostRest(ex.market.config, taken.value, env, o, price, NewNodeKey(o.side, data, ex.market.seqNum + 1),
                           PostedTo(o, price, w.stop, quantity), quantity) == Ok(Outcome(ex, env, o, limit))
  {
    hide BookOk, ItemsOf, OrderPrice, OrderAt, OrderMaxQuote, MaxBaseLots, MaxQuoteLots, Config.Ok, PegLimit, LockingPrice,
         NewOrder, WalkOf, TakeOrder, PostRest, PostQuantity, PostedTo, NewNodeKey;
    OrderOkIs(o);
    NewOrderIs(ex, env, o, limit);
    var (price, data) := PriceFor(ex, env, o);
    SeqNumInRange(ex.market.seqNum);
    OrderAtIs(ex, env, o, limit, price, data);
  }

  /** The taker that the order makes, and what it may take. */
  ghost function TakerFor(ex: Exchange, env: Env, o: Order): Taker {
    Taker(o.side, env.owner, env.hasAccount, PriceFor(ex, env, o).0, !MayTake(o), o.selfTradeBehavior)
  }

  ghost function BudgetFor(ex: Exchange, o: Order, limit: nat): Budget
    requires ex.market.config.Ok()
  {
    StartBudget(ex.market.config, o, limit)
  }

  lemma WalkIs(ex: Exchange, env: Env, o: Order, limit: nat)
    requires Succeeds(ex, env, o, limit)
    ensures var (items, t, b) := (Opposing(ex, env, o), TakerFor(ex, env, o), BudgetFor(ex, o, limit));
            && ItemsOk(items) && BudgetOk(b) && b == Budget(o.maxBaseLots, b.quote, limit, 0)
            && IsQuoteToTake(ex.market.config, o, b.quote)
            && WalkFor(ex, env, o, limit) == Walk(t, items, b) && t == TakerOf(o, env.owner, env.hasAccount, PriceFor(ex, env, o).0)
            && Deals(ex, env, o, limit) == Walk(t, items, b).actions
  {
    hide *;
    Stages(ex, env, o, limit);
    Accepted(ex, env, o, limit);
    var price := PriceFor(ex, env, o).0;
    WalkOfIs(ex, env, o, limit, price);
    TermsAre(ex.market.config, o, env.owner, env.hasAccount, price, limit);
    Definitions(ex, env, o, limit);
    BudgetIsOk(BudgetFor(ex, o, limit));
  }

  lemma Accepted(ex: Exchange, env: Env, o: Order, limit: nat)
    requires Succeeds(ex, env, o, limit)
    ensures ex.market.config.Ok() && BookOk(ex.orders.Book(o.side.Invert())) && ex.market.seqNum >= 0
  {
  }

  lemma Definitions(ex: Exchange, env: Env, o: Order, limit: nat)
    requires Succeeds(ex, env, o, limit)
    ensures Opposing(ex, env, o) == ItemsOf(ex, o.side.Invert(), env.now, env.oracle)
    ensures WalkFor(ex, env, o, limit) == WalkOf(ex, env, o, limit, PriceFor(ex, env, o).0)
    ensures Deals(ex, env, o, limit) == WalkFor(ex, env, o, limit).actions
    ensures BudgetFor(ex, o, limit) == StartBudget(ex.market.config, o, limit)
    ensures TakerFor(ex, env, o)
         == Taker(o.side, env.owner, env.hasAccount, PriceFor(ex, env, o).0, !MayTake(o), o.selfTradeBehavior)
  {
    hide WalkOf, Succeeds, BookOk, NewOrder;
  }

  lemma BudgetIsOk(b: Budget)
    requires b.base >= 0 && b.quote >= 0
    ensures BudgetOk(b)
  {
  }

  // ---------- which orders ----------

  predicate IsOwn(env: Env, leaf: LeafNode) { env.hasAccount && leaf.owner == env.owner }

  /** What the order may do to an opposing order, by what both of them state: drop it if it has run out of time or is past its
      peg limit; cancel it if it is the taker's own and the taker wants that; else match it, at a price that the order
      accepts. */
  ghost predicate IsRightful(ex: Exchange, env: Env, o: Order, a: Action) {
    var opp, leaf := o.side.Invert(), a.item.leaf;
    && IsTrue(ex.orders.Book(opp), opp, env.now, env.oracle, a.item)
    && (a.Drop? <==> !IsAlive(opp, a.item.comp, leaf, env.now, OracleOr(env.oracle)))
    && (!a.Drop? ==> Accepts(o, env.oracle, a.item.price) && MayTake(o))
    && (!a.Drop? ==> (a.Cancel? <==> IsOwn(env, leaf) && o.selfTradeBehavior.CancelProvide?))
    && (a.Match? ==> 1 <= a.quantity <= leaf.quantity && (IsOwn(env, leaf) ==> o.selfTradeBehavior.DecrementTake?))
  }

  /** An order accepts what is within the price found for it, if it may take at all. */
  lemma WithinIsAccepted(ex: Exchange, env: Env, o: Order, limit: nat, price: int)
    requires Succeeds(ex, env, o, limit) && MayTake(o)
    ensures o.side.IsPriceWithinLimit(price, PriceFor(ex, env, o).0) <==> Accepts(o, env.oracle, price)
  {
    Stages(ex, env, o, limit);
    hide Succeeds;
    PriceIsRight(o, env.oracle, Opposing(ex, env, o));
  }

  lemma DealIsRightful(ex: Exchange, env: Env, o: Order, limit: nat, i: nat)
    requires Succeeds(ex, env, o, limit) && i < |Deals(ex, env, o, limit)|
    ensures IsRightful(ex, env, o, Deals(ex, env, o, limit)[i])
  {
    hide *;
    var (items, t, b) := (Opposing(ex, env, o), TakerFor(ex, env, o), BudgetFor(ex, o, limit));
    var a := Deals(ex, env, o, limit)[i];
    Accepted(ex, env, o, limit);
    Definitions(ex, env, o, limit);
    WalkIs(ex, env, o, limit);
    WalkTotals(t, items, b);
    WalkTakesEnough(t, items, b);
    WalkOfIs(ex, env, o, limit, PriceFor(ex, env, o).0);
    ItemsAreTrue(ex.orders.Book(o.side.Invert()), o.side.Invert(), env.now, env.oracle);
    ActionFacts(t, items, Deals(ex, env, o, limit), b, i);
    ItemFacts(ex.orders.Book(o.side.Invert()), o.side.Invert(), env.now, env.oracle, items, a.item);
    if MayTake(o) { WithinIsAccepted(ex, env, o, limit, a.item.price); }
    MakeRightful(ex, env, o, items, b, Deals(ex, env, o, limit), i);
  }

  lemma ActionFacts(t: Taker, items: seq<Item>, actions: seq<Action>, b: Budget, i: nat)
    requires ActionsOk(t, items, actions) && AllTakeEnough(t, b, actions) && i < |actions|
    ensures ActionOk(t, items, actions[i]) && TakesEnough(t, b, actions, i) && actions[i].item in items
  {
  }

  lemma ItemFacts(m: BookSideModel, side: Side, now: int, oracle: Option<int>, items: seq<Item>, item: Item)
    requires AllTrue(m, side, now, oracle, items) && item in items
    ensures IsTrue(m, side, now, oracle, item)
  {
  }

  lemma MakeRightful(ex: Exchange, env: Env, o: Order, items: seq<Item>, b: Budget, actions: seq<Action>, i: nat)
    requires i < |actions|
    requires ActionOk(TakerFor(ex, env, o), items, actions[i]) && TakesEnough(TakerFor(ex, env, o), b, actions, i)
    requires IsTrue(ex.orders.Book(o.side.Invert()), o.side.Invert(), env.now, env.oracle, actions[i].item)
    requires MayTake(o) ==>
               (o.side.IsPriceWithinLimit(actions[i].item.price, PriceFor(ex, env, o).0) <==> Accepts(o, env.oracle, actions[i].item.price))
    ensures IsRightful(ex, env, o, actions[i])
  {
    hide PriceFor, Accepts, MayTake, IsAlive, PriceOf, HasPrice, TakenBase, TakenQuote;
  }

  /** The order does nothing but what is rightful. */
  lemma DealsAreRightful(ex: Exchange, env: Env, o: Order, limit: nat)
    requires Succeeds(ex, env, o, limit)
    ensures forall i :: 0 <= i < |Deals(ex, env, o, limit)| ==> IsRightful(ex, env, o, Deals(ex, env, o, limit)[i])
  {
    hide *;
    forall i | 0 <= i < |Deals(ex, env, o, limit)|
      ensures IsRightful(ex, env, o, Deals(ex, env, o, limit)[i])
    {
      DealIsRightful(ex, env, o, limit, i);
    }
  }

  // ---------- nothing is left out ----------

  /** The order goes through the first `n` opposing orders from the best on, deals with every one that can be matched, takes
      all of each that base and `quote` allow, and has a reason to stop there. */
  ghost predicate IsGreedy(ex: Exchange, env: Env, o: Order, limit: nat, actions: seq<Action>, n: nat, quote: int) {
    var items := Opposing(ex, env, o);
    && AllDealtWith(items, actions, n) && InItemOrder(items, actions)
    && (forall i :: 0 <= i < |actions| ==> Among(items, n, actions[i].item))
    && TakenBase(actions) <= o.maxBaseLots && TakenQuote(actions) <= quote
    && (forall i :: 0 <= i < |actions| && actions[i].Match? && actions[i].quantity < actions[i].item.leaf.quantity ==>
          TakenBase(actions[..i + 1]) == o.maxBaseLots || quote - TakenQuote(actions[..i + 1]) < actions[i].item.price)
    && Matches(actions) <= limit && Drops(actions) <= 5 && (Drops(actions) < 5 ==> DropsAll(items, actions, n))
    && (|| n == |items| || TakenBase(actions) == o.maxBaseLots || TakenQuote(actions) == quote
        || (items[n].state.Valid? &&
              (|| !MayTake(o) || !Accepts(o, env.oracle, items[n].price)
               || Matches(actions) == limit || quote - TakenQuote(actions) < items[n].price)))
  }

  /** How many opposing orders the order gets to. */
  ghost function Reached(ex: Exchange, env: Env, o: Order, limit: nat): nat
    requires Succeeds(ex, env, o, limit)
  {
    WalkIs(ex, env, o, limit);
    Seen(TakerFor(ex, env, o), Opposing(ex, env, o), BudgetFor(ex, o, limit))
  }

  lemma NoSelfTrade(ex: Exchange, env: Env, o: Order, limit: nat)
    requires Succeeds(ex, env, o, limit)
    ensures !WalkFor(ex, env, o, limit).stop.SelfTrade?
  {
    Stages(ex, env, o, limit);
    hide Succeeds, OrderPrice, WalkFor, PostRest, PostQuantity, PostedTo, ApplyActions, SettleTaker, TakenBy;
  }

  lemma MakeGreedy(ex: Exchange, env: Env, o: Order, limit: nat, items: seq<Item>, t: Taker, b: Budget, w: Walked, n: nat)
    requires items == Opposing(ex, env, o) && b == Budget(o.maxBaseLots, b.quote, limit, 0) && !w.stop.SelfTrade?
    requires t == TakerFor(ex, env, o) && AllTakeEnough(t, b, w.actions)
    requires AllDealtWith(items, w.actions, n) && InItemOrder(items, w.actions) && StopsRightly(t, items, w, n)
    requires forall i :: 0 <= i < |w.actions| ==> Among(items, n, w.actions[i].item)
    requires BudgetOk(w.left) && w.left.base == b.base - TakenBase(w.actions) && w.left.quote == b.quote - TakenQuote(w.actions)
    requires w.left.limit + Matches(w.actions) == limit && Drops(w.actions) <= 5
    requires Drops(w.actions) < 5 ==> DropsAll(items, w.actions, n)
    requires MayTake(o) && n < |items| ==>
               (o.side.IsPriceWithinLimit(items[n].price, PriceFor(ex, env, o).0) <==> Accepts(o, env.oracle, items[n].price))
    ensures IsGreedy(ex, env, o, limit, w.actions, n, b.quote)
  {
    hide Opposing, PriceFor, Accepts, MayTake, AllDealtWith, InItemOrder, Among, DropsAll, TakenBase, TakenQuote, Matches, Drops;
    forall i | 0 <= i < |w.actions| && w.actions[i].Match? && w.actions[i].quantity < w.actions[i].item.leaf.quantity
      ensures TakenBase(w.actions[..i + 1]) == o.maxBaseLots || b.quote - TakenQuote(w.actions[..i + 1]) < w.actions[i].item.price
    {
      assert TakesEnough(t, b, w.actions, i);
    }
  }

  /** Price-time priority and greed: the order takes as much as it may of the best orders that it accepts. Its base, a quote
      that keeps back no more than the fee, and the number of matches are its only limits. */
  lemma NothingLeftOut(ex: Exchange, env: Env, o: Order, limit: nat)
    requires Succeeds(ex, env, o, limit)
    ensures var opp := o.side.Invert();
            && AllTrue(ex.orders.Book(opp), opp, env.now, env.oracle, Opposing(ex, env, o))
            && InPriceTimeOrder(opp, Opposing(ex, env, o))
    ensures exists quote :: IsQuoteToTake(ex.market.config, o, quote)
              && IsGreedy(ex, env, o, limit, Deals(ex, env, o, limit), Reached(ex, env, o, limit), quote)
  {
    hide *;
    var (items, t, b) := (Opposing(ex, env, o), TakerFor(ex, env, o), BudgetFor(ex, o, limit));
    var (opp, price) := (o.side.Invert(), PriceFor(ex, env, o).0);
    var (w, n) := (WalkFor(ex, env, o, limit), Reached(ex, env, o, limit));
    Accepted(ex, env, o, limit);
    Definitions(ex, env, o, limit);
    WalkIs(ex, env, o, limit);
    ReachedIs(ex, env, o, limit);
    WalkOfIs(ex, env, o, limit, price);
    ItemsAreTrue(ex.orders.Book(opp), opp, env.now, env.oracle);
    ItemsInPriceTimeOrder(ex.orders.Book(opp), opp, env.now, env.oracle);
    NoSelfTrade(ex, env, o, limit);
    WalkTotals(t, items, b);
    WalkTakesEnough(t, items, b);
    WalkCounts(t, items, b);
    WalkDropsAll(t, items, b);
    NothingSkipped(t, items, b);
    ActionsFollowItems(t, items, b);
    ActionsBefore(t, items, b);
    if MayTake(o) && n < |items| { WithinIsAccepted(ex, env, o, limit, items[n].price); }
    MakeGreedy(ex, env, o, limit, items, t, b, w, n);
  }

  lemma ReachedIs(ex: Exchange, env: Env, o: Order, limit: nat)
    requires Succeeds(ex, env, o, limit)
    ensures var (items, t, b) := (Opposing(ex, env, o), TakerFor(ex, env, o), BudgetFor(ex, o, limit));
            ItemsOk(items) && Reached(ex, env, o, limit) == Seen(t, items, b)
  {
    WalkIs(ex, env, o, limit);
    hide Succeeds, Seen, ItemsOk;
  }

  // ---------- what is left on the book ----------

  /** The order of an action is gone, or has what was not matched. */
  ghost predicate IsDone(a: Action, after: map<nat, LeafNode>) {
    var leaf := a.item.leaf;
    if a.Match? && a.quantity < leaf.quantity
    then leaf.key in after && after[leaf.key] == leaf.(quantity := leaf.quantity - a.quantity)
    else leaf.key !in after
  }

  ghost predicate SameUnder(m: map<nat, LeafNode>, m': map<nat, LeafNode>, key: nat) {
    (key in m' <==> key in m) && (key in m ==> m'[key] == m[key])
  }

  /** The opposing book is what its actions make of it. */
  lemma OpposingAfter(ex: Exchange, env: Env, o: Order, limit: nat)
    requires Succeeds(ex, env, o, limit)
    ensures var (m, after) := (ex.orders.Book(o.side.Invert()), Outcome(ex, env, o, limit).ex.orders.Book(o.side.Invert()));
            && (forall i :: 0 <= i < |Deals(ex, env, o, limit)| ==>
                  IsDone(Deals(ex, env, o, limit)[i], after.Get(Deals(ex, env, o, limit)[i].item.comp)))
            && forall comp, key :: Untouched(Deals(ex, env, o, limit), comp, key) ==> SameUnder(m.Get(comp), after.Get(comp), key)
  {
    hide *;
    var (opp, actions) := (o.side.Invert(), Deals(ex, env, o, limit));
    var (m, after) := (ex.orders.Book(opp), Outcome(ex, env, o, limit).ex.orders.Book(opp));
    AfterIs(ex, env, o, limit);
    forall i | 0 <= i < |actions|
      ensures IsDone(actions[i], after.Get(actions[i].item.comp))
    {
      TouchedChanges(m, opp, env, actions, i);
      DealIsRightful(ex, env, o, limit, i);
      DoneIs(ex, env, o, actions[i], after.Get(actions[i].item.comp));
    }
    forall comp, key | Untouched(actions, comp, key)
      ensures SameUnder(m.Get(comp), after.Get(comp), key)
    {
      UntouchedStays(m, actions, comp, key);
      MakeSame(m.Get(comp), after.Get(comp), key);
    }
  }

  lemma AfterIs(ex: Exchange, env: Env, o: Order, limit: nat)
    requires Succeeds(ex, env, o, limit)
    ensures var (opp, actions) := (o.side.Invert(), Deals(ex, env, o, limit));
            && Doable(ex.orders.Book(opp), opp, env, actions)
            && Outcome(ex, env, o, limit).ex.orders.Book(opp) == BookAfterAll(ex.orders.Book(opp), actions)
  {
    hide *;
    Accepted(ex, env, o, limit);
    Definitions(ex, env, o, limit);
    Stages(ex, env, o, limit);
    var (c, (price, data), w) := (ex.market.config, PriceFor(ex, env, o), WalkFor(ex, env, o, limit));
    MatchingChangesBooks(ex, env, o, limit, price);
    var taken := TakeOrder(ex, env, o, price, w).value;
    var quantity := PostQuantity(c, o, price, w.left.base, TakenQuote(w.actions), taken.takerFees);
    PostingLeavesOther(c, taken, env, o, price, NewNodeKey(o.side, data, ex.market.seqNum + 1),
                       PostedTo(o, price, w.stop, quantity), quantity);
  }

  lemma DoneIs(ex: Exchange, env: Env, o: Order, a: Action, after: map<nat, LeafNode>)
    requires IsRightful(ex, env, o, a)
    requires LeftOf(a).None? ==> a.item.leaf.key !in after
    requires LeftOf(a).Some? ==> a.item.leaf.key in after && after[a.item.leaf.key] == LeftOf(a).value
    ensures IsDone(a, after)
  {
    hide IsTrue, IsAlive, Accepts, MayTake, IsOwn;
  }

  lemma MakeSame(m: map<nat, LeafNode>, m': map<nat, LeafNode>, key: nat)
    requires key in m' <==> key in m
    requires key in m ==> m'[key] == m[key]
    ensures SameUnder(m, m', key)
  {
  }

  /** Every opposing order that could be matched, but only at a price that the order does not accept, stays as it is; so does
      every one that could be matched when the order is post-only. */
  lemma WorseOrdersStay(ex: Exchange, env: Env, o: Order, limit: nat, comp: Component, key: nat)
    requires Succeeds(ex, env, o, limit)
    requires key in ex.orders.Book(o.side.Invert()).Get(comp)
    ensures var opp := o.side.Invert();
            var (m, after) := (ex.orders.Book(opp).Get(comp), Outcome(ex, env, o, limit).ex.orders.Book(opp).Get(comp));
            IsAlive(opp, comp, m[key], env.now, OracleOr(env.oracle))
            && (!MayTake(o) || !Accepts(o, env.oracle, PriceOf(comp, key, OracleOr(env.oracle)))) ==>
              key in after && after[key] == m[key]
  {
    hide *;
    var (opp, actions) := (o.side.Invert(), Deals(ex, env, o, limit));
    var m := ex.orders.Book(opp).Get(comp);
    Accepted(ex, env, o, limit);
    OpposingAfter(ex, env, o, limit);
    if IsAlive(opp, comp, m[key], env.now, OracleOr(env.oracle))
       && (!MayTake(o) || !Accepts(o, env.oracle, PriceOf(comp, key, OracleOr(env.oracle)))) {
      DealsAreRightful(ex, env, o, limit);
      forall i | 0 <= i < |actions| && actions[i].item.comp == comp
        ensures actions[i].item.leaf.key != key
      {
        RightfulIs(ex, env, o, actions[i]);
      }
      MakeUntouched(actions, comp, key);
      SameIs(m, Outcome(ex, env, o, limit).ex.orders.Book(opp).Get(comp), key);
    }
  }

  /** An opposing order that has run out of time, or is past its peg limit, is never matched: it is unchanged, or dropped. */
  lemma DeadOrdersAreNotMatched(ex: Exchange, env: Env, o: Order, limit: nat, comp: Component, key: nat)
    requires Succeeds(ex, env, o, limit)
    requires key in ex.orders.Book(o.side.Invert()).Get(comp)
    ensures var opp := o.side.Invert();
            var (m, after) := (ex.orders.Book(opp).Get(comp), Outcome(ex, env, o, limit).ex.orders.Book(opp).Get(comp));
            !IsAlive(opp, comp, m[key], env.now, OracleOr(env.oracle)) ==>
              && (forall a :: a in Deals(ex, env, o, limit) && a.item.comp == comp && a.item.leaf.key == key ==> a.Drop?)
              && (key in after ==> after[key] == m[key])
  {
    hide *;
    var (opp, actions) := (o.side.Invert(), Deals(ex, env, o, limit));
    var m := ex.orders.Book(opp).Get(comp);
    Accepted(ex, env, o, limit);
    OpposingAfter(ex, env, o, limit);
    DealsAreRightful(ex, env, o, limit);
    if !IsAlive(opp, comp, m[key], env.now, OracleOr(env.oracle)) {
      var after := Outcome(ex, env, o, limit).ex.orders.Book(opp).Get(comp);
      forall i | 0 <= i < |actions| && actions[i].item.comp == comp && actions[i].item.leaf.key == key
        ensures actions[i].Drop? && key !in after
      {
        RightfulIs(ex, env, o, actions[i]);
        DroppedIsGone(actions[i], after);
      }
      if forall i :: 0 <= i < |actions| && actions[i].item.comp == comp ==> actions[i].item.leaf.key != key {
        MakeUntouched(actions, comp, key);
        SameIs(m, after, key);
      }
    }
  }

  lemma DroppedIsGone(a: Action, after: map<nat, LeafNode>)
    requires IsDone(a, after) && a.Drop?
    ensures a.item.leaf.key !in after
  {
  }

  lemma RightfulIs(ex: Exchange, env: Env, o: Order, a: Action)
    requires IsRightful(ex, env, o, a)
    ensures var (opp, comp, key) := (o.side.Invert(), a.item.comp, a.item.leaf.key);
            var m := ex.orders.Book(opp).Get(comp);
            && key in m && m[key] == a.item.leaf
            && (a.Drop? <==> !IsAlive(opp, comp, m[key], env.now, OracleOr(env.oracle)))
            && (IsAlive(opp, comp, m[key], env.now, OracleOr(env.oracle)) ==>
                  MayTake(o) && Accepts(o, env.oracle, PriceOf(comp, key, OracleOr(env.oracle))))
  {
    hide IsAlive, Accepts, MayTake, IsOwn, HasPrice, PriceOf;
  }

  lemma MakeUntouched(actions: seq<Action>, comp: Component, key: nat)
    requires forall i :: 0 <= i < |actions| && actions[i].item.comp == comp ==> actions[i].item.leaf.key != key
    ensures Untouched(actions, comp, key)
  {
  }

  lemma SameIs(m: map<nat, LeafNode>, m': map<nat, LeafNode>, key: nat)
    requires SameUnder(m, m', key)
    ensures key in m' <==> key in m
    ensures key in m ==> m'[key] == m[key]
  {
  }

  // ---------- what it pays ----------

  /** The quote lots that the taker takes from its own orders. */
  function QuoteFromOwn(env: Env, actions: seq<Action>): int {
    if actions == [] then 0
    else
      (if actions[0].Match? && IsOwn(env, actions[0].item.leaf) then actions[0].quantity * actions[0].item.price else 0)
      + QuoteFromOwn(env, actions[1..])
  }

  /** The rebates of makers other than the taker: a negative maker fee on each fill, rounded down. */
  function Rebates(c: Config, env: Env, actions: seq<Action>): int {
    if actions == [] then 0
    else
      var a := actions[0];
      (if a.Match? && !IsOwn(env, a.item.leaf) && c.makerFee < 0
       then a.quantity * a.item.price * c.quoteLotSize * -c.makerFee / 1_000_000 else 0)
      + Rebates(c, env, actions[1..])
  }

  /** What the order takes are the lots of its matches, at the prices of the orders matched. The fee is for what does not come
      from the taker itself, rounded up; the referrer gets what the makers' rebates leave of it. */
  ghost predicate PaysFor(c: Config, env: Env, actions: seq<Action>, p: Placed) {
    && p.takenBase == TakenBase(actions) * c.baseLotSize && p.takenQuote == TakenQuote(actions) * c.quoteLotSize
    && RoundsUp(p.takerFees, (TakenQuote(actions) - QuoteFromOwn(env, actions)) * c.quoteLotSize, c.takerFee)
    && p.referrerAmount == p.takerFees - Rebates(c, env, actions)
  }

  lemma {:induction false} QuoteFromOwnIs(t: Taker, env: Env, actions: seq<Action>)
    requires t.owner == env.owner && t.hasAccount == env.hasAccount
    ensures SelfQuote(t, actions) == QuoteFromOwn(env, actions)
  {
    if actions != [] { QuoteFromOwnIs(t, env, actions[1..]); }
  }

  lemma {:induction false} RebatesAre(c: Config, t: Taker, env: Env, items: seq<Item>, actions: seq<Action>)
    requires c.Ok() && ActionsOk(t, items, actions) && ItemsOk(items) && t.owner == env.owner && t.hasAccount == env.hasAccount
    ensures RebatesOf(c, t, actions) == Rebates(c, env, actions)
  {
    if actions != [] {
      var a, rest := actions[0], actions[1..];
      assert ActionOk(t, items, a);
      assert ActionsOk(t, items, rest) by {
        forall i | 0 <= i < |rest| ensures ActionOk(t, items, rest[i]) { assert rest[i] == actions[i + 1]; }
      }
      RebatesAre(c, t, env, items, rest);
      if a.Match? { RebateIs(c, a.quantity, a.item.price); }
      hide MakerRebateFloor;
    }
  }

  lemma RebateIs(c: Config, quantity: int, price: int)
    requires c.Ok() && quantity >= 1 && price >= 1
    ensures var quote := quantity * price * c.quoteLotSize;
            MakerRebateFloor(c, quote) == if c.makerFee < 0 then quote * -c.makerFee / 1_000_000 else 0
  {
    MulOrder(0, quantity, price);
    MulOrder(0, quantity * price, c.quoteLotSize);
    FeesRound(c, quantity * price * c.quoteLotSize);
    hide MakerRebateFloor;
  }

  lemma FeesAre(c: Config, takenQuote: int, selfQuote: int)
    requires c.Ok() && 0 <= selfQuote <= takenQuote
    ensures RoundsUp(TakerFees(c, takenQuote, selfQuote), (takenQuote - selfQuote) * c.quoteLotSize, c.takerFee)
  {
    MulOrder(0, takenQuote - selfQuote, c.quoteLotSize);
    FeesRound(c, (takenQuote - selfQuote) * c.quoteLotSize);
  }

  lemma TakenIsPaidFor(ex: Exchange, env: Env, o: Order, limit: nat)
    requires Succeeds(ex, env, o, limit)
    ensures PaysFor(ex.market.config, env, Deals(ex, env, o, limit), Outcome(ex, env, o, limit))
    ensures o.params.FillOrKill? ==> TakenBase(Deals(ex, env, o, limit)) == o.maxBaseLots
    ensures !MayTake(o) ==> TakenBase(Deals(ex, env, o, limit)) == TakenQuote(Deals(ex, env, o, limit)) == 0
  {
    hide *;
    var (c, actions, w) := (ex.market.config, Deals(ex, env, o, limit), WalkFor(ex, env, o, limit));
    var (items, t, b) := (Opposing(ex, env, o), TakerFor(ex, env, o), BudgetFor(ex, o, limit));
    var (price, data) := PriceFor(ex, env, o);
    Accepted(ex, env, o, limit);
    Definitions(ex, env, o, limit);
    Stages(ex, env, o, limit);
    WalkIs(ex, env, o, limit);
    WalkTotals(t, items, b);
    var taken := TakeOrder(ex, env, o, price, w).value;
    var quantity := PostQuantity(c, o, price, w.left.base, TakenQuote(w.actions), taken.takerFees);
    PostRestIs(c, taken, env, o, price, NewNodeKey(o.side, data, ex.market.seqNum + 1), PostedTo(o, price, w.stop, quantity), quantity);
    TakeOrderReferrer(ex, env, o, price, w);
    QuoteFromOwnIs(t, env, actions);
    RebatesAre(c, t, env, items, actions);
    FeesAre(c, TakenQuote(actions), SelfQuote(t, actions));
    TakerFeeCoversRebates(c, t, items, actions);
    ReferrerIs(c, TakenQuote(actions), SelfQuote(t, actions), RebatesOf(c, t, actions));
    FillOrKillIs(o);
    LeftIsOk(w);
    if !MayTake(o) {
      ItemsAreRanked(ex.orders.Book(o.side.Invert()), o.side.Invert(), env.now, env.oracle);
      WalkOfIs(ex, env, o, limit, price);
      PostOnlyNeverTakes(t, items, b);
    }
    MakePaid(c, env, actions, Outcome(ex, env, o, limit));
  }

  lemma MakePaid(c: Config, env: Env, actions: seq<Action>, p: Placed)
    requires p.takenBase == TakenBase(actions) * c.baseLotSize && p.takenQuote == TakenQuote(actions) * c.quoteLotSize
    requires RoundsUp(p.takerFees, (TakenQuote(actions) - QuoteFromOwn(env, actions)) * c.quoteLotSize, c.takerFee)
    requires p.referrerAmount == p.takerFees - Rebates(c, env, actions)
    ensures PaysFor(c, env, actions, p)
  {
  }

  lemma FillOrKillIs(o: Order)
    ensures IsFillOrKill(o) <==> o.params.FillOrKill?
  {
  }

  /** Without anything to pay there are no rebates. */
  lemma ReferrerIs(c: Config, takenQuote: int, selfQuote: int, rebates: int)
    requires c.Ok() && 0 <= selfQuote <= takenQuote
    requires 0 <= rebates <= TakerFeesCeil(c, (takenQuote - selfQuote) * c.quoteLotSize)
    requires rebates <= (takenQuote - selfQuote) * c.quoteLotSize
    ensures ReferrerAmount(c, takenQuote, selfQuote, rebates) == TakerFees(c, takenQuote, selfQuote) - rebates
  {
    MulOrder(0, takenQuote - selfQuote, c.quoteLotSize);
    hide TakerFeesCeil;
  }
}
