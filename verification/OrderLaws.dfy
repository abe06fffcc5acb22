/** What a whole new order guarantees: which orders it touches and how, what it leaves on the book, and that the off-chain
    simulation agrees with it. */
module OrderLaws {
  import opened Types
  import opened Rankings
  import opened Prices
  import opened Markets
  import opened Accounts
  import opened Ledgers
  import opened BookSideModels
  import opened Iterations
  import opened Matching
  import opened MatchingLaws
  import opened Crossings
  import opened Posting
  import opened Simulator
  import opened Exchanges
  import opened ExchangeSteps
  import opened ExchangeActions
  import opened ExchangeOrders
  import opened ExchangeNewOrder
  import opened ExchangeSpending

  // ---------- the opposing book ----------

  ghost predicate Untouched(actions: seq<Action>, comp: Component, key: nat) {
    forall i :: 0 <= i < |actions| ==> actions[i].item.comp != comp || actions[i].item.leaf.key != key
  }

  /** An order that no action is about stays as it is. */
  lemma {:induction false} UntouchedStays(m: BookSideModel, actions: seq<Action>, comp: Component, key: nat)
    requires Untouched(actions, comp, key)
    ensures key in BookAfterAll(m, actions).Get(comp) <==> key in m.Get(comp)
    ensures key in m.Get(comp) ==> BookAfterAll(m, actions).Get(comp)[key] == m.Get(comp)[key]
    decreases |actions|
  {
    if actions != [] {
      var a := actions[0];
      assert a.item.comp != comp || a.item.leaf.key != key;
      var m' := BookAfter(m, a);
      assert key in m'.Get(comp) <==> key in m.Get(comp);
      hide BookAfter;
      assert Untouched(actions[1..], comp, key) by {
        forall i | 0 <= i < |actions[1..]|
          ensures actions[1..][i].item.comp != comp || actions[1..][i].item.leaf.key != key
        {
          assert actions[1..][i] == actions[i + 1];
        }
      }
      UntouchedStays(m', actions[1..], comp, key);
    }
  }

  /** The order that an action is about is gone, or has its quantity reduced by what was matched. */
  lemma {:induction false} TouchedChanges(m: BookSideModel, opp: Side, env: Env, actions: seq<Action>, i: nat)
    requires Doable(m, opp, env, actions) && i < |actions|
    ensures var a := actions[i];
            var after := BookAfterAll(m, actions).Get(a.item.comp);
            && (LeftOf(a).None? ==> a.item.leaf.key !in after)
            && (LeftOf(a).Some? ==> a.item.leaf.key in after && after[a.item.leaf.key] == LeftOf(a).value)
    decreases |actions|
  {
    var a := actions[i];
    StillDoable(m, opp, env, actions);
    if i == 0 {
      ActionLeaves(m, opp, a);
      OthersUntouched(m, opp, env, actions);
      UntouchedStays(BookAfter(m, a), actions[1..], a.item.comp, a.item.leaf.key);
    } else {
      hide Doable, BookAfter;
      TouchedChanges(BookAfter(m, actions[0]), opp, env, actions[1..], i - 1);
    }
  }

  lemma ActionLeaves(m: BookSideModel, opp: Side, a: Action)
    requires Shown(m, opp, a.item)
    ensures var after := BookAfter(m, a).Get(a.item.comp);
            && (LeftOf(a).None? ==> a.item.leaf.key !in after)
            && (LeftOf(a).Some? ==> a.item.leaf.key in after && after[a.item.leaf.key] == LeftOf(a).value)
  {
  }

  lemma OthersUntouched(m: BookSideModel, opp: Side, env: Env, actions: seq<Action>)
    requires Doable(m, opp, env, actions) && actions != []
    ensures Untouched(actions[1..], actions[0].item.comp, actions[0].item.leaf.key)
  {
    forall i | 0 <= i < |actions[1..]|
      ensures actions[1..][i].item.comp != actions[0].item.comp || actions[1..][i].item.leaf.key != actions[0].item.leaf.key
    {
      assert !SameOrder(actions[0].item, actions[i + 1].item);
    }
  }

  lemma ActionBook(ex: Exchange, env: Env, side: Side, a: Action, processed: nat)
    ensures var r := ApplyAction(ex, env, side, a, processed);
            r.Ok? ==>
              && r.value.0.orders.Book(side.Invert()) == BookAfter(ex.orders.Book(side.Invert()), a)
              && r.value.0.orders.Book(side) == ex.orders.Book(side)
  {
    hide CancelOrder, ExecuteMaker, AmountsOfFill, MatchedBook;
  }

  lemma {:induction false} ActionsBook(ex: Exchange, env: Env, side: Side, actions: seq<Action>, processed: nat)
    ensures var r := ApplyActions(ex, env, side, actions, processed);
            r.Ok? ==>
              && r.value.0.orders.Book(side.Invert()) == BookAfterAll(ex.orders.Book(side.Invert()), actions)
              && r.value.0.orders.Book(side) == ex.orders.Book(side)
    decreases |actions|
  {
    if actions != [] {
      ActionBook(ex, env, side, actions[0], processed);
      hide ApplyAction, BookAfter, Orders.Book, Side.Invert;
      var r := ApplyAction(ex, env, side, actions[0], processed);
      if r.Ok? { ActionsBook(r.value.0, env, side, actions[1..], r.value.1); }
    }
  }

  /** Matching changes the opposing book by its actions and nothing else, and leaves the order's own side alone. */
  lemma MatchingChangesBooks(ex: Exchange, env: Env, o: Order, limit: nat, priceLots: int)
    requires o.maxBaseLots >= 0 && o.maxQuoteLotsIncludingFees >= 0
    requires ex.market.config.Ok() && BookOk(ex.orders.Book(o.side.Invert()))
    ensures var w := WalkOf(ex, env, o, limit, priceLots);
            var r := TakeOrder(ex, env, o, priceLots, w);
            && Doable(ex.orders.Book(o.side.Invert()), o.side.Invert(), env, w.actions)
            && (r.Ok? ==>
                  && r.value.ex.orders.Book(o.side.Invert()) == BookAfterAll(ex.orders.Book(o.side.Invert()), w.actions)
                  && r.value.ex.orders.Book(o.side) == ex.orders.Book(o.side))
  {
    hide *;
    var opp, t, b := o.side.Invert(), TakerOf(o, env.owner, env.hasAccount, priceLots), StartBudget(ex.market.config, o, limit);
    var w := WalkOf(ex, env, o, limit, priceLots);
    TakerFields(o, env, priceLots);
    StartIsOk(ex.market.config, o, limit);
    WalkOfIs(ex, env, o, limit, priceLots);
    WalkIsDoable(ex.orders.Book(opp), opp, t, env, b);
    NextOrders(ex);
    ActionsBook(NextSeqNum(ex), env, o.side, w.actions, 0);
    TakeOrderIs(ex, env, o, priceLots, w);
    var r := ApplyActions(NextSeqNum(ex), env, o.side, w.actions, 0);
    if r.Ok? {
      TakenByEx(r.value.0, env, o, priceLots, w.actions);
      SettlingLeavesOrders(TakenBy(r.value.0, env, o, priceLots, w.actions), env, o.side);
    }
  }

  lemma NextOrders(ex: Exchange)
    ensures NextSeqNum(ex).orders == ex.orders
  {
  }

  lemma TakenByEx(ex: Exchange, env: Env, o: Order, priceLots: int, actions: seq<Action>)
    ensures TakenBy(ex, env, o, priceLots, actions).ex == ex
  {
  }

  lemma SettlingLeavesOrders(p: Placed, env: Env, side: Side)
    ensures SettleTaker(p, env, side).Ok? ==> SettleTaker(p, env, side).value.ex.orders == p.ex.orders
  {
  }

  // ---------- priority ----------

  /** Price-time priority on the book itself: whenever the order matches one order, every valid order that the book shows
      before it is dealt with too; and it stops for a true reason. */
  lemma PricePriority(ex: Exchange, env: Env, o: Order, limit: nat, priceLots: int)
    requires ex.market.config.Ok() && BookOk(ex.orders.Book(o.side.Invert()))
    requires o.maxBaseLots >= 0 && o.maxQuoteLotsIncludingFees >= 0
    ensures var opp, t := o.side.Invert(), TakerOf(o, env.owner, env.hasAccount, priceLots);
            var items, w := ItemsOf(ex, opp, env.now, env.oracle), WalkOf(ex, env, o, limit, priceLots);
            && ItemsOk(items) && PricesRanked(opp, items)
            && var n := Seen(t, items, StartBudget(ex.market.config, o, limit));
               && AllDealtWith(items, w.actions, n) && StopsRightly(t, items, w, n)
               && InItemOrder(items, w.actions) && ActionsOk(t, items, w.actions)
  {
    hide *;
    var opp, t, b := o.side.Invert(), TakerOf(o, env.owner, env.hasAccount, priceLots), StartBudget(ex.market.config, o, limit);
    var items := ItemsOf(ex, opp, env.now, env.oracle);
    StartIsOk(ex.market.config, o, limit);
    WalkOfIs(ex, env, o, limit, priceLots);
    ItemsAreRanked(ex.orders.Book(opp), opp, env.now, env.oracle);
    NothingSkipped(t, items, b);
    ActionsFollowItems(t, items, b);
    WalkTotals(t, items, b);
  }

  /** A bid leaves at most one order of the book filled in part: the last one that it matches. */
  lemma BidFillsOneInPart(ex: Exchange, env: Env, o: Order, limit: nat, priceLots: int)
    requires ex.market.config.Ok() && BookOk(ex.orders.Book(o.side.Invert())) && o.side.Bid?
    requires o.maxBaseLots >= 0 && o.maxQuoteLotsIncludingFees >= 0
    ensures OnlyLastPartial(WalkOf(ex, env, o, limit, priceLots).actions)
  {
    hide *;
    var t, b := TakerOf(o, env.owner, env.hasAccount, priceLots), StartBudget(ex.market.config, o, limit);
    StartIsOk(ex.market.config, o, limit);
    WalkOfIs(ex, env, o, limit, priceLots);
    ItemsAreRanked(ex.orders.Book(o.side.Invert()), o.side.Invert(), env.now, env.oracle);
    TakerSide(o, env, priceLots);
    OppositeOfBid(o.side);
    BidLeavesOnePartial(t, ItemsOf(ex, o.side.Invert(), env.now, env.oracle), b);
  }

  lemma OppositeOfBid(side: Side)
    ensures side.Bid? ==> side.Invert() == Ask
  {
  }

  /** Either side leaves at most one order of the book filled in part exactly when nothing can be matched any more behind the
      first order that quote cuts short; in particular when the budget affords every order within the price. */
  lemma FillsOneInPartExactlyWhen(ex: Exchange, env: Env, o: Order, limit: nat, priceLots: int)
    requires ex.market.config.Ok() && BookOk(ex.orders.Book(o.side.Invert()))
    requires o.maxBaseLots >= 0 && o.maxQuoteLotsIncludingFees >= 0
    ensures var items, t := ItemsOf(ex, o.side.Invert(), env.now, env.oracle), TakerOf(o, env.owner, env.hasAccount, priceLots);
            var b := StartBudget(ex.market.config, o, limit);
            && ItemsOk(items)
            && var cut := FirstCut(t, items, b);
               && (OnlyLastPartial(WalkOf(ex, env, o, limit, priceLots).actions) <==>
                     cut.None? || NothingToMatch(t, cut.value.rest, cut.value.left))
               && (Affords(t, items, b.quote) ==> cut.None?)
  {
    hide *;
    var t, b := TakerOf(o, env.owner, env.hasAccount, priceLots), StartBudget(ex.market.config, o, limit);
    StartIsOk(ex.market.config, o, limit);
    WalkOfIs(ex, env, o, limit, priceLots);
    var items := ItemsOf(ex, o.side.Invert(), env.now, env.oracle);
    OnePartialExactlyWhen(t, items, b);
    if Affords(t, items, b.quote) { AffordedNotCut(t, items, b); }
  }

  // ---------- is a posted order clear of the opposing side? ----------

  /** Of the valid orders that the book showed within the price, none is on the book any more. */
  ghost predicate Cleared(items: seq<Item>, side: Side, priceLots: int, after: BookSideModel) {
    forall i :: 0 <= i < |items| && items[i].state.Valid? && side.IsPriceWithinLimit(items[i].price, priceLots) ==>
      items[i].leaf.key !in after.Get(items[i].comp)
  }

  /** What the walk says of itself is what the book shows afterwards. */
  lemma ClearedIsUncrossed(m: BookSideModel, opp: Side, t: Taker, env: Env, b: Budget)
    requires BookOk(m) && BudgetOk(b) && t.hasAccount == env.hasAccount && t.owner == env.owner
    ensures var items := Items(opp, Ranked(opp, m.fixed), Ranked(opp, m.pegged), env.now, env.oracle);
            ItemsOk(items) && (Cleared(items, t.side, t.priceLots, BookAfterAll(m, Walk(t, items, b).actions)) <==>
                               Uncrossed(t, items, Walk(t, items, b), Seen(t, items, b)))
  {
    hide *;
    var items := Items(opp, Ranked(opp, m.fixed), Ranked(opp, m.pegged), env.now, env.oracle);
    WalkIsDoable(m, opp, t, env, b);
    ClearedFacts(m, items);
    var w, n := Walk(t, items, b), Seen(t, items, b);
    ItemsShown(m, opp, env.now, env.oracle);
    NothingSkipped(t, items, b);
    WalkTotals(t, items, b);
    ActionsBefore(t, items, b);
    RankedIsRanked(opp, m.fixed);
    RankedIsRanked(opp, m.pegged);
    ItemsInTreeOrder(opp, Ranked(opp, m.fixed), Ranked(opp, m.pegged), env.now, env.oracle);
    if Uncrossed(t, items, w, n) { UncrossedClears(m, opp, t, env, items, w, n); }
    if Cleared(items, t.side, t.priceLots, BookAfterAll(m, w.actions)) { ClearedUncrosses(m, opp, t, env, items, w, n); }
  }

  lemma ClearedFacts(m: BookSideModel, items: seq<Item>)
    requires BookOk(m) && ItemsOk(items)
    ensures KeysMatch(m.fixed) && KeysMatch(m.pegged) && forall i :: 0 <= i < |items| ==> items[i].price >= 1
  {
  }

  ghost predicate ItemsAreShown(m: BookSideModel, opp: Side, items: seq<Item>) {
    forall i :: 0 <= i < |items| ==> Shown(m, opp, items[i])
  }

  lemma ItemsShown(m: BookSideModel, opp: Side, now: int, oracle: Option<int>)
    requires BookOk(m)
    ensures ItemsAreShown(m, opp, Items(opp, Ranked(opp, m.fixed), Ranked(opp, m.pegged), now, oracle))
  {
    var items := Items(opp, Ranked(opp, m.fixed), Ranked(opp, m.pegged), now, oracle);
    ItemsShowOrders(opp, Ranked(opp, m.fixed), Ranked(opp, m.pegged), now, oracle);
    hide BookOk, ShowsOrder, Items, Ranked, Shown;
    forall i | 0 <= i < |items|
      ensures Shown(m, opp, items[i])
    {
      ItemIsShown(m, opp, items[i], now, oracle);
    }
  }

  lemma UncrossedClears(m: BookSideModel, opp: Side, t: Taker, env: Env, items: seq<Item>, w: Walked, n: nat)
    requires Doable(m, opp, env, w.actions) && AllDealtWith(items, w.actions, n) && Uncrossed(t, items, w, n)
    ensures Cleared(items, t.side, t.priceLots, BookAfterAll(m, w.actions))
  {
    hide Doable, BookAfterAll;
    forall i | 0 <= i < |items| && items[i].state.Valid? && t.side.IsPriceWithinLimit(items[i].price, t.priceLots)
      ensures items[i].leaf.key !in BookAfterAll(m, w.actions).Get(items[i].comp)
    {
      assert i < n && DealtWith(w.actions, items[i]);
      var j :| 0 <= j < |w.actions| && !w.actions[j].Drop? && w.actions[j].item == items[i];
      TouchedChanges(m, opp, env, w.actions, j);
    }
  }

  lemma ClearedUncrosses(m: BookSideModel, opp: Side, t: Taker, env: Env, items: seq<Item>, w: Walked, n: nat)
    requires Doable(m, opp, env, w.actions) && ActionsOk(t, items, w.actions) && ItemsAreShown(m, opp, items)
    requires InTreeOrder(opp, items) && Cleared(items, t.side, t.priceLots, BookAfterAll(m, w.actions))
    requires forall i :: 0 <= i < |w.actions| ==> Among(items, n, w.actions[i].item)
    ensures Uncrossed(t, items, w, n)
  {
    hide Doable, BookAfterAll;
    forall j | 0 <= j < |w.actions|
      ensures LeftOf(w.actions[j]).None?
    {
      assert ActionOk(t, items, w.actions[j]);
      TouchedChanges(m, opp, env, w.actions, j);
    }
    forall k | n <= k < |items| && items[k].state.Valid?
      ensures !t.side.IsPriceWithinLimit(items[k].price, t.priceLots)
    {
      assert Shown(m, opp, items[k]);
      NotReached(opp, items, w.actions, n, k);
      UntouchedStays(m, w.actions, items[k].comp, items[k].leaf.key);
    }
  }

  lemma NotReached(opp: Side, items: seq<Item>, actions: seq<Action>, n: nat, k: nat)
    requires InTreeOrder(opp, items) && n <= k < |items|
    requires forall i :: 0 <= i < |actions| ==> Among(items, n, actions[i].item)
    ensures Untouched(actions, items[k].comp, items[k].leaf.key)
  {
    forall i | 0 <= i < |actions|
      ensures actions[i].item.comp != items[k].comp || actions[i].item.leaf.key != items[k].leaf.key
    {
      assert Among(items, n, actions[i].item);
      var j :| 0 <= j < n && j < |items| && items[j] == actions[i].item;
    }
  }

  lemma PostingLeavesOther(c: Config, p: Placed, env: Env, o: Order, priceLots: int, key: nat, target: Option<Component>, quantity: int)
    requires c.Ok()
    ensures var r := PostRest(c, p, env, o, priceLots, key, target, quantity);
            r.Ok? ==> r.value.ex.orders.Book(o.side.Invert()) == p.ex.orders.Book(o.side.Invert())
  {
    hide CancelOrder, Posted, ExpiredOrder, ExpiredComponent, WorstItem, BookSideModel.Insert, BookSideModel.Remove, BookSideModel.IsFull,
         MakerFeesCeil, LockingPrice, MaxQuoteLots;
  }

  /** An order that is posted has cleared the opposing book within its price exactly when its quote, less the taker fee that it
      keeps back, affords every valid order that the book shows within its price. */
  lemma PostedIsClearExactlyWhen(ex: Exchange, env: Env, o: Order, limit: nat, priceLots: int, priceData: int)
    requires ex.market.config.Ok() && 0 <= ex.market.seqNum < U64_MAX && BookOk(ex.orders.Book(o.side.Invert()))
    requires o.maxBaseLots >= 0 && o.maxQuoteLotsIncludingFees >= 0
    requires LockingPrice(o, priceLots) >= 1 && IsU64(priceData)
    ensures var r, items := OrderAt(ex, env, o, limit, priceLots, priceData), ItemsOf(ex, o.side.Invert(), env.now, env.oracle);
            r.Ok? && r.value.orderId.Some? ==>
              (Cleared(items, o.side, priceLots, r.value.ex.orders.Book(o.side.Invert())) <==>
               Affords(TakerOf(o, env.owner, env.hasAccount, priceLots), items, OrderMaxQuote(ex.market.config, o)))
  {
    hide *;
    var opp, c := o.side.Invert(), ex.market.config;
    var t, b := TakerOf(o, env.owner, env.hasAccount, priceLots), StartBudget(c, o, limit);
    var items, w := ItemsOf(ex, opp, env.now, env.oracle), WalkOf(ex, env, o, limit, priceLots);
    SeqNumInRange(ex.market.seqNum);
    OrderAtIs(ex, env, o, limit, priceLots, priceData);
    TakerFields(o, env, priceLots);
    TakerSide(o, env, priceLots);
    TakerOfPrice(o, env, priceLots);
    StartIsOk(c, o, limit);
    WalkOfIs(ex, env, o, limit, priceLots);
    MatchingChangesBooks(ex, env, o, limit, priceLots);
    NoIdYet(ex, env, o, priceLots, w);
    var r, taken := OrderAt(ex, env, o, limit, priceLots, priceData), TakeOrder(ex, env, o, priceLots, w);
    if r.Ok? && r.value.orderId.Some? {
      var quantity := PostQuantity(c, o, priceLots, w.left.base, TakenQuote(w.actions), taken.value.takerFees);
      var key, target := NewNodeKey(o.side, priceData, ex.market.seqNum + 1), PostedTo(o, priceLots, w.stop, quantity);
      PostRestIs(c, taken.value, env, o, priceLots, key, target, quantity);
      PostingLeavesOther(c, taken.value, env, o, priceLots, key, target, quantity);
      PostedMeans(c, o, priceLots, w.stop, w.left.base, TakenQuote(w.actions), taken.value.takerFees);
      ClearedIsUncrossed(ex.orders.Book(opp), opp, t, env, b);
      ItemsAreRanked(ex.orders.Book(opp), opp, env.now, env.oracle);
      UncrossedExactlyWhen(t, items, b);
    }
  }

  lemma TakerOfPrice(o: Order, env: Env, priceLots: int)
    ensures TakerOf(o, env.owner, env.hasAccount, priceLots).priceLots == priceLots
  {
  }

  /** Only an order with base left is posted, and only when the walk lets it. */
  lemma PostedMeans(c: Config, o: Order, priceLots: int, stop: Stop, base: int, takenQuote: int, takerFees: int)
    requires c.Ok() && LockingPrice(o, priceLots) >= 1
    ensures PostedTo(o, priceLots, stop, PostQuantity(c, o, priceLots, base, takenQuote, takerFees)).Some? ==>
              MayPost(stop) && base > 0
  {
  }

  /** The same for an order whose price is still to be found. */
  lemma NewOrderIsClearExactlyWhen(ex: Exchange, env: Env, o: Order, limit: nat)
    requires OrderOk(o) && ex.market.config.Ok() && ex.market.seqNum >= 0 && BookOk(ex.orders.Book(o.side.Invert()))
    requires PegLimit(o) == -1 || PegLimit(o) >= 1
    ensures var r, items := NewOrder(ex, env, o, limit), ItemsOf(ex, o.side.Invert(), env.now, env.oracle);
            r.Ok? && r.value.orderId.Some? ==>
              && OrderPrice(o, env.oracle, items).Ok?
              && var (priceLots, _) := OrderPrice(o, env.oracle, items).value;
                 (Cleared(items, o.side, priceLots, r.value.ex.orders.Book(o.side.Invert())) <==>
                  Affords(TakerOf(o, env.owner, env.hasAccount, priceLots), items, OrderMaxQuote(ex.market.config, o)))
  {
    OrderOkIs(o);
    hide BookOk, ItemsOf, OrderPrice, OrderOk, OrderAt, OrderMaxQuote, MaxBaseLots, MaxQuoteLots, Config.Ok, PegLimit, LockingPrice,
         Affords, Cleared, TakerOf;
    var price := OrderPrice(o, env.oracle, ItemsOf(ex, o.side.Invert(), env.now, env.oracle));
    if NewOrder(ex, env, o, limit).Ok? {
      PriceFacts(o, env.oracle, ItemsOf(ex, o.side.Invert(), env.now, env.oracle));
      PostedIsClearExactlyWhen(ex, env, o, limit, price.value.0, price.value.1);
    }
  }

  /** A post-only order that is posted took nothing, and every valid order that the opposing book shows is beyond its price. */
  lemma PostOnlyIsUncrossed(ex: Exchange, env: Env, o: Order, limit: nat, priceLots: int, priceData: int)
    requires ex.market.config.Ok() && 0 <= ex.market.seqNum < U64_MAX && BookOk(ex.orders.Book(o.side.Invert()))
    requires IsPostOnly(o) && o.maxBaseLots >= 0 && o.maxQuoteLotsIncludingFees >= 0
    requires LockingPrice(o, priceLots) >= 1 && IsU64(priceData)
    ensures var r := OrderAt(ex, env, o, limit, priceLots, priceData);
            var items := ItemsOf(ex, o.side.Invert(), env.now, env.oracle);
            r.Ok? ==>
              && r.value.takenBase == 0 && r.value.takenQuote == 0 && r.value.takerFees == 0
              && (r.value.orderId.Some? ==>
                    forall i :: 0 <= i < |items| && items[i].state.Valid? ==>
                      !o.side.IsPriceWithinLimit(items[i].price, priceLots))
  {
    hide *;
    var opp, c := o.side.Invert(), ex.market.config;
    var items := ItemsOf(ex, opp, env.now, env.oracle);
    var w := WalkOf(ex, env, o, limit, priceLots);
    WalkOfIs(ex, env, o, limit, priceLots);
    ItemsAreRanked(ex.orders.Book(opp), opp, env.now, env.oracle);
    PostedPostOnlyIsUncrossed(c, o, env.owner, env.hasAccount, priceLots, limit, items);
    SeqNumInRange(ex.market.seqNum);
    OrderAtIs(ex, env, o, limit, priceLots, priceData);
    TakeOrderAmounts(ex, env, o, priceLots, w);
    NoFees(c, TakerOf(o, env.owner, env.hasAccount, priceLots), w.actions, ex, env, o, limit, priceLots);
    var taken := TakeOrder(ex, env, o, priceLots, w);
    if taken.Ok? {
      var quantity := PostQuantity(c, o, priceLots, w.left.base, TakenQuote(w.actions), taken.value.takerFees);
      PostRestIs(c, taken.value, env, o, priceLots, NewNodeKey(o.side, priceData, ex.market.seqNum + 1),
                 PostedTo(o, priceLots, w.stop, quantity), quantity);
      NoIdYet(ex, env, o, priceLots, w);
      NothingTimes(c);
    }
  }

  lemma NothingTimes(c: Config)
    ensures 0 * c.baseLotSize == 0 && 0 * c.quoteLotSize == 0
  {
  }

  lemma NoIdYet(ex: Exchange, env: Env, o: Order, priceLots: int, w: Walked)
    ensures TakeOrder(ex, env, o, priceLots, w).Ok? ==> TakeOrder(ex, env, o, priceLots, w).value.orderId == None
  {
    hide ApplyActions;
  }

  lemma NoFees(c: Config, t: Taker, actions: seq<Action>, ex: Exchange, env: Env, o: Order, limit: nat, priceLots: int)
    requires c == ex.market.config && c.Ok() && BookOk(ex.orders.Book(o.side.Invert()))
    requires o.maxBaseLots >= 0 && o.maxQuoteLotsIncludingFees >= 0
    requires t == TakerOf(o, env.owner, env.hasAccount, priceLots) && actions == WalkOf(ex, env, o, limit, priceLots).actions
    ensures TakenQuote(actions) == 0 ==> TakerFees(c, TakenQuote(actions), SelfQuote(t, actions)) == 0
  {
    WalkWithin(ex, env, o, limit, priceLots);
    hide WalkOf, TakenQuote, SelfQuote, BookOk;
  }

  // ---------- the simulation ----------

  /** A market order without an account that succeeds takes, pays and rebates exactly what the simulation says. */
  lemma SimulationIsRight(ex: Exchange, env: Env, side: Side, maxBase: int, maxQuote: int)
    requires ex.market.config.Ok() && 0 <= ex.market.seqNum && BookOk(ex.orders.Book(side.Invert()))
    requires !env.hasAccount && maxBase >= 0 && maxQuote >= 0
    ensures var r := NewOrder(ex, env, SimulatedOrder(side, maxBase, maxQuote), MAXIMUM_TAKEN_ORDERS);
            var items := ItemsOf(ex, side.Invert(), env.now, env.oracle);
            ItemsOk(items) && (r.Ok? ==>
              (r.value.takenBase, r.value.takenQuote, r.value.takerFees - r.value.referrerAmount)
              == EngineAmounts(ex.market.config, side, maxBase, maxQuote, env.owner, items))
  {
    hide *;
    var o, c := SimulatedOrder(side, maxBase, maxQuote), ex.market.config;
    SimulatedIs(side, maxBase, maxQuote);
    var items := ItemsOf(ex, side.Invert(), env.now, env.oracle);
    var priceLots := if side.Bid? then I64_MAX else 1;
    SimulatedPrice(side, maxBase, maxQuote, env.oracle, items);
    WalkOfIs(ex, env, o, MAXIMUM_TAKEN_ORDERS, priceLots);
    MarketOrderIs(ex, env, o, MAXIMUM_TAKEN_ORDERS);
    if NewOrder(ex, env, o, MAXIMUM_TAKEN_ORDERS).Ok? {
      var w := WalkOf(ex, env, o, MAXIMUM_TAKEN_ORDERS, priceLots);
      OrderAtIs(ex, env, o, MAXIMUM_TAKEN_ORDERS, priceLots, priceLots) by { SeqNumInRange(ex.market.seqNum); }
      TakeOrderReferrer(ex, env, o, priceLots, w);
      var taken := TakeOrder(ex, env, o, priceLots, w).value;
      var quantity := PostQuantity(c, o, priceLots, w.left.base, TakenQuote(w.actions), taken.takerFees);
      SeqNumInRange(ex.market.seqNum);
      PostRestIs(c, taken, env, o, priceLots, NewNodeKey(o.side, priceLots, ex.market.seqNum + 1),
                 PostedTo(o, priceLots, w.stop, quantity), quantity);
      EngineIs(c, side, maxBase, maxQuote, env.owner, items);
    }
  }

  lemma SimulatedIs(side: Side, maxBase: int, maxQuote: int)
    ensures var o := SimulatedOrder(side, maxBase, maxQuote);
            && o.side == side && o.maxBaseLots == maxBase && o.maxQuoteLotsIncludingFees == maxQuote
            && PegLimit(o) == -1 && o.params.MarketOrder?
            && LockingPrice(o, if side.Bid? then I64_MAX else 1) >= 1
  {
  }

  lemma SimulatedPrice(side: Side, maxBase: int, maxQuote: int, oracle: Option<int>, items: seq<Item>)
    ensures var priceLots := if side.Bid? then I64_MAX else 1;
            OrderPrice(SimulatedOrder(side, maxBase, maxQuote), oracle, items) == Ok((priceLots, priceLots)) && IsU64(priceLots)
  {
  }

  lemma MarketOrderIs(ex: Exchange, env: Env, o: Order, limit: nat)
    requires ex.market.config.Ok() && ex.market.seqNum >= 0 && BookOk(ex.orders.Book(o.side.Invert()))
    requires PegLimit(o) == -1
    ensures var price := OrderPrice(o, env.oracle, ItemsOf(ex, o.side.Invert(), env.now, env.oracle));
            NewOrder(ex, env, o, limit).Ok? ==>
              && price.Ok? && ex.market.seqNum < U64_MAX
              && LockingPrice(o, price.value.0) >= 1 && IsU64(price.value.1)
              && NewOrder(ex, env, o, limit) == OrderAt(ex, env, o, limit, price.value.0, price.value.1)
  {
    hide OrderAt, ItemsOf, BookOk, OrderMaxQuote;
  }

  lemma TakeOrderReferrer(ex: Exchange, env: Env, o: Order, priceLots: int, w: Walked)
    ensures var r, c, t := TakeOrder(ex, env, o, priceLots, w), ex.market.config, TakerOf(o, env.owner, env.hasAccount, priceLots);
            r.Ok? ==>
              && r.value.takenBase == TakenBase(w.actions) * c.baseLotSize
              && r.value.takenQuote == TakenQuote(w.actions) * c.quoteLotSize
              && r.value.takerFees == TakerFees(c, TakenQuote(w.actions), SelfQuote(t, w.actions))
              && r.value.referrerAmount == ReferrerAmount(c, TakenQuote(w.actions), SelfQuote(t, w.actions), RebatesOf(c, t, w.actions))
  {
    ActionsConfig(NextSeqNum(ex), env, o.side, w.actions, 0);
    hide TakerFees, ApplyActions, ReferrerAmount;
  }

  lemma EngineIs(c: Config, side: Side, maxBase: int, maxQuote: int, signer: Pubkey, items: seq<Item>)
    requires c.Ok() && forall i :: 0 <= i < |items| ==> items[i].price >= 1
    ensures var o := SimulatedOrder(side, maxBase, maxQuote);
            var t := TakerOf(o, signer, false, if side.Bid? then I64_MAX else 1);
            var actions := Walk(t, items, StartBudget(c, o, MAXIMUM_TAKEN_ORDERS)).actions;
            EngineAmounts(c, side, maxBase, maxQuote, signer, items) ==
            (TakenBase(actions) * c.baseLotSize, TakenQuote(actions) * c.quoteLotSize,
             TakerFees(c, TakenQuote(actions), SelfQuote(t, actions))
             - ReferrerAmount(c, TakenQuote(actions), SelfQuote(t, actions), RebatesOf(c, t, actions)))
  {
    hide Walk, TakerFees, ReferrerAmount;
  }
}
