/** Facts that the engine's methods rest on, about values alone. */
module EngineFacts {
  import opened Types
  import opened Prices
  import opened Accounts
  import opened Ledgers
  import opened BookSideModels
  import opened EventHeaps
  import opened Matching
  import opened Posting
  import opened Exchanges
  import ExchangeSpending

  // ---------- fees are locked before room is made ----------

  /** The market after an account has locked fees. */
  function LockIn(ex: Exchange, owner: Pubkey, fees: int): Exchange
    requires owner in ex.accounts
  {
    ex.WithAccount(owner, LockFees(ex.accounts[owner], fees))
  }

  function LockInResult(r: Result<Exchange>, owner: Pubkey, fees: int): Result<Exchange>
    requires r.Ok? ==> owner in r.value.accounts
  {
    match r case Ok(ex) => Ok(LockIn(ex, owner, fees)) case Err(e) => Err(e)
  }

  lemma CancelAfterLock(ex: Exchange, owner: Pubkey, fees: int, p: Pubkey, slot: nat, quantity: int)
    requires owner in ex.accounts
    ensures CancelFor(ex, p, slot, quantity).Ok? ==> owner in CancelFor(ex, p, slot, quantity).value.accounts
    ensures CancelFor(LockIn(ex, owner, fees), p, slot, quantity) == LockInResult(CancelFor(ex, p, slot, quantity), owner, fees)
  {
    var c, a := ex.market.config, ex.accounts[owner];
    if p == owner && slot < |a.slots| {
      LockThenCancel(c, a, fees, slot, quantity);
      assert ex.accounts[owner := LockFees(a, fees)][owner := CancelOrder(c, LockFees(a, fees), slot, quantity)]
          == ex.accounts[owner := CancelOrder(c, a, slot, quantity)][owner := LockFees(CancelOrder(c, a, slot, quantity), fees)];
    } else if p in ex.accounts && p != owner && slot < |ex.accounts[p].slots| {
      var b := CancelOrder(c, ex.accounts[p], slot, quantity);
      assert ex.accounts[owner := LockFees(a, fees)][p := b] == ex.accounts[p := b][owner := LockFees(a, fees)];
    }
  }

  lemma OutAfterLock(ex: Exchange, owner: Pubkey, fees: int, env: Env, e: Event)
    requires owner in ex.accounts && e.Out?
    ensures ProcessOut(ex, env, e).Ok? ==> owner in ProcessOut(ex, env, e).value.accounts
    ensures ProcessOut(LockIn(ex, owner, fees), env, e) == LockInResult(ProcessOut(ex, env, e), owner, fees)
  {
    CancelAfterLock(ex, owner, fees, e.owner, e.ownerSlot, e.quantity);
    hide CancelFor, LockFees;
  }

  lemma WithoutAfterLock(ex: Exchange, owner: Pubkey, fees: int, side: Side, comp: Component, key: nat)
    requires owner in ex.accounts
    ensures owner in ex.Without(side, comp, key).accounts
    ensures LockIn(ex, owner, fees).Without(side, comp, key) == LockIn(ex.Without(side, comp, key), owner, fees)
  {
  }

  lemma EvictExpiredAfterLock(ex: Exchange, owner: Pubkey, fees: int, env: Env, side: Side, comp: Component)
    requires owner in ex.accounts
    ensures EvictExpired(ex, env, side, comp).Ok? ==> owner in EvictExpired(ex, env, side, comp).value.accounts
    ensures EvictExpired(LockIn(ex, owner, fees), env, side, comp) == LockInResult(EvictExpired(ex, env, side, comp), owner, fees)
  {
    var m := ex.orders.Book(side);
    var from := ExpiredComponent(m, comp, env.now);
    var x := ExpiredOrder(m.Get(from), env.now);
    if x.Some? {
      WithoutAfterLock(ex, owner, fees, side, from, x.value.key);
      OutAfterLock(ex.Without(side, from, x.value.key), owner, fees, env, OutOf(side, x.value));
    }
    hide ProcessOut, LockFees, ExpiredOrder, ExpiredComponent;
  }

  lemma EvictWorstAfterLock(ex: Exchange, owner: Pubkey, fees: int, env: Env, side: Side, priceLots: int)
    requires owner in ex.accounts
    ensures EvictWorst(ex, env, side, priceLots).Ok? ==> owner in EvictWorst(ex, env, side, priceLots).value.accounts
    ensures EvictWorst(LockIn(ex, owner, fees), env, side, priceLots) == LockInResult(EvictWorst(ex, env, side, priceLots), owner, fees)
  {
    var m := ex.orders.Book(side);
    var x := WorstItem(m, side, env.now, env.oracle);
    if x.Some? {
      WithoutAfterLock(ex, owner, fees, side, x.value.comp, x.value.leaf.key);
      OutAfterLock(ex.Without(side, x.value.comp, x.value.leaf.key), owner, fees, env, OutOf(side, x.value.leaf));
    }
    hide ProcessOut, LockFees, WorstItem, BookSideModel.IsFull;
  }

  // ---------- amounts ----------

  /** What the caller learns of a new order. */
  datatype Receipt = Receipt(
    orderId: Option<nat>, takenBase: int, takenQuote: int, takerFees: int, referrerAmount: int,
    postedBase: int, postedQuote: int, makerFees: int)

  function ReceiptOf(p: Placed): Receipt {
    Receipt(p.orderId, p.takenBase, p.takenQuote, p.takerFees, p.referrerAmount, p.postedBase, p.postedQuote, p.makerFees)
  }

  // ---------- accounts do not come or go ----------

  lemma ActionKeepsKeys(ex: Exchange, env: Env, side: Side, a: Action, processed: nat)
    ensures var r := ApplyAction(ex, env, side, a, processed); r.Ok? ==> r.value.0.accounts.Keys == ex.accounts.Keys
  {
    hide CancelOrder, ExecuteMaker, AmountsOfFill;
  }

  lemma {:induction false} ActionsKeepKeys(ex: Exchange, env: Env, side: Side, actions: seq<Action>, processed: nat)
    ensures var r := ApplyActions(ex, env, side, actions, processed); r.Ok? ==> r.value.0.accounts.Keys == ex.accounts.Keys
    decreases |actions|
  {
    if actions != [] {
      ActionKeepsKeys(ex, env, side, actions[0], processed);
      hide ApplyAction;
      var r := ApplyAction(ex, env, side, actions[0], processed);
      if r.Ok? { ActionsKeepKeys(r.value.0, env, side, actions[1..], r.value.1); }
    }
  }

  lemma TakeOrderKeepsKeys(ex: Exchange, env: Env, o: Order, priceLots: int, w: Walked)
    ensures var r := TakeOrder(ex, env, o, priceLots, w);
            r.Ok? ==> r.value.ex.accounts.Keys == ex.accounts.Keys && r.value.ex.market.config == ex.market.config
                      && r.value.orderId == None && r.value.postedBase == 0 && r.value.postedQuote == 0 && r.value.makerFees == 0
  {
    ActionsKeepKeys(NextSeqNum(ex), env, o.side, w.actions, 0);
    ExchangeSpending.ActionsConfig(NextSeqNum(ex), env, o.side, w.actions, 0);
    hide ApplyActions, ExecuteTaker, TakerFees, ReferrerAmount, RebatesOf, SelfQuote;
  }

  // ---------- prices ----------

  /** Only orders that slide look at the opposing book. */
  predicate Slides(o: Order) {
    (o.params.FixedOrder? || o.params.PeggedOrder?) && o.params.orderType.PostOnlySlide?
  }

  lemma OthersDoNotSlide(o: Order, oracle: Option<int>, best: Option<int>)
    requires !Slides(o)
    ensures PriceWithBest(o, oracle, best) == PriceWithBest(o, oracle, None)
  {
  }

  /** The price of the first valid item, from an invalid one on. */
  lemma NextBest(items: seq<Item>)
    requires items != []
    ensures items[0].state.Valid? ==> BestPrice(items) == Some(items[0].price)
    ensures !items[0].state.Valid? ==> BestPrice(items) == BestPrice(items[1..])
  {
  }
}
