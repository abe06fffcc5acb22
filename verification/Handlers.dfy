/** The instruction handlers, working on the engine in place. On an error the runtime puts everything back as it was, so
    nothing is said of the state then. */
module Handlers {
  import opened Types
  import opened Keys
  import opened Prices
  import opened Markets
  import opened Accounts
  import opened Ledgers
  import opened BookSides
  import opened EventHeaps
  import opened Matching
  import opened Exchanges
  import opened ExchangeActions
  import opened ExchangeNewOrder
  import opened EngineFacts
  import opened Engines
  import opened Instructions
  import opened ExchangeInvariants
  import opened InstructionOrders
  import opened InstructionBatch
  import opened InstructionEdits

  // ---------- placing ----------

  lemma PenaltyIs(e: Engine)
    requires e.Valid()
    ensures e.heap.Valid() && e.heap.Len() == |e.State().orders.heap.order|
  {
  }

  lemma PaidFromIs(wallet: Wallet, ex: Exchange, owner: Pubkey, quote: int, base: int, penalty: bool)
    requires owner in ex.accounts
    ensures var a, m := ex.accounts[owner], ex.market;
            var p := a.position;
            var freeQuote, freeBase := Min(quote, p.quoteFree), Min(base, p.baseFree);
            PaidFrom(wallet, ex, owner, quote, base, penalty) ==
            if quote - freeQuote > wallet.quote || base - freeBase > wallet.base then Err(InsufficientFunds)
            else Ok(Exchange(
              m.(quoteDepositTotal := m.quoteDepositTotal + (quote - freeQuote), baseDepositTotal := m.baseDepositTotal + (base - freeBase)),
              ex.accounts[owner := a.(position := p.(
                quoteFree := p.quoteFree - freeQuote, baseFree := p.baseFree - freeBase,
                penaltyHeapCount := if penalty then p.penaltyHeapCount + 1 else p.penaltyHeapCount))],
              ex.orders))
  {
    hide Min;
  }

  /** Charges an account: free funds first, then a deposit. */
  method ChargeAccount(e: Engine, wallet: Wallet, owner: Pubkey, quote: int, base: int, penalty: bool) returns (error: Option<Error>)
    requires e.Valid() && owner in e.accounts && owner in e.State().accounts
    modifies e`market, e`accounts
    ensures e.Valid()
    ensures match PaidFrom(wallet, old(e.State()), owner, quote, base, penalty)
            case Ok(ex) => error == None && e.State() == ex
            case Err(err) => error == Some(err)
  {
    hide BookSide.Valid, BookSide.Model, EventHeap.Valid, EventHeap.Model, PaidFrom, Min;
    PaidFromIs(wallet, e.State(), owner, quote, base, penalty);
    var a := e.accounts[owner];
    var p := a.position;
    var freeQuote, freeBase := Min(quote, p.quoteFree), Min(base, p.baseFree);
    var depositQuote, depositBase := quote - freeQuote, base - freeBase;
    p := p.(quoteFree := p.quoteFree - freeQuote, baseFree := p.baseFree - freeBase);
    e.market := e.market.(quoteDepositTotal := e.market.quoteDepositTotal + depositQuote,
                          baseDepositTotal := e.market.baseDepositTotal + depositBase);
    if penalty {
      p := p.(penaltyHeapCount := p.penaltyHeapCount + 1);
    }
    e.accounts := e.accounts[owner := a.(position := p)];
    if depositQuote > wallet.quote || depositBase > wallet.base {
      return Some(InsufficientFunds);
    }
    return None;
  }

  /** `place_order`. */
  method PlaceOrderHandler(e: Engine, env: Env, wallet: Wallet, o: Order, limit: nat) returns (r: Result<Option<nat>>)
    requires e.Valid() && CanTrade(e.State())
    modifies e`market, e`accounts, e.heap, e.heap.nodes, e.bids, e.bids.nodes, e.asks, e.asks.nodes
    ensures e.Valid()
    ensures match PlaceOrder(old(e.State()), env, wallet, o, limit)
            case Ok(ex) => r.Ok? && e.State() == ex
            case Err(err) => r == Err(err)
  {
    hide *;
    ghost var was := e.State();
    PlaceOrderSteps(was, env, wallet, o, limit);
    RefusedIs(o);
    e.MarketIs();
    if o.maxBaseLots < 0 || o.maxQuoteLotsIncludingFees < 0 {
      return Err(InvalidInputLots);
    }
    if o.params.PeggedOrder? && o.params.pegLimit <= 0 {
      return Err(InvalidInputPegLimit);
    }
    if !env.hasAccount || env.owner !in e.accounts {
      return Err(AccountMissing);
    }
    TradeFacts(e, o);
    PenaltyIs(e);
    var sizeBefore := e.heap.Len();
    var placed := e.NewOrder(env, o, limit);
    if placed.Err? {
      return Err(placed.error);
    }
    e.MarketIs();
    PenaltyIs(e);
    var p := placed.value;
    if env.owner !in e.accounts {
      return Err(AccountMissing);
    }
    var quote := if o.side.Bid? then p.takenQuote + p.postedQuote + p.takerFees + p.makerFees else 0;
    var base := if o.side.Ask? then p.takenBase + p.postedBase else 0;
    ReceiptCosts(Exchanges.NewOrder(was, env, o, limit).value, o.side);
    GrewIs(was, e.State());
    var error := ChargeAccount(e, wallet, env.owner, quote, base, e.heap.Len() > sizeBefore);
    if error.Some? {
      return Err(error.value);
    }
    return Ok(p.orderId);
  }

  lemma RefusedIs(o: Order)
    ensures Refused(o) ==
            if o.maxBaseLots < 0 || o.maxQuoteLotsIncludingFees < 0 then Some(InvalidInputLots)
            else if o.params.PeggedOrder? && o.params.pegLimit <= 0 then Some(InvalidInputPegLimit)
            else None
  {
  }

  lemma ReceiptCosts(p: Placed, side: Side)
    ensures var r := ReceiptOf(p);
            && OwnQuote(p, side) == (if side.Bid? then r.takenQuote + r.postedQuote + r.takerFees + r.makerFees else 0)
            && OwnBase(p, side) == (if side.Ask? then r.takenBase + r.postedBase else 0)
            && r.takerFees == p.takerFees && r.referrerAmount == p.referrerAmount && r.takenBase == p.takenBase && r.takenQuote == p.takenQuote
  {
  }

  lemma GrewIs(before: Exchange, after: Exchange)
    ensures HeapGrew(before, after) <==> |after.orders.heap.order| > |before.orders.heap.order|
  {
  }

  lemma TradeFacts(e: Engine, o: Order)
    requires e.Valid() && CanTrade(e.State()) && Refused(o).None?
    ensures OrderOk(o) && (PegLimit(o) == -1 || PegLimit(o) >= 1)
    ensures BookOk(e.State().orders.Book(o.side.Invert())) && BookOk(e.Book(o.side.Invert()).Model())
    ensures e.market.config.Ok() && e.market.seqNum >= 0 && e.State().market.config.Ok() && e.State().market.seqNum >= 0
  {
  }

  /** `place_take_order`. */
  method PlaceTakeOrderHandler(e: Engine, env: Env, wallet: Wallet, o: Order, limit: nat) returns (error: Option<Error>)
    requires e.Valid() && CanTrade(e.State())
    modifies e`market, e`accounts, e.heap, e.heap.nodes, e.bids, e.bids.nodes, e.asks, e.asks.nodes
    ensures e.Valid()
    ensures match PlaceTakeOrder(old(e.State()), env, wallet, o, limit)
            case Ok(ex) => error == None && e.State() == ex
            case Err(err) => error == Some(err)
  {
    hide *;
    ghost var was := e.State();
    TakeOrderSteps(was, env, wallet, o, limit);
    RefusedIs(o);
    e.MarketIs();
    if o.maxBaseLots < 0 || o.maxQuoteLotsIncludingFees < 0 {
      return Some(InvalidInputLots);
    }
    if o.params.PeggedOrder? && o.params.pegLimit <= 0 {
      return Some(InvalidInputPegLimit);
    }
    if PostTarget(o).Some? {
      return Some(InvalidInputOrderType);
    }
    if env.hasAccount || env.owner in e.accounts {
      return Some(AccountMissing);
    }
    TradeFacts(e, o);
    var placed := e.NewOrder(env, o, limit);
    if placed.Err? {
      return Some(placed.error);
    }
    ReceiptCosts(Exchanges.NewOrder(was, env, o, limit).value, o.side);
    var p := placed.value;
    var rebates := p.takerFees - p.referrerAmount;
    match o.side {
      case Bid =>
        var total := p.takenQuote + rebates;
        if total > wallet.quote {
          return Some(InsufficientFunds);
        }
        MoveTotals(e, total, -p.takenBase);
      case Ask =>
        var total := p.takenQuote - rebates;
        if p.takenBase > wallet.base {
          return Some(InsufficientFunds);
        }
        MoveTotals(e, -total, p.takenBase);
    }
    return None;
  }

  /** Tokens go into the vaults, or out of them. */
  method MoveTotals(e: Engine, quote: int, base: int)
    requires e.Valid()
    modifies e`market
    ensures e.Valid() && e.State() == MovedTotals(old(e.State()), quote, base)
  {
    hide BookSide.Valid, BookSide.Model, EventHeap.Valid, EventHeap.Model;
    e.market := e.market.(baseDepositTotal := e.market.baseDepositTotal + base,
                          quoteDepositTotal := e.market.quoteDepositTotal + quote);
  }

  // ---------- cancelling ----------

  /** `Orderbook::cancel_order`: off the book, and out of the account. */
  method CancelAtHandler(e: Engine, p: Pubkey, side: Side, comp: Component, id: nat) returns (r: Result<int>)
    requires e.Valid() && id < KEY_SIZE
    modifies e`accounts, e.Book(side), e.Book(side).nodes
    ensures e.Valid()
    ensures match CancelAt(old(e.State()), p, side, comp, id)
            case Ok((ex, quantity)) => r == Ok(quantity) && e.State() == ex
            case Err(err) => r == Err(err) && (err.OrderIdNotFound? ==> e.State() == old(e.State()))
  {
    hide BookSide.Valid, BookSide.Model, EventHeap.Valid, EventHeap.Model, CancelFor;
    CancelErrors(e.State().Without(side, comp, id));
    var removed := e.Book(side).RemoveByKey(comp, id);
    if removed.None? {
      return Err(OrderIdNotFound);
    }
    var leaf := removed.value;
    if leaf.owner != p {
      return Err(SomeError);
    }
    var error := e.CancelIn(p, leaf.ownerSlot, leaf.quantity);
    if error.Some? {
      return Err(error.value);
    }
    return Ok(leaf.quantity);
  }

  lemma CancelErrors(ex: Exchange)
    ensures forall p, slot, quantity :: CancelFor(ex, p, slot, quantity).Err? ==>
              CancelFor(ex, p, slot, quantity).error in {AccountMissing, AssertionFailed}
  {
  }

  lemma CancelKeepsIds(ex: Exchange, p: Pubkey, side: Side, comp: Component, id: nat)
    requires IdsInRange(ex.accounts)
    ensures var r := CancelAt(ex, p, side, comp, id); r.Ok? ==> IdsInRange(r.value.0.accounts)
  {
    hide MakerFeesCeil;
    var r := CancelAt(ex, p, side, comp, id);
    if r.Ok? {
      forall q, s | InUse(r.value.0.accounts, q, s)
        ensures InUse(ex.accounts, q, s) && r.value.0.accounts[q].slots[s] == ex.accounts[q].slots[s]
      {
      }
    }
  }

  /** `Orderbook::cancel_all_orders`. */
  method CancelAllHandler(e: Engine, p: Pubkey, f: Filter, limit: nat) returns (r: Result<int>)
    requires e.Valid() && IdsInRange(e.State().accounts)
    modifies e`accounts, e.bids, e.bids.nodes, e.asks, e.asks.nodes
    ensures e.Valid()
    ensures match CancelAllFrom(old(e.State()), p, f, 0, limit)
            case Ok((ex, lots)) => r == Ok(lots) && e.State() == ex && IdsInRange(ex.accounts)
            case Err(err) => r == Err(err)
  {
    hide *;
    var left, i, lots := limit, 0, 0;
    ghost var all := CancelAllFrom(e.State(), p, f, 0, limit);
    CountedMore(0, 0, all);
    while i < MAX_OPEN_ORDERS
      invariant 0 <= i <= MAX_OPEN_ORDERS
      invariant e.Valid() && IdsInRange(e.State().accounts)
      invariant Counted(lots, CancelAllFrom(e.State(), p, f, i, left)) == all
      decreases MAX_OPEN_ORDERS - i
    {
      CancelAllSteps(e.State(), p, f, i, left);
      CountedIs(lots, CancelAllFrom(e.State(), p, f, i, left));
      e.MarketIs();
      if p !in e.accounts || |e.accounts[p].slots| != MAX_OPEN_ORDERS {
        return Err(AccountMissing);
      }
      var oo := e.accounts[p].slots[i];
      if f.Takes(oo) {
        if left == 0 {
          return Ok(lots);
        }
        TakenIsInUse(f, oo);
        IdIsInRange(e.State().accounts, p, i);
        CancelKeepsIds(e.State(), p, oo.side, oo.comp, oo.id);
        BookIsOneOfTwo(e, oo.side);
        var cancelled := CancelAtHandler(e, p, oo.side, oo.comp, oo.id);
        if cancelled.Ok? {
          CountedMore(lots, cancelled.value, CancelAllFrom(e.State(), p, f, i + 1, left - 1));
          lots := lots + cancelled.value;
        } else if cancelled.error != OrderIdNotFound {
          return Err(cancelled.error);
        }
        left := left - 1;
      }
      i := i + 1;
    }
    CancelAllSteps(e.State(), p, f, i, left);
    CountedIs(lots, CancelAllFrom(e.State(), p, f, i, left));
    return Ok(lots);
  }

  lemma CountedIs(lots: int, r: Result<(Exchange, int)>)
    ensures Counted(lots, r) == if r.Err? then Err(r.error) else Ok((r.value.0, lots + r.value.1))
  {
  }

  lemma CountedMore(lots: int, more: int, r: Result<(Exchange, int)>)
    ensures Counted(lots, if r.Err? then Err(r.error) else Ok((r.value.0, more + r.value.1))) == Counted(lots + more, r)
    ensures Counted(0, r) == r
  {
  }

  lemma IdIsInRange(accounts: map<Pubkey, Account>, p: Pubkey, s: nat)
    requires IdsInRange(accounts) && p in accounts && s < |accounts[p].slots| && !accounts[p].slots[s].isFree
    ensures accounts[p].slots[s].id < KEY_SIZE
  {
    assert InUse(accounts, p, s);
  }

  lemma BookIsOneOfTwo(e: Engine, side: Side)
    ensures e.Book(side) == e.bids || e.Book(side) == e.asks
  {
  }

  /** `edit_order`: what is missing of the lots expected under a client id is placed anew. */
  method EditOrderHandler(e: Engine, env: Env, wallet: Wallet, clientId: nat, expectedCancelSize: int, o: Order, limit: nat)
      returns (r: Result<Option<nat>>)
    requires e.Valid() && CanTrade(e.State()) && IdsInRange(e.State().accounts)
    modifies e`market, e`accounts, e.heap, e.heap.nodes, e.bids, e.bids.nodes, e.asks, e.asks.nodes
    ensures e.Valid()
    ensures match EditOrder(old(e.State()), env, wallet, clientId, expectedCancelSize, o, limit)
            case Ok(ex) => r.Ok? && e.State() == ex
            case Err(err) => r == Err(err)
  {
    hide *;
    ghost var was := e.State();
    EditIs(was, env, wallet, clientId, expectedCancelSize, o, limit);
    e.MarketIs();
    if expectedCancelSize < 0 {
      return Err(InvalidInputCancelSize);
    }
    if !env.hasAccount || env.owner !in e.accounts {
      return Err(AccountMissing);
    }
    var cancelled := CancelAllHandler(e, env.owner, Filter(None, Some(clientId)), U8_MAX);
    if cancelled.Err? {
      return Err(cancelled.error);
    }
    CancelAllCanTrade(was, env.owner, Filter(None, Some(clientId)), 0, U8_MAX);
    var filledAmount := expectedCancelSize - cancelled.value;
    if filledAmount > 0 && o.maxBaseLots > filledAmount {
      r := PlaceOrderHandler(e, env, wallet, o.(maxBaseLots := o.maxBaseLots - filledAmount), limit);
      return;
    }
    return Ok(None);
  }

  /** `cancel_order`. */
  method CancelOrderHandler(e: Engine, p: Pubkey, id: nat) returns (error: Option<Error>)
    requires e.Valid() && IdsInRange(e.State().accounts)
    modifies e`accounts, e.bids, e.bids.nodes, e.asks, e.asks.nodes
    ensures e.Valid()
    ensures match CancelOrderById(old(e.State()), p, id)
            case Ok(ex) => error == None && e.State() == ex
            case Err(err) => error == Some(err)
  {
    e.MarketIs();
    hide BookSide.Valid, BookSide.Model, EventHeap.Valid, EventHeap.Model, CancelAt, FindSlot, Engine.Valid, Engine.State, IdsInRange;
    if id == 0 {
      return Some(InvalidInputOrderId);
    }
    if p !in e.accounts {
      return Some(AccountMissing);
    }
    var s := FindSlot(e.accounts[p].slots, id);
    if s.None? {
      return Some(OpenOrdersOrderNotFound);
    }
    var oo := e.accounts[p].slots[s.value];
    IdIsInRange(e.State().accounts, p, s.value);
    BookIsOneOfTwo(e, oo.side);
    var r := CancelAtHandler(e, p, oo.side, oo.comp, oo.id);
    error := if r.Err? then Some(r.error) else None;
  }

  // ---------- several orders at once ----------

  lemma GoodFacts(e: Engine, claims: map<ClaimId, Claim>, dq: int, db: int)
    requires e.Valid() && Good(e.State(), claims, dq, db)
    ensures CanTrade(e.State()) && e.market.config.Ok() && e.market.seqNum >= 0
    ensures e.State().market.config.Ok() && e.State().market.seqNum >= 0
    ensures forall side: Side :: BookOk(e.State().orders.Book(side)) && BookOk(e.Book(side).Model())
  {
  }

  /** The keys that the slots hold are 128 bits wide in every reachable state. */
  lemma GoodIds(ex: Exchange, claims: map<ClaimId, Claim>)
    requires Good(ex, claims, 0, 0)
    ensures IdsInRange(ex.accounts)
  {
  }

  lemma EachNext(b: Batch, env: Env, wallet: Wallet, orders: seq<Order>, i: nat, limit: nat)
    requires i < |orders|
    ensures orders[i..] != [] && orders[i..][0] == orders[i] && orders[i..][1..] == orders[i + 1..]
    ensures |orders[|orders|..]| == 0 && orders[0..] == orders
  {
  }

  lemma EachEnds(b: Batch, env: Env, wallet: Wallet, orders: seq<Order>, limit: nat)
    requires orders == []
    ensures PlaceEach(b, env, wallet, orders, limit) == Ok(b)
  {
  }

  lemma BatchOf(b: Batch, p: Placed, side: Side)
    ensures NextBatch(b, p, side) == Batch(p.ex, b.quote + OwnQuote(p, side), b.base + OwnBase(p, side))
  {
  }

  /** One order of the batch, limited to what is still available. */
  method PlaceNext(e: Engine, env: Env, wallet: Wallet, o: Order, limit: nat, quote: int, base: int,
                   ghost claims: map<ClaimId, Claim>, ghost orders: seq<Order>)
      returns (r: Result<Receipt>, quote': int, base': int, ghost claims': map<ClaimId, Claim>)
    requires e.Valid() && Good(e.State(), claims, quote, base) && Covered(Batch(e.State(), quote, base), env, wallet)
    requires orders != [] && orders[0] == o
    modifies e`market, e`accounts, e.heap, e.heap.nodes, e.bids, e.bids.nodes, e.asks, e.asks.nodes
    ensures e.Valid()
    ensures var all := PlaceEach(Batch(old(e.State()), quote, base), env, wallet, orders, limit);
            if r.Err? then all == Err(r.error)
            else
              && Good(e.State(), claims', quote', base') && Covered(Batch(e.State(), quote', base'), env, wallet)
              && all == PlaceEach(Batch(e.State(), quote', base'), env, wallet, orders[1..], limit)
  {
    hide *;
    ghost var was, b := e.State(), Batch(e.State(), quote, base);
    quote', base', claims' := quote, base, claims;
    GoodFacts(e, claims, quote, base);
    CoveredIs(b, env, wallet);
    CoveredAmounts(b, env, wallet);
    EachIs(b, env, wallet, orders, limit);
    e.MarketIs();
    if o.maxQuoteLotsIncludingFees < 0 {
      return Err(InvalidInputLots), quote, base, claims;
    }
    if o.params.PeggedOrder? {
      return Err(InvalidInputOrderType), quote, base, claims;
    }
    var position := e.accounts[env.owner].position;
    var availableQuote, availableBase := wallet.quote + position.quoteFree - quote, wallet.base + position.baseFree - base;
    AffordableIsOk(e.market.config, o, availableQuote, availableBase);
    var o' := Affordable(e.market.config, o, availableQuote, availableBase);
    claims' := OneMoreCovered(b, claims, env, wallet, o', limit);
    var placed := e.NewOrder(env, o', limit);
    if placed.Err? {
      return Err(placed.error), quote, base, claims;
    }
    ghost var p := Exchanges.NewOrder(was, env, o', limit).value;
    ReceiptCosts(p, o.side);
    BatchOf(b, p, o.side);
    match o.side {
      case Bid =>
        quote' := quote + (placed.value.takenQuote + placed.value.postedQuote + placed.value.takerFees + placed.value.makerFees);
      case Ask =>
        base' := base + (placed.value.takenBase + placed.value.postedBase);
    }
    r := placed;
  }

  /** `cancel_all_and_place_orders`. */
  method CancelAllAndPlaceHandler(e: Engine, env: Env, wallet: Wallet, cancel: bool, orders: seq<Order>, limit: nat,
                                  ghost claims: map<ClaimId, Claim>)
      returns (r: Result<seq<Option<nat>>>)
    requires e.Valid() && Good(e.State(), claims, 0, 0)
    requires env.hasAccount && env.owner in e.accounts && env.owner in e.State().accounts
    modifies e`market, e`accounts, e.heap, e.heap.nodes, e.bids, e.bids.nodes, e.asks, e.asks.nodes
    ensures e.Valid()
    ensures match CancelAllAndPlaceOrders(old(e.State()), env, wallet, cancel, orders, limit)
            case Ok(ex) => r.Ok? && |r.value| == |orders| && e.State() == ex
            case Err(err) => r == Err(err)
  {
    hide *;
    ghost var was, claims' := e.State(), claims;
    GoodIds(was, claims);
    PenaltyIs(e);
    var sizeBefore := e.heap.Len();
    BatchIs(was, env, wallet, cancel, orders, limit);
    ghost var ex1 := was;
    if cancel {
      claims' := CancelAllKeeps(was, claims, env.owner, Filter(None, None), 0, U8_MAX);
      ex1 := CancelAllFrom(was, env.owner, Filter(None, None), 0, U8_MAX).value.0;
      SameConfig(was, ex1);
      var cancelled := CancelAllHandler(e, env.owner, Filter(None, None), U8_MAX);
      assert env.owner in ex1.accounts.Keys;
    }
    NothingCommitted(ex1, claims', env, wallet);
    var quoteAmount, baseAmount, ids: seq<Option<nat>> := 0, 0, [];
    ghost var all := PlaceEach(Batch(ex1, 0, 0), env, wallet, orders, limit);
    assert orders[0..] == orders;
    for i := 0 to |orders|
      invariant e.Valid() && |ids| == i
      invariant Good(e.State(), claims', quoteAmount, baseAmount) && Covered(Batch(e.State(), quoteAmount, baseAmount), env, wallet)
      invariant all == PlaceEach(Batch(e.State(), quoteAmount, baseAmount), env, wallet, orders[i..], limit)
    {
      EachNext(Batch(e.State(), quoteAmount, baseAmount), env, wallet, orders, i, limit);
      var placed;
      placed, quoteAmount, baseAmount, claims' :=
        PlaceNext(e, env, wallet, orders[i], limit, quoteAmount, baseAmount, claims', orders[i..]);
      if placed.Err? {
        return Err(placed.error);
      }
      ids := ids + [placed.value.orderId];
    }
    EachEnds(Batch(e.State(), quoteAmount, baseAmount), env, wallet, orders[|orders|..], limit);
    CoveredAmounts(Batch(e.State(), quoteAmount, baseAmount), env, wallet);
    e.MarketIs();
    PenaltyIs(e);
    GrewIs(was, e.State());
    PaidIs(wallet, e.State(), env.owner, quoteAmount, baseAmount, HeapGrew(was, e.State()));
    var error := ChargeAccount(e, wallet, env.owner, quoteAmount, baseAmount, e.heap.Len() > sizeBefore);
    return Ok(ids);
  }

  // ---------- funds ----------

  /** `settle_funds`. */
  method SettleFundsHandler(e: Engine, owner: Pubkey, hasReferrer: bool) returns (r: Result<Payout>)
    requires e.Valid()
    modifies e`market, e`accounts
    ensures e.Valid()
    ensures match SettleFunds(old(e.State()), owner, hasReferrer)
            case Ok((ex, paid)) => r == Ok(paid) && e.State() == ex
            case Err(err) => r == Err(err)
  {
    hide BookSide.Valid, BookSide.Model, EventHeap.Valid, EventHeap.Model;
    if owner !in e.accounts {
      return Err(AccountMissing);
    }
    var a := e.accounts[owner];
    var pa, roundoff := a.position, 0;
    if e.market.config.makerFee > 0 && pa.bidsBaseLots == 0 {
      roundoff := pa.lockedMakerFees;
      pa := pa.(lockedMakerFees := 0);
    }
    var rebate := pa.referrerRebates + roundoff;
    if hasReferrer {
      e.market := e.market.(quoteDepositTotal := e.market.quoteDepositTotal - rebate);
    } else {
      e.market := e.market.(feesAvailable := e.market.feesAvailable + rebate);
    }
    e.market := e.market.(baseDepositTotal := e.market.baseDepositTotal - pa.baseFree,
                          quoteDepositTotal := e.market.quoteDepositTotal - pa.quoteFree,
                          referrerRebatesAccrued := e.market.referrerRebatesAccrued - pa.referrerRebates);
    pa := pa.(penaltyHeapCount := 0);
    r := Ok(Payout(pa.baseFree, pa.quoteFree, if hasReferrer then rebate else 0));
    pa := pa.(baseFree := 0, quoteFree := 0, referrerRebates := 0);
    e.accounts := e.accounts[owner := a.(position := pa)];
  }

  /** `deposit`. */
  method DepositHandler(e: Engine, owner: Pubkey, base: nat, quote: nat) returns (error: Option<Error>)
    requires e.Valid()
    modifies e`market, e`accounts
    ensures e.Valid()
    ensures match Deposit(old(e.State()), owner, base, quote)
            case Ok(ex) => error == None && e.State() == ex
            case Err(err) => error == Some(err)
  {
    hide BookSide.Valid, BookSide.Model, EventHeap.Valid, EventHeap.Model;
    if owner !in e.accounts {
      return Some(AccountMissing);
    }
    var a := e.accounts[owner];
    var position := a.position.(baseFree := a.position.baseFree + base, quoteFree := a.position.quoteFree + quote);
    e.accounts := e.accounts[owner := a.(position := position)];
    e.market := e.market.(baseDepositTotal := e.market.baseDepositTotal + base,
                          quoteDepositTotal := e.market.quoteDepositTotal + quote);
    return None;
  }

  /** `refill`. */
  method RefillHandler(e: Engine, owner: Pubkey, base: nat, quote: nat) returns (error: Option<Error>)
    requires e.Valid()
    modifies e`market, e`accounts
    ensures e.Valid()
    ensures match Refill(old(e.State()), owner, base, quote)
            case Ok(ex) => error == None && e.State() == ex
            case Err(err) => error == Some(err)
  {
    hide BookSide.Valid, BookSide.Model, EventHeap.Valid, EventHeap.Model, Deposit;
    if owner !in e.accounts {
      return Some(AccountMissing);
    }
    var p := e.accounts[owner].position;
    error := DepositHandler(e, owner, base - Min(base, p.baseFree), quote - Min(quote, p.quoteFree));
  }

  /** `sweep_fees`. */
  method SweepFeesHandler(e: Engine) returns (amount: int)
    requires e.Valid()
    modifies e`market
    ensures e.Valid() && (e.State(), amount) == SweepFees(old(e.State()))
  {
    hide BookSide.Valid, BookSide.Model, EventHeap.Valid, EventHeap.Model;
    amount := e.market.feesAvailable;
    e.market := e.market.(feesAvailable := 0, quoteDepositTotal := e.market.quoteDepositTotal - amount);
  }

  // ---------- accounts ----------

  /** `create_open_orders_account`. */
  method OpenAccountHandler(e: Engine, p: Pubkey) returns (error: Option<Error>)
    requires e.Valid()
    modifies e`accounts
    ensures e.Valid()
    ensures match OpenAccount(old(e.State()), p)
            case Ok(ex) => error == None && e.State() == ex
            case Err(err) => error == Some(err)
  {
    hide BookSide.Valid, BookSide.Model, EventHeap.Valid, EventHeap.Model;
    if p in e.accounts {
      return Some(SomeError);
    }
    e.accounts := e.accounts[p := NewAccount];
    return None;
  }

  /** `close_open_orders_account`. */
  method CloseAccountHandler(e: Engine, p: Pubkey) returns (error: Option<Error>)
    requires e.Valid()
    modifies e`accounts
    ensures e.Valid()
    ensures match CloseAccount(old(e.State()), p)
            case Ok(ex) => error == None && e.State() == ex
            case Err(err) => error == Some(err)
  {
    hide BookSide.Valid, BookSide.Model, EventHeap.Valid, EventHeap.Model;
    if p !in e.accounts {
      return Some(AccountMissing);
    }
    if !e.accounts[p].position.IsEmpty() {
      return Some(NonEmptyOpenOrdersPosition);
    }
    e.accounts := e.accounts - {p};
    return None;
  }

  // ---------- events ----------

  lemma PickNext(heap: HeapModel, candidates: seq<nat>, i: nat, picked: seq<nat>, limit: nat)
    requires i < |candidates| && |picked| < limit
    ensures var slot := candidates[i];
            Pick(heap, candidates[i..], picked, limit) ==
            if slot >= |heap.order| + |heap.free| then Err(BadSlotIndex)
            else if slot !in heap.pending || slot in picked then Pick(heap, candidates[i + 1..], picked, limit)
            else Pick(heap, candidates[i + 1..], picked + [slot], limit)
  {
    assert candidates[i..][0] == candidates[i] && candidates[i..][1..] == candidates[i + 1..];
  }

  lemma PickEnds(heap: HeapModel, candidates: seq<nat>, picked: seq<nat>, limit: nat)
    requires candidates == [] || |picked| >= limit
    ensures Pick(heap, candidates, picked, limit) == Ok(picked)
  {
  }

  lemma HeapSize(h: EventHeap)
    requires h.Valid()
    ensures h.nodes.Length == |h.Model().order| + |h.Model().free|
  {
  }

  /** Chooses the slots to consume. */
  method PickSlots(h: EventHeap, slots: seq<nat>, limit: nat) returns (r: Result<seq<nat>>)
    requires h.Valid()
    ensures r == Pick(h.Model(), slots + h.Model().order, [], limit)
  {
    HeapSize(h);
    var order := h.Slots();
    hide EventHeap.Valid, EventHeap.Model, Pick;
    var candidates := slots + order;
    var picked: seq<nat>, i := [], 0;
    assert candidates[0..] == candidates;
    while i < |candidates| && |picked| < limit
      invariant 0 <= i <= |candidates|
      invariant Pick(h.Model(), candidates[i..], picked, limit) == Pick(h.Model(), slots + h.Model().order, [], limit)
      decreases |candidates| - i
    {
      PickNext(h.Model(), candidates, i, picked, limit);
      var slot := candidates[i];
      if slot >= h.nodes.Length {
        return Err(BadSlotIndex);
      }
      if h.AtSlot(slot).Some? && slot !in picked {
        picked := picked + [slot];
      }
      i := i + 1;
    }
    PickEnds(h.Model(), candidates[i..], picked, limit);
    return Ok(picked);
  }

  lemma ConsumeNext(ex: Exchange, remaining: set<Pubkey>, slots: seq<nat>, i: nat)
    requires i < |slots|
    ensures ConsumeSlots(ex, remaining, slots[i..]) ==
            if slots[i] !in ex.orders.heap.pending then Err(SomeError)
            else
              var r := ConsumeSlot(ex, remaining, slots[i]);
              if r.Err? then Err(r.error) else ConsumeSlots(r.value, remaining, slots[i + 1..])
  {
    assert slots[i..][0] == slots[i] && slots[i..][1..] == slots[i + 1..];
  }

  lemma ConsumeEnds(ex: Exchange, remaining: set<Pubkey>, slots: seq<nat>)
    requires slots == []
    ensures ConsumeSlots(ex, remaining, slots) == Ok(ex)
  {
  }

  /** Handles one event if its account was passed along. */
  method ConsumeOne(e: Engine, remaining: set<Pubkey>, slot: nat) returns (error: Option<Error>)
    requires e.Valid() && slot in e.State().orders.heap.pending
    modifies e`market, e`accounts, e.heap, e.heap.nodes
    ensures e.Valid()
    ensures match ConsumeSlot(old(e.State()), remaining, slot)
            case Ok(ex) => error == None && e.State() == ex
            case Err(err) => error == Some(err)
  {
    hide BookSide.Valid, BookSide.Model, EventHeap.Valid, EventHeap.Model, HandleFill, CancelFor;
    var event := e.heap.AtSlot(slot).value;
    if event.For() !in remaining {
      return None;
    }
    if event.Fill? {
      error := e.CreditMaker(event);
    } else {
      error := e.CancelIn(event.owner, event.ownerSlot, event.quantity);
    }
    if error.Some? {
      return;
    }
    var deleted := e.heap.DeleteSlot(slot);
  }

  /** `consume_events`. */
  method ConsumeEventsHandler(e: Engine, remaining: set<Pubkey>, limit: nat, slots: seq<nat>) returns (error: Option<Error>)
    requires e.Valid()
    modifies e`market, e`accounts, e.heap, e.heap.nodes
    ensures e.Valid()
    ensures match ConsumeEvents(old(e.State()), remaining, limit, slots)
            case Ok(ex) => error == None && e.State() == ex
            case Err(err) => error == Some(err)
  {
    hide BookSide.Valid, BookSide.Model, EventHeap.Valid, EventHeap.Model, ConsumeSlots, ConsumeSlot, Pick;
    var picked := PickSlots(e.heap, slots, Min(limit, MAX_EVENTS_CONSUME));
    if picked.Err? {
      return Some(picked.error);
    }
    assert picked.value[0..] == picked.value;
    for i := 0 to |picked.value|
      invariant e.Valid()
      invariant ConsumeSlots(e.State(), remaining, picked.value[i..]) == ConsumeSlots(old(e.State()), remaining, picked.value)
    {
      ConsumeNext(e.State(), remaining, picked.value, i);
      if e.heap.AtSlot(picked.value[i]).None? {
        return Some(SomeError);
      }
      error := ConsumeOne(e, remaining, picked.value[i]);
      if error.Some? {
        return;
      }
    }
    ConsumeEnds(e.State(), remaining, picked.value[|picked.value|..]);
    return None;
  }
}
