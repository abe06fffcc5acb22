/** What the instructions that place orders do as a whole: which orders are placed, for how much, and who pays what. */
module InstructionOutcomes {
  import opened Types
  import opened Markets
  import opened Ledgers
  import opened Matching
  import opened Exchanges
  import opened ExchangeInvariants
  import opened ExchangeActions
  import opened ExchangeNewOrder
  import opened Instructions
  import opened InstructionFunds
  import opened InstructionOrders
  import opened InstructionBatch
  import opened CancelOutcomes
  import opened OrderOutcomes

  /** What an account pays for an order: a bid the quote that it takes and posts with all fees, an ask the base. */
  function QuoteCost(p: Placed, side: Side): int {
    if side.Ask? then 0 else p.takenQuote + p.takerFees + p.postedQuote + p.makerFees
  }

  function BaseCost(p: Placed, side: Side): int { if side.Bid? then 0 else p.takenBase + p.postedBase }

  predicate MoreEvents(ex: Exchange, ex': Exchange) { |ex'.orders.heap.order| > |ex.orders.heap.order| }

  // ---------- one order ----------

  /** What the account has free and what the user holds pay for the order. */
  ghost predicate IsCovered(env: Env, wallet: Wallet, side: Side, p: Placed) {
    && env.owner in p.ex.accounts
    && QuoteCost(p, side) <= p.ex.accounts[env.owner].position.quoteFree + wallet.quote
    && BaseCost(p, side) <= p.ex.accounts[env.owner].position.baseFree + wallet.base
  }

  /** The cost of the order is charged to the account, free funds first; more events on the heap cost a penalty. */
  ghost predicate IsCharge(ex: Exchange, env: Env, side: Side, p: Placed, ex': Exchange) {
    env.owner in p.ex.accounts
    && FreeFundsFirst(p.ex, env.owner, QuoteCost(p, side), BaseCost(p, side), MoreEvents(ex, p.ex), ex')
  }

  /** Placing succeeds if and only if there is an account, the order is accepted and its cost is covered; then that is
      charged. */
  lemma PlaceOrderExactlyWhen(ex: Exchange, claims: map<ClaimId, Claim>, env: Env, wallet: Wallet, o: Order, limit: nat)
    requires Good(ex, claims, 0, 0) && (env.hasAccount <==> env.owner in ex.accounts) && CanTrade(ex)
    ensures var r := PlaceOrder(ex, env, wallet, o, limit);
            && (r.Ok? <==>
                  env.hasAccount && Succeeds(ex, env, o, limit) && IsCovered(env, wallet, o.side, Outcome(ex, env, o, limit)))
            && (r.Ok? ==> IsCharge(ex, env, o.side, Outcome(ex, env, o, limit), r.value))
  {
    hide *;
    GoodCanTrade(ex, claims, 0, 0);
    PlaceOrderSteps(ex, env, wallet, o, limit);
    RefusedIs(o);
    if env.hasAccount && Refused(o).None? {
      NotRefused(o);
      SignerHasAccount(ex, env);
      var claims' := NewOrderKeeps(ex, claims, env, o, limit, 0, 0);
      var placed := NewOrder(ex, env, o, limit);
      SucceedsIs(ex, env, o, limit);
      if placed.Ok? {
        LeavesOk(placed, ex, claims', env, o.side, 0, 0);
        assert env.owner in placed.value.ex.accounts.Keys;
        OwnCharge(placed.value, env, o.side);
        ChargedRightly(ex, claims', env, wallet, o.side, placed.value);
      }
    } else if Refused(o).Some? {
      RefusedFails(ex, env, o, limit);
    }
  }

  lemma RefusedIs(o: Order)
    ensures Refused(o).None? <==> OrderOk(o)
  {
  }

  lemma RefusedFails(ex: Exchange, env: Env, o: Order, limit: nat)
    requires !OrderOk(o)
    ensures !Succeeds(ex, env, o, limit)
  {
  }

  lemma SucceedsIs(ex: Exchange, env: Env, o: Order, limit: nat)
    requires ex.market.config.Ok() && ex.market.seqNum >= 0 && BookOk(ex.orders.Book(o.side.Invert()))
    requires OrderOk(o) && (PegLimit(o) == -1 || PegLimit(o) >= 1)
    ensures Succeeds(ex, env, o, limit) <==> NewOrder(ex, env, o, limit).Ok?
    ensures Succeeds(ex, env, o, limit) ==> NewOrder(ex, env, o, limit).value == Outcome(ex, env, o, limit)
  {
    hide NewOrder, BookOk, Config.Ok, PegLimit;
  }

  /** The charge, once the order is placed. */
  lemma ChargedRightly(ex: Exchange, claims: map<ClaimId, Claim>, env: Env, wallet: Wallet, side: Side, p: Placed)
    requires Good(p.ex, claims, OwnQuote(p, side), OwnBase(p, side)) && env.owner in p.ex.accounts
    requires OwnQuote(p, side) >= 0 && OwnBase(p, side) >= 0
    ensures var r := PaidFrom(wallet, p.ex, env.owner, OwnQuote(p, side), OwnBase(p, side), HeapGrew(ex, p.ex));
            && (r.Ok? <==> IsCovered(env, wallet, side, p))
            && (r.Ok? ==> IsCharge(ex, env, side, p, r.value))
  {
    hide *;
    var quote, base, penalty := OwnQuote(p, side), OwnBase(p, side), HeapGrew(ex, p.ex);
    PaidIs(wallet, p.ex, env.owner, quote, base, penalty);
    ChargeKeeps(p.ex, claims, env.owner, quote, base, penalty);
    OwnCost(p, side);
    GrewIs(ex, p.ex);
    DepositNeeded(quote, p.ex.accounts[env.owner].position.quoteFree, wallet.quote);
    DepositNeeded(base, p.ex.accounts[env.owner].position.baseFree, wallet.base);
    CostIsCovered(env, wallet, side, p);
    if PaidFrom(wallet, p.ex, env.owner, quote, base, penalty).Ok? {
      MakeCharge(ex, env, side, p, Charge(p.ex, env.owner, quote, base, penalty));
    }
  }

  lemma OwnCost(p: Placed, side: Side)
    ensures OwnQuote(p, side) == QuoteCost(p, side) && OwnBase(p, side) == BaseCost(p, side)
  {
  }

  lemma GrewIs(ex: Exchange, ex': Exchange)
    ensures HeapGrew(ex, ex') <==> MoreEvents(ex, ex')
  {
  }

  lemma DepositNeeded(amount: int, free: int, held: nat)
    ensures DepositFor(amount, free) <= held <==> amount <= free + held
  {
  }

  lemma CostIsCovered(env: Env, wallet: Wallet, side: Side, p: Placed)
    requires env.owner in p.ex.accounts
    ensures IsCovered(env, wallet, side, p) <==>
              && QuoteCost(p, side) <= p.ex.accounts[env.owner].position.quoteFree + wallet.quote
              && BaseCost(p, side) <= p.ex.accounts[env.owner].position.baseFree + wallet.base
  {
    hide QuoteCost, BaseCost;
  }

  lemma MakeCharge(ex: Exchange, env: Env, side: Side, p: Placed, ex': Exchange)
    requires env.owner in p.ex.accounts
    requires FreeFundsFirst(p.ex, env.owner, QuoteCost(p, side), BaseCost(p, side), MoreEvents(ex, p.ex), ex')
    ensures IsCharge(ex, env, side, p, ex')
  {
    hide FreeFundsFirst, QuoteCost, BaseCost, MoreEvents;
  }

  // ---------- without an account ----------

  /** The user pays for what it takes, with the makers' rebates and no other fee; no account takes part, and nobody gets a
      referrer's share. */
  ghost predicate IsPaidAtOnce(ex: Exchange, side: Side, p: Placed, ex': Exchange) {
    var (rebates, m, m') := (p.takerFees - p.referrerAmount, p.ex.market, ex'.market);
    && ex' == p.ex.(market := m.(quoteDepositTotal := m'.quoteDepositTotal, baseDepositTotal := m'.baseDepositTotal))
    && (side.Bid? ==>
          && m'.quoteDepositTotal == m.quoteDepositTotal + p.takenQuote + rebates
          && m'.baseDepositTotal == m.baseDepositTotal - p.takenBase)
    && (side.Ask? ==>
          && m'.quoteDepositTotal == m.quoteDepositTotal - p.takenQuote + rebates
          && m'.baseDepositTotal == m.baseDepositTotal + p.takenBase)
  }

  /** Taking without an account succeeds if and only if the order is of a kind that does not rest, is accepted, and the user
      holds what it costs. */
  lemma TakeOrderExactlyWhen(ex: Exchange, claims: map<ClaimId, Claim>, env: Env, wallet: Wallet, o: Order, limit: nat)
    requires Good(ex, claims, 0, 0) && (env.hasAccount <==> env.owner in ex.accounts) && CanTrade(ex)
    ensures var r := PlaceTakeOrder(ex, env, wallet, o, limit);
            && (r.Ok? <==>
                  && !env.hasAccount && !o.params.FixedOrder? && !o.params.PeggedOrder? && Succeeds(ex, env, o, limit)
                  && var p := Outcome(ex, env, o, limit);
                     if o.side.Bid? then p.takenQuote + (p.takerFees - p.referrerAmount) <= wallet.quote
                     else p.takenBase <= wallet.base)
            && (r.Ok? ==> IsPaidAtOnce(ex, o.side, Outcome(ex, env, o, limit), r.value))
  {
    hide *;
    GoodCanTrade(ex, claims, 0, 0);
    TakeOrderSteps(ex, env, wallet, o, limit);
    RefusedIs(o);
    RestsNowhere(o);
    if Refused(o).Some? {
      RefusedFails(ex, env, o, limit);
    } else {
      NotRefused(o);
      SucceedsIs(ex, env, o, limit);
      if PlaceTakeOrder(ex, env, wallet, o, limit).Ok? {
        PaidAtOnce(ex, o.side, NewOrder(ex, env, o, limit).value, PlaceTakeOrder(ex, env, wallet, o, limit).value);
      }
    }
  }

  lemma RestsNowhere(o: Order)
    ensures PostTarget(o).None? <==> !o.params.FixedOrder? && !o.params.PeggedOrder?
  {
  }

  lemma PaidAtOnce(ex: Exchange, side: Side, p: Placed, ex': Exchange)
    requires var rebates := p.takerFees - p.referrerAmount;
             ex' == if side.Bid? then MovedTotals(p.ex, p.takenQuote + rebates, -p.takenBase)
                    else MovedTotals(p.ex, -(p.takenQuote - rebates), p.takenBase)
    ensures IsPaidAtOnce(ex, side, p, ex')
  {
  }

  // ---------- several orders ----------

  /** As many lots as an amount pays for, but no more than were asked for and than can be represented. */
  predicate IsLots(lots: int, asked: int, amount: int, lotSize: int) {
    && lots <= asked && lots * lotSize <= amount && lots * lotSize <= 0x7FFF_FFFF_FFFF_FFFF
    && (lots == asked || amount < (lots + 1) * lotSize || 0x7FFF_FFFF_FFFF_FFFF < (lots + 1) * lotSize)
  }

  /** An order of the batch as it is placed: a bid for as much quote as its owner has left, an ask for all base that it has
      left. */
  predicate IsPlacedFor(c: Config, o: Order, quote: int, base: int, o': Order) {
    && o' == o.(maxBaseLots := o'.maxBaseLots, maxQuoteLotsIncludingFees := o'.maxQuoteLotsIncludingFees)
    && (o.side.Bid? ==>
          && IsLots(o'.maxQuoteLotsIncludingFees, o.maxQuoteLotsIncludingFees, quote, c.quoteLotSize)
          && o'.maxBaseLots * c.baseLotSize <= 0x7FFF_FFFF_FFFF_FFFF < (o'.maxBaseLots + 1) * c.baseLotSize)
    && (o.side.Ask? ==>
          && o'.maxQuoteLotsIncludingFees == o.maxQuoteLotsIncludingFees
          && o'.maxBaseLots * c.baseLotSize <= base && o'.maxBaseLots * c.baseLotSize <= 0x7FFF_FFFF_FFFF_FFFF
          && (base < (o'.maxBaseLots + 1) * c.baseLotSize || 0x7FFF_FFFF_FFFF_FFFF < (o'.maxBaseLots + 1) * c.baseLotSize))
  }

  /** The order is placed for what the account has free and the user holds, less what is committed so far. */
  ghost predicate IsPlacedNext(b: Batch, env: Env, wallet: Wallet, first: Order, limit: nat, o: Order)
    ensures IsPlacedNext(b, env, wallet, first, limit, o) ==> Succeeds(b.ex, env, o, limit)
  {
    && env.owner in b.ex.accounts && Succeeds(b.ex, env, o, limit)
    && var p := b.ex.accounts[env.owner].position;
       IsPlacedFor(b.ex.market.config, first, wallet.quote + p.quoteFree - b.quote, wallet.base + p.baseFree - b.base, o)
  }

  /** What it costs is committed. */
  ghost function Committed(b: Batch, env: Env, o: Order, limit: nat): Batch
    requires Succeeds(b.ex, env, o, limit)
  {
    var placed := Outcome(b.ex, env, o, limit);
    Batch(placed.ex, b.quote + QuoteCost(placed, o.side), b.base + BaseCost(placed, o.side))
  }

  /** Every order of the batch is placed in turn. */
  ghost predicate InTurn(b: Batch, env: Env, wallet: Wallet, orders: seq<Order>, limit: nat, b': Batch)
    decreases |orders|
  {
    if orders == [] then b' == b
    else exists o :: IsPlacedNext(b, env, wallet, orders[0], limit, o)
                     && InTurn(Committed(b, env, o, limit), env, wallet, orders[1..], limit, b')
  }

  lemma DivisionFits(a: int, b: int)
    requires b >= 1
    ensures a / b * b <= a < (a / b + 1) * b
  {
  }

  lemma LotsAre(asked: int, amount: int, lotSize: int)
    requires lotSize >= 1
    ensures IsLots(Min(asked, LotsFrom(amount, lotSize, I64_MAX / lotSize)), asked, amount, lotSize)
  {
    var n, m := amount / lotSize, I64_MAX / lotSize;
    DivisionFits(amount, lotSize);
    DivisionFits(I64_MAX, lotSize);
    LeastLots(asked, n, m, amount, I64_MAX, lotSize);
  }

  lemma LeastLots(asked: int, n: int, m: int, amount: int, max: int, lotSize: int)
    requires lotSize >= 1 && n * lotSize <= amount < (n + 1) * lotSize && m * lotSize <= max < (m + 1) * lotSize
    ensures var lots := Min(asked, Min(m, n));
            && lots <= asked && lots * lotSize <= amount && lots * lotSize <= max
            && (lots == asked || amount < (lots + 1) * lotSize || max < (lots + 1) * lotSize)
  {
    var lots := Min(asked, Min(m, n));
    MulOrder(lots, n, lotSize);
    MulOrder(lots, m, lotSize);
  }

  lemma AffordableIs(c: Config, o: Order, quote: int, base: int)
    requires c.Ok()
    ensures IsPlacedFor(c, o, quote, base, Affordable(c, o, quote, base))
  {
    LotSizesAre(c);
    LotsAre(o.maxQuoteLotsIncludingFees, quote, c.quoteLotSize);
    LotsAre(I64_MAX / c.baseLotSize, base, c.baseLotSize);
    DivisionFits(I64_MAX, c.baseLotSize);
    BaseLotsAre(I64_MAX / c.baseLotSize, base, c.baseLotSize);
    AffordableTerms(c, o, quote, base);
    hide Affordable, LotsFrom, IsLots;
  }

  lemma LotSizesAre(c: Config)
    requires c.Ok()
    ensures c.baseLotSize >= 1 && c.quoteLotSize >= 1
    ensures MaxBaseLots(c) == I64_MAX / c.baseLotSize && MaxQuoteLots(c) == I64_MAX / c.quoteLotSize
  {
  }

  lemma AffordableTerms(c: Config, o: Order, quote: int, base: int)
    requires c.Ok() && c.baseLotSize >= 1 && c.quoteLotSize >= 1
    ensures var o' := Affordable(c, o, quote, base);
            && (o.side.Ask? ==> o' == o.(maxBaseLots := Min(MaxBaseLots(c), LotsFrom(base, c.baseLotSize, MaxBaseLots(c)))))
            && (o.side.Bid? ==> o' == o.(maxBaseLots := MaxBaseLots(c), maxQuoteLotsIncludingFees :=
                                           Min(o.maxQuoteLotsIncludingFees, LotsFrom(quote, c.quoteLotSize, MaxQuoteLots(c)))))
  {
    hide LotsFrom, MaxBaseLots, MaxQuoteLots;
  }

  /** When as many lots are asked for as can be represented, only the amount and that limit count. */
  lemma BaseLotsAre(max: int, amount: int, lotSize: int)
    requires lotSize >= 1 && I64_MAX < (max + 1) * lotSize
    ensures var lots := Min(max, LotsFrom(amount, lotSize, max));
            IsLots(lots, max, amount, lotSize) ==>
              && lots * lotSize <= amount && lots * lotSize <= I64_MAX
              && (amount < (lots + 1) * lotSize || I64_MAX < (lots + 1) * lotSize)
  {
    hide LotsFrom;
  }

  lemma {:induction false} PlaceEachInTurn(b: Batch, claims: map<ClaimId, Claim>, env: Env, wallet: Wallet, orders: seq<Order>,
                                           limit: nat)
    requires Good(b.ex, claims, b.quote, b.base) && Covered(b, env, wallet)
    ensures var r := PlaceEach(b, env, wallet, orders, limit); r.Ok? ==> InTurn(b, env, wallet, orders, limit, r.value)
    decreases |orders|
  {
    hide *;
    CoveredAmounts(b, env, wallet);
    GoodCanTrade(b.ex, claims, b.quote, b.base);
    var r := PlaceEach(b, env, wallet, orders, limit);
    if orders == [] {
      NoOrdersLeft(b, env, wallet, limit);
      NoneInTurn(b, env, wallet, limit);
    } else if r.Ok? {
      EachIs(b, env, wallet, orders, limit);
      var o, p := orders[0], b.ex.accounts[env.owner].position;
      var quote, base := wallet.quote + p.quoteFree - b.quote, wallet.base + p.baseFree - b.base;
      AffordableIsOk(b.ex.market.config, o, quote, base);
      AffordableIs(b.ex.market.config, o, quote, base);
      var o' := Affordable(b.ex.market.config, o, quote, base);
      var claims' := OneMoreCovered(b, claims, env, wallet, o', limit);
      SucceedsIs(b.ex, env, o', limit);
      var placed := Outcome(b.ex, env, o', limit);
      NextIs(b, env, o', limit, placed);
      MakePlacedNext(b, env, wallet, o, limit, o');
      PlaceEachInTurn(NextBatch(b, placed, o.side), claims', env, wallet, orders[1..], limit);
      OneInTurn(b, env, wallet, orders, limit, o', r.value);
    }
  }

  lemma NoneInTurn(b: Batch, env: Env, wallet: Wallet, limit: nat)
    ensures InTurn(b, env, wallet, [], limit, b)
  {
  }

  lemma NextIs(b: Batch, env: Env, o: Order, limit: nat, placed: Placed)
    requires Succeeds(b.ex, env, o, limit) && placed == Outcome(b.ex, env, o, limit)
    ensures NextBatch(b, placed, o.side) == Committed(b, env, o, limit)
  {
    hide Succeeds, Outcome;
  }

  lemma OneInTurn(b: Batch, env: Env, wallet: Wallet, orders: seq<Order>, limit: nat, o: Order, b': Batch)
    requires orders != [] && IsPlacedNext(b, env, wallet, orders[0], limit, o)
    requires InTurn(Committed(b, env, o, limit), env, wallet, orders[1..], limit, b')
    ensures InTurn(b, env, wallet, orders, limit, b')
  {
    hide Succeeds, IsPlacedNext, Committed;
  }

  lemma MakePlacedNext(b: Batch, env: Env, wallet: Wallet, first: Order, limit: nat, o: Order)
    requires env.owner in b.ex.accounts && Succeeds(b.ex, env, o, limit)
    requires var p := b.ex.accounts[env.owner].position;
             IsPlacedFor(b.ex.market.config, first, wallet.quote + p.quoteFree - b.quote, wallet.base + p.baseFree - b.base, o)
    ensures IsPlacedNext(b, env, wallet, first, limit, o)
  {
    hide Succeeds, IsPlacedFor, NewOrder, BookOk, Config.Ok, PegLimit;
  }

  /** The batch cancels the account's orders, if it is to, places all of its orders in turn, and charges what they cost
      together. */
  lemma BatchPlacesInTurn(ex: Exchange, claims: map<ClaimId, Claim>, env: Env, wallet: Wallet, cancel: bool, orders: seq<Order>,
                          limit: nat)
    requires Good(ex, claims, 0, 0) && env.hasAccount && env.owner in ex.accounts
    ensures var r := CancelAllAndPlaceOrders(ex, env, wallet, cancel, orders, limit);
            r.Ok? ==> exists ex1, b ::
              && (if cancel then ChosenLeave(ex, env.owner, Filter(None, None), 0, 255, ex1) else ex1 == ex)
              && InTurn(Batch(ex1, 0, 0), env, wallet, orders, limit, b) && env.owner in b.ex.accounts
              && FreeFundsFirst(b.ex, env.owner, b.quote, b.base, MoreEvents(ex, b.ex), r.value)
  {
    hide *;
    BatchIs(ex, env, wallet, cancel, orders, limit);
    SameFrameReflexive(ex);
    CancelLimit();
    var claims' := claims;
    if cancel {
      CancelAllTakes(ex, claims, env.owner, Filter(None, None), 0, U8_MAX);
      claims' := CancelAllKeeps(ex, claims, env.owner, Filter(None, None), 0, U8_MAX);
    }
    var ex1 := if cancel then CancelAllFrom(ex, env.owner, Filter(None, None), 0, U8_MAX).value.0 else ex;
    SameConfig(ex, ex1);
    assert env.owner in ex1.accounts.Keys;
    NothingCommitted(ex1, claims', env, wallet);
    PlaceEachInTurn(Batch(ex1, 0, 0), claims', env, wallet, orders, limit);
    claims' := EachKeeps(Batch(ex1, 0, 0), claims', env, wallet, orders, limit);
    var b := PlaceEach(Batch(ex1, 0, 0), env, wallet, orders, limit);
    if b.Ok? {
      CoveredAmounts(b.value, env, wallet);
      ChargeKeeps(b.value.ex, claims', env.owner, b.value.quote, b.value.base, HeapGrew(ex, b.value.ex));
      GrewIs(ex, b.value.ex);
    }
  }

  lemma CancelLimit()
    ensures U8_MAX == 255
  {
  }
}
