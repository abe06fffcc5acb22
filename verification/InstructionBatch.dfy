/** Several orders in one instruction: what is committed never exceeds what the owner has. */
module InstructionBatch {
  import opened Types
  import opened Markets
  import opened Ledgers
  import opened Matching
  import opened Exchanges
  import opened ExchangeInvariants
  import opened ExchangeSteps
  import opened ExchangeActions
  import opened ExchangeNewOrder
  import opened ExchangeSpending
  import opened Instructions
  import opened InstructionFunds
  import opened InstructionOrders

  /** What was committed so far is covered by the wallet and the account's free funds. */
  ghost predicate Covered(b: Batch, env: Env, wallet: Wallet) {
    && env.hasAccount && env.owner in b.ex.accounts
    && 0 <= b.quote <= wallet.quote + b.ex.accounts[env.owner].position.quoteFree
    && 0 <= b.base <= wallet.base + b.ex.accounts[env.owner].position.baseFree
  }

  /** Lots that an amount is good for do not cost more than the amount. */
  lemma LotsFit(amount: int, lotSize: int, max: int, lots: int)
    requires amount >= 0 && lotSize >= 1 && max >= 0 && lots <= LotsFrom(amount, lotSize, max)
    ensures lots * lotSize <= amount && LotsFrom(amount, lotSize, max) >= 0
  {
    MulOrder(lots, amount / lotSize, lotSize);
  }

  lemma AffordableIsOk(c: Config, o: Order, availableQuote: int, availableBase: int)
    requires c.Ok() && o.maxQuoteLotsIncludingFees >= 0 && !o.params.PeggedOrder?
    requires (o.side.Bid? ==> availableQuote >= 0) && (o.side.Ask? ==> availableBase >= 0)
    ensures var o' := Affordable(c, o, availableQuote, availableBase);
            && OrderOk(o') && PegLimit(o') == -1 && o'.side == o.side
            && (o.side.Bid? ==> o'.maxQuoteLotsIncludingFees * c.quoteLotSize <= availableQuote)
            && (o.side.Ask? ==> o'.maxBaseLots * c.baseLotSize <= availableBase)
  {
    var o' := Affordable(c, o, availableQuote, availableBase);
    hide LotsFrom;
    assert MaxBaseLots(c) >= 0 && MaxQuoteLots(c) >= 0;
    if o.side.Bid? { LotsFit(availableQuote, c.quoteLotSize, MaxQuoteLots(c), o'.maxQuoteLotsIncludingFees); }
    if o.side.Ask? { LotsFit(availableBase, c.baseLotSize, MaxBaseLots(c), o'.maxBaseLots); }
  }

  /** One order of the batch. */
  function NextBatch(b: Batch, placed: Placed, side: Side): Batch {
    Batch(placed.ex, b.quote + OwnQuote(placed, side), b.base + OwnBase(placed, side))
  }

  lemma EachIs(b: Batch, env: Env, wallet: Wallet, orders: seq<Order>, limit: nat)
    requires CanTrade(b.ex) && env.owner in b.ex.accounts && orders != []
    ensures var r, o, p := PlaceEach(b, env, wallet, orders, limit), orders[0], b.ex.accounts[env.owner].position;
            var availableQuote, availableBase := wallet.quote + p.quoteFree - b.quote, wallet.base + p.baseFree - b.base;
            && b.ex.market.config.Ok()
            && (o.maxQuoteLotsIncludingFees >= 0 && !o.params.PeggedOrder?
                && (o.side.Bid? ==> availableQuote >= 0) && (o.side.Ask? ==> availableBase >= 0) ==>
                  var o' := Affordable(b.ex.market.config, o, availableQuote, availableBase);
                  && o'.side == o.side && (PegLimit(o') == -1 || PegLimit(o') >= 1)
                  && b.ex.market.seqNum >= 0 && BookOk(b.ex.orders.Book(o'.side.Invert()))
                  && var placed := NewOrder(b.ex, env, o', limit);
                     r == if placed.Err? then Err(placed.error)
                          else PlaceEach(NextBatch(b, placed.value, o.side), env, wallet, orders[1..], limit))
            && (o.maxQuoteLotsIncludingFees < 0 ==> r == Err(InvalidInputLots))
            && (o.maxQuoteLotsIncludingFees >= 0 && o.params.PeggedOrder? ==> r == Err(InvalidInputOrderType))
  {
    hide NewOrder, OwnQuote, OwnBase, MaxBaseLots, MaxQuoteLots, LotsFrom, BookOk;
  }

  /** After one more order what is committed is still covered: the order costs no more than what is left, and free funds
      do not get less. */
  lemma OneMoreCovered(b: Batch, claims: map<ClaimId, Claim>, env: Env, wallet: Wallet, o: Order, limit: nat)
      returns (claims': map<ClaimId, Claim>)
    requires Good(b.ex, claims, b.quote, b.base) && Covered(b, env, wallet) && OrderOk(o)
    requires b.ex.market.config.Ok() && b.ex.market.seqNum >= 0 && BookOk(b.ex.orders.Book(o.side.Invert()))
    requires PegLimit(o) == -1 || PegLimit(o) >= 1
    requires var p, c := b.ex.accounts[env.owner].position, b.ex.market.config;
             && (o.side.Bid? ==> o.maxQuoteLotsIncludingFees * c.quoteLotSize <= wallet.quote + p.quoteFree - b.quote)
             && (o.side.Ask? ==> o.maxBaseLots * c.baseLotSize <= wallet.base + p.baseFree - b.base)
    ensures var placed := NewOrder(b.ex, env, o, limit);
            && (placed.Err? ==> OrderError(placed.error))
            && (placed.Ok? ==>
                  var b' := NextBatch(b, placed.value, o.side);
                  Good(b'.ex, claims', b'.quote, b'.base) && Covered(b', env, wallet))
  {
    hide *;
    CoveredIs(b, env, wallet);
    SignerHasAccount(b.ex, env);
    claims' := NewOrderKeeps(b.ex, claims, env, o, limit, b.quote, b.base);
    var placed := NewOrder(b.ex, env, o, limit);
    if placed.Ok? {
      LeavesOk(placed, b.ex, claims', env, o.side, b.quote, b.base);
      OwnCharge(placed.value, env, o.side);
      OrderSpends(b.ex, env, o, limit);
      StillCovered(b, env, wallet, o, placed.value);
    } else {
      LeavesErr(placed, b.ex, claims', env, o.side, b.quote, b.base);
    }
  }

  lemma LeavesErr(r: Result<Placed>, ex: Exchange, claims': map<ClaimId, Claim>, env: Env, side: Side, dq: int, db: int)
    requires OrderLeaves(r, ex, claims', env, side, dq, db) && r.Err?
    ensures OrderError(r.error)
  {
  }

  lemma CoveredIs(b: Batch, env: Env, wallet: Wallet)
    requires Covered(b, env, wallet)
    ensures env.hasAccount && env.owner in b.ex.accounts
  {
  }

  lemma StillCovered(b: Batch, env: Env, wallet: Wallet, o: Order, placed: Placed)
    requires Covered(b, env, wallet) && FreeGrows(b.ex.accounts, placed.ex.accounts) && NotBelowZero(placed)
    requires var p, c := b.ex.accounts[env.owner].position, b.ex.market.config;
             && (o.side.Bid? ==> o.maxQuoteLotsIncludingFees * c.quoteLotSize <= wallet.quote + p.quoteFree - b.quote)
             && (o.side.Ask? ==> o.maxBaseLots * c.baseLotSize <= wallet.base + p.baseFree - b.base)
             && (o.side.Bid? ==>
                   placed.takenQuote + placed.takerFees + placed.postedQuote + placed.makerFees
                   <= o.maxQuoteLotsIncludingFees * c.quoteLotSize)
             && placed.takenBase + placed.postedBase <= o.maxBaseLots * c.baseLotSize
    ensures Covered(NextBatch(b, placed, o.side), env, wallet)
    ensures NextBatch(b, placed, o.side)
         == Batch(placed.ex, b.quote + OwnQuote(placed, o.side), b.base + OwnBase(placed, o.side))
  {
    assert AccountGrows(b.ex.accounts[env.owner], placed.ex.accounts[env.owner]);
  }

  predicate BatchError(e: Error) { e != Underflow && e != AccountMissing && e != InsufficientFunds && e != AssertionFailed }

  lemma BatchErrors()
    ensures BatchError(InvalidInputLots) && BatchError(InvalidInputOrderType)
    ensures forall e :: OrderError(e) ==> BatchError(e)
  {
  }

  lemma {:induction false} EachKeeps(b: Batch, claims: map<ClaimId, Claim>, env: Env, wallet: Wallet, orders: seq<Order>, limit: nat)
      returns (claims': map<ClaimId, Claim>)
    requires Good(b.ex, claims, b.quote, b.base) && Covered(b, env, wallet)
    ensures var r := PlaceEach(b, env, wallet, orders, limit);
            && (r.Err? ==> BatchError(r.error))
            && (r.Ok? ==> Good(r.value.ex, claims', r.value.quote, r.value.base) && Covered(r.value, env, wallet))
    decreases |orders|
  {
    hide *;
    claims' := claims;
    BatchErrors();
    CoveredAmounts(b, env, wallet);
    GoodCanTrade(b.ex, claims, b.quote, b.base);
    if orders == [] {
      NoOrdersLeft(b, env, wallet, limit);
    } else {
      EachIs(b, env, wallet, orders, limit);
      var o, p := orders[0], b.ex.accounts[env.owner].position;
      if o.maxQuoteLotsIncludingFees >= 0 && !o.params.PeggedOrder? {
        var availableQuote, availableBase := wallet.quote + p.quoteFree - b.quote, wallet.base + p.baseFree - b.base;
        AffordableIsOk(b.ex.market.config, o, availableQuote, availableBase);
        var o' := Affordable(b.ex.market.config, o, availableQuote, availableBase);
        claims' := OneMoreCovered(b, claims, env, wallet, o', limit);
        var placed := NewOrder(b.ex, env, o', limit);
        if placed.Ok? {
          claims' := EachKeeps(NextBatch(b, placed.value, o.side), claims', env, wallet, orders[1..], limit);
        }
      }
    }
  }

  lemma NoOrdersLeft(b: Batch, env: Env, wallet: Wallet, limit: nat)
    ensures PlaceEach(b, env, wallet, [], limit) == Ok(b)
  {
  }

  lemma CoveredAmounts(b: Batch, env: Env, wallet: Wallet)
    requires Covered(b, env, wallet)
    ensures env.owner in b.ex.accounts
    ensures wallet.quote + b.ex.accounts[env.owner].position.quoteFree - b.quote >= 0 && b.quote >= 0
    ensures wallet.base + b.ex.accounts[env.owner].position.baseFree - b.base >= 0 && b.base >= 0
    ensures DepositFor(b.quote, b.ex.accounts[env.owner].position.quoteFree) <= wallet.quote
    ensures DepositFor(b.base, b.ex.accounts[env.owner].position.baseFree) <= wallet.base
  {
  }

  /** The batch keeps the invariant; its subtractions never go below zero, and its deposits never exceed the user's tokens. */
  lemma CancelAllAndPlaceKeeps(ex: Exchange, claims: map<ClaimId, Claim>, env: Env, wallet: Wallet, cancel: bool,
                               orders: seq<Order>, limit: nat)
      returns (claims': map<ClaimId, Claim>)
    requires Good(ex, claims, 0, 0) && env.hasAccount && env.owner in ex.accounts
    ensures var r := CancelAllAndPlaceOrders(ex, env, wallet, cancel, orders, limit);
            && (r.Err? ==> BatchError(r.error))
            && (r.Ok? ==> Good(r.value, claims', 0, 0))
  {
    hide *;
    claims' := claims;
    BatchIs(ex, env, wallet, cancel, orders, limit);
    SameFrameReflexive(ex);
    if cancel {
      claims' := CancelAllKeeps(ex, claims, env.owner, Filter(None, None), 0, U8_MAX);
    }
    var ex1 := if cancel then CancelAllFrom(ex, env.owner, Filter(None, None), 0, U8_MAX).value.0 else ex;
    SameConfig(ex, ex1);
    assert env.owner in ex1.accounts.Keys;
    NothingCommitted(ex1, claims', env, wallet);
    claims' := EachKeeps(Batch(ex1, 0, 0), claims', env, wallet, orders, limit);
    var b := PlaceEach(Batch(ex1, 0, 0), env, wallet, orders, limit);
    if b.Ok? {
      CoveredAmounts(b.value, env, wallet);
      ChargeKeeps(b.value.ex, claims', env.owner, b.value.quote, b.value.base, HeapGrew(ex, b.value.ex));
    }
  }

  lemma NothingCommitted(ex: Exchange, claims: map<ClaimId, Claim>, env: Env, wallet: Wallet)
    requires Good(ex, claims, 0, 0) && env.hasAccount && env.owner in ex.accounts
    ensures Covered(Batch(ex, 0, 0), env, wallet)
  {
    OwnerFacts(ex, claims, env.owner, 0, 0);
  }

  lemma BatchIs(ex: Exchange, env: Env, wallet: Wallet, cancel: bool, orders: seq<Order>, limit: nat)
    requires env.hasAccount && env.owner in ex.accounts
    ensures var r := CancelAllAndPlaceOrders(ex, env, wallet, cancel, orders, limit);
            var c := CancelAllFrom(ex, env.owner, Filter(None, None), 0, U8_MAX);
            !cancel || c.Ok? ==>
              var b := PlaceEach(Batch(if cancel then c.value.0 else ex, 0, 0), env, wallet, orders, limit);
              && (b.Err? ==> r == Err(b.error))
              && (b.Ok? && env.owner in b.value.ex.accounts ==>
                    var p := b.value.ex.accounts[env.owner].position;
                    DepositFor(b.value.quote, p.quoteFree) <= wallet.quote && DepositFor(b.value.base, p.baseFree) <= wallet.base ==>
                      r == Ok(Charge(b.value.ex, env.owner, b.value.quote, b.value.base, HeapGrew(ex, b.value.ex))))
  {
    hide PlaceEach, CancelAllFrom, Charge, DepositFor, HeapGrew;
  }
}
