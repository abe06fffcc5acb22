/** Placing and cancelling orders keeps the invariant. */
module InstructionOrders {
  import opened Types
  import opened Markets
  import opened Prices
  import opened Accounts
  import opened Ledgers
  import opened EventHeaps
  import opened Matching
  import opened Posting
  import opened Exchanges
  import opened ExchangeInvariants
  import opened ExchangeSteps
  import opened ExchangeActions
  import opened ExchangeNewOrder
  import opened ExchangeSpending
  import opened Instructions
  import opened InstructionFunds

  lemma GoodCanTrade(ex: Exchange, claims: map<ClaimId, Claim>, dq: int, db: int)
    requires Good(ex, claims, dq, db)
    ensures CanTrade(ex) && ex.market.config.Ok() && ex.market.seqNum >= 0
    ensures forall side: Side :: BookOk(ex.orders.Book(side))
  {
  }

  lemma NotRefused(o: Order)
    requires Refused(o).None?
    ensures OrderOk(o) && (PegLimit(o) == -1 || PegLimit(o) >= 1)
  {
  }

  lemma OwnCharge(p: Placed, env: Env, side: Side)
    requires env.hasAccount
    ensures ChargeQuote(p, env, side) == OwnQuote(p, side) && ChargeBase(p, env, side) == OwnBase(p, side)
    ensures NotBelowZero(p) ==> OwnQuote(p, side) >= 0 && OwnBase(p, side) >= 0
  {
  }

  lemma LeavesOk(r: Result<Placed>, ex: Exchange, claims': map<ClaimId, Claim>, env: Env, side: Side, dq: int, db: int)
    requires OrderLeaves(r, ex, claims', env, side, dq, db) && r.Ok?
    ensures Good(r.value.ex, claims', dq + ChargeQuote(r.value, env, side), db + ChargeBase(r.value, env, side))
    ensures OrderFrame(ex, r.value.ex) && NotBelowZero(r.value) && FreeGrows(ex.accounts, r.value.ex.accounts)
    ensures r.value.ex.accounts.Keys == ex.accounts.Keys && r.value.ex.market.config == ex.market.config
  {
  }

  /** Placing an order keeps the invariant: what the order costs is charged to the last unit. */
  lemma PlaceOrderKeeps(ex: Exchange, claims: map<ClaimId, Claim>, env: Env, wallet: Wallet, o: Order, limit: nat)
      returns (claims': map<ClaimId, Claim>)
    requires Good(ex, claims, 0, 0) && CanTrade(ex)
    ensures var r := PlaceOrder(ex, env, wallet, o, limit); r.Ok? ==> Good(r.value, claims', 0, 0)
  {
    hide *;
    claims' := claims;
    GoodCanTrade(ex, claims, 0, 0);
    var r := PlaceOrder(ex, env, wallet, o, limit);
    PlaceOrderSteps(ex, env, wallet, o, limit);
    if r.Ok? {
      NotRefused(o);
      SignerHasAccount(ex, env);
      claims' := NewOrderKeeps(ex, claims, env, o, limit, 0, 0);
      var placed := NewOrder(ex, env, o, limit);
      LeavesOk(placed, ex, claims', env, o.side, 0, 0);
      OwnCharge(placed.value, env, o.side);
      PaidIs(wallet, placed.value.ex, env.owner, OwnQuote(placed.value, o.side), OwnBase(placed.value, o.side),
             HeapGrew(ex, placed.value.ex));
      ChargeKeeps(placed.value.ex, claims', env.owner, OwnQuote(placed.value, o.side), OwnBase(placed.value, o.side),
                  HeapGrew(ex, placed.value.ex));
    }
  }

  lemma PaidIs(wallet: Wallet, ex: Exchange, owner: Pubkey, quote: int, base: int, penalty: bool)
    requires owner in ex.accounts
    ensures var p := ex.accounts[owner].position;
            PaidFrom(wallet, ex, owner, quote, base, penalty) ==
            if DepositFor(quote, p.quoteFree) <= wallet.quote && DepositFor(base, p.baseFree) <= wallet.base
            then Ok(Charge(ex, owner, quote, base, penalty)) else Err(InsufficientFunds)
  {
    hide Charge;
  }

  lemma SignerHasAccount(ex: Exchange, env: Env)
    requires env.hasAccount <==> env.owner in ex.accounts
    ensures SignerOk(ex, env)
  {
  }

  /** What `new_order` needs. */
  ghost predicate MayOrder(ex: Exchange, o: Order)
    ensures MayOrder(ex, o) ==> ex.market.config.Ok() && ex.market.seqNum >= 0 && BookOk(ex.orders.Book(o.side.Invert()))
                                && (PegLimit(o) == -1 || PegLimit(o) >= 1)
  {
    && ex.market.config.Ok() && ex.market.seqNum >= 0 && BookOk(ex.orders.Book(o.side.Invert()))
    && (PegLimit(o) == -1 || PegLimit(o) >= 1)
  }

  /** The stages of placing an order. */
  lemma PlaceOrderSteps(ex: Exchange, env: Env, wallet: Wallet, o: Order, limit: nat)
    requires CanTrade(ex)
    ensures var r := PlaceOrder(ex, env, wallet, o, limit);
            && (Refused(o).Some? ==> r == Err(Refused(o).value))
            && (Refused(o).None? && (!env.hasAccount || env.owner !in ex.accounts) ==> r == Err(AccountMissing))
            && (Refused(o).None? && env.hasAccount && env.owner in ex.accounts ==>
                  && MayOrder(ex, o)
                  && var placed := NewOrder(ex, env, o, limit);
                     && (placed.Err? ==> r == Err(placed.error))
                     && (placed.Ok? && env.owner !in placed.value.ex.accounts ==> r == Err(AccountMissing))
                     && (placed.Ok? && env.owner in placed.value.ex.accounts ==>
                           var p := placed.value;
                           r == PaidFrom(wallet, p.ex, env.owner, OwnQuote(p, o.side), OwnBase(p, o.side), HeapGrew(ex, p.ex))))
  {
    hide NewOrder, PaidFrom, OwnQuote, OwnBase, HeapGrew, BookOk;
  }

  /** Taking without an account keeps the invariant, and the vaults hold what is paid out. */
  lemma PlaceTakeOrderKeeps(ex: Exchange, claims: map<ClaimId, Claim>, env: Env, wallet: Wallet, o: Order, limit: nat)
      returns (claims': map<ClaimId, Claim>)
    requires Good(ex, claims, 0, 0) && CanTrade(ex)
    ensures var r := PlaceTakeOrder(ex, env, wallet, o, limit);
            r.Ok? ==> Good(r.value, claims', 0, 0) && r.value.market.quoteDepositTotal >= 0 && r.value.market.baseDepositTotal >= 0
  {
    hide *;
    claims' := claims;
    GoodCanTrade(ex, claims, 0, 0);
    var r := PlaceTakeOrder(ex, env, wallet, o, limit);
    TakeOrderSteps(ex, env, wallet, o, limit);
    if r.Ok? {
      NotRefused(o);
      SignerHasAccount(ex, env);
      NothingRests(ex, env, o, limit);
      claims' := NewOrderKeeps(ex, claims, env, o, limit, 0, 0);
      var placed := NewOrder(ex, env, o, limit);
      LeavesOk(placed, ex, claims', env, o.side, 0, 0);
      MovedIsDue(placed.value, env, o.side);
      VaultsPay(placed.value.ex, claims', ChargeQuote(placed.value, env, o.side), ChargeBase(placed.value, env, o.side));
    }
  }

  function MovedTotals(ex: Exchange, quote: int, base: int): Exchange {
    ex.(market := ex.market.(baseDepositTotal := ex.market.baseDepositTotal + base,
                             quoteDepositTotal := ex.market.quoteDepositTotal + quote))
  }

  /** The stages of taking without an account. */
  lemma TakeOrderSteps(ex: Exchange, env: Env, wallet: Wallet, o: Order, limit: nat)
    requires CanTrade(ex)
    ensures var r := PlaceTakeOrder(ex, env, wallet, o, limit);
            && (Refused(o).Some? ==> r == Err(Refused(o).value))
            && (Refused(o).None? && PostTarget(o).Some? ==> r == Err(InvalidInputOrderType))
            && (Refused(o).None? && PostTarget(o).None? && (env.hasAccount || env.owner in ex.accounts) ==> r == Err(AccountMissing))
            && (Refused(o).None? && PostTarget(o).None? && !env.hasAccount && env.owner !in ex.accounts ==>
                  && MayOrder(ex, o)
                  && var placed := NewOrder(ex, env, o, limit);
                     && (placed.Err? ==> r == Err(placed.error))
                     && (placed.Ok? ==>
                           var p := placed.value;
                           var rebates := p.takerFees - p.referrerAmount;
                           if o.side.Bid? then
                             r == if p.takenQuote + rebates > wallet.quote then Err(InsufficientFunds)
                                  else Ok(MovedTotals(p.ex, p.takenQuote + rebates, -p.takenBase))
                           else
                             r == if p.takenBase > wallet.base then Err(InsufficientFunds)
                                  else Ok(MovedTotals(p.ex, -(p.takenQuote - rebates), p.takenBase))))
  {
    hide NewOrder, BookOk;
  }

  /** What moves the totals is what is due. */
  lemma MovedIsDue(p: Placed, env: Env, side: Side)
    requires !env.hasAccount && p.postedBase == 0 && p.postedQuote == 0 && p.makerFees == 0
    ensures var quote, base := ChargeQuote(p, env, side), ChargeBase(p, env, side);
            && MovedTotals(p.ex, quote, base) == p.ex.(market := p.ex.market.(
                 quoteDepositTotal := p.ex.market.quoteDepositTotal + quote, baseDepositTotal := p.ex.market.baseDepositTotal + base))
            && (side.Bid? ==> quote == p.takenQuote + (p.takerFees - p.referrerAmount) && base == -p.takenBase)
            && (side.Ask? ==> quote == -(p.takenQuote - (p.takerFees - p.referrerAmount)) && base == p.takenBase)
  {
  }

  /** An order that has nowhere to be posted posts nothing. */
  lemma NothingRests(ex: Exchange, env: Env, o: Order, limit: nat)
    requires ex.market.config.Ok() && ex.market.seqNum >= 0 && BookOk(ex.orders.Book(o.side.Invert()))
    requires (PegLimit(o) == -1 || PegLimit(o) >= 1) && PostTarget(o).None? && OrderOk(o)
    ensures var r := NewOrder(ex, env, o, limit);
            r.Ok? ==> r.value.postedBase == 0 && r.value.postedQuote == 0 && r.value.makerFees == 0
  {
    hide BookOk, ItemsOf, OrderPrice, OrderAt, OrderMaxQuote, MaxBaseLots, MaxQuoteLots, Config.Ok, PegLimit, LockingPrice;
    var price := OrderPrice(o, env.oracle, ItemsOf(ex, o.side.Invert(), env.now, env.oracle));
    if NewOrder(ex, env, o, limit).Ok? {
      PriceFacts(o, env.oracle, ItemsOf(ex, o.side.Invert(), env.now, env.oracle));
      NothingRestsAt(ex, env, o, limit, price.value.0, price.value.1);
    }
  }

  lemma NothingRestsAt(ex: Exchange, env: Env, o: Order, limit: nat, priceLots: int, priceData: int)
    requires ex.market.config.Ok() && 0 <= ex.market.seqNum < U64_MAX && BookOk(ex.orders.Book(o.side.Invert()))
    requires LockingPrice(o, priceLots) >= 1 && IsU64(priceData) && PostTarget(o).None?
    ensures var r := OrderAt(ex, env, o, limit, priceLots, priceData);
            r.Ok? ==> r.value.postedBase == 0 && r.value.postedQuote == 0 && r.value.makerFees == 0
  {
    hide WalkOf, TakeOrder, PostQuantity, BookOk, LockingPrice, NewNodeKey;
    TakeOrderAmounts(ex, env, o, priceLots, WalkOf(ex, env, o, limit, priceLots));
  }

  // ---------- cancelling ----------

  /** The order that a slot names, if it is still on the book, is the one in that slot. */
  lemma OwnOrder(ex: Exchange, claims: map<ClaimId, Claim>, p: Pubkey, s: nat)
    requires Tally(ex.orders, claims) && Tagged(ex.accounts, claims) && SeqsOk(ex.accounts, ex.market.seqNum)
    requires InUse(ex.accounts, p, s)
    ensures var oo := ex.accounts[p].slots[s];
            oo.id in ex.orders.Book(oo.side).Get(oo.comp) ==>
              var leaf := ex.orders.Book(oo.side).Get(oo.comp)[oo.id];
              leaf.owner == p && leaf.ownerSlot == s
  {
    var oo := ex.accounts[p].slots[s];
    var i := OnBook(oo.side, oo.comp, oo.id);
    if oo.id in ex.orders.Book(oo.side).Get(oo.comp) {
      assert i in claims && Backed(ex.orders, i, claims[i]);
      assert TagOk(ex.accounts, i, claims[i]);
      assert InUse(ex.accounts, claims[i].owner, claims[i].slot);
      assert SlotSeqNum(ex.accounts, claims[i].owner, claims[i].slot) == SlotSeqNum(ex.accounts, p, s);
    }
  }

  /** Cancelling by slot fails only if the order is no longer on the book. Otherwise its owner gets back what it locked. */
  lemma CancelAtKeeps(ex: Exchange, claims: map<ClaimId, Claim>, p: Pubkey, s: nat)
      returns (claims': map<ClaimId, Claim>)
    requires Good(ex, claims, 0, 0) && InUse(ex.accounts, p, s)
    ensures var oo := ex.accounts[p].slots[s];
            var r := CancelAt(ex, p, oo.side, oo.comp, oo.id);
            && (r.Err? <==> oo.id !in ex.orders.Book(oo.side).Get(oo.comp)) && (r.Err? ==> r.error == OrderIdNotFound)
            && (r.Ok? ==> Good(r.value.0, claims', 0, 0) && SameFrame(ex, r.value.0)
                          && r.value.0.orders == ex.Without(oo.side, oo.comp, oo.id).orders)
  {
    hide *;
    claims' := claims;
    InUseIs(ex.accounts, p, s);
    var oo := ex.accounts[p].slots[s];
    GoodParts(ex, claims, 0, 0);
    OwnOrder(ex, claims, p, s);
    CancelAtIs(ex, p, oo.side, oo.comp, oo.id);
    if oo.id in ex.orders.Book(oo.side).Get(oo.comp) {
      CancelStep(ex, claims, oo.side, oo.comp, oo.id, 0, 0);
      claims' := claims - {OnBook(oo.side, oo.comp, oo.id)};
    }
  }

  lemma InUseIs(accounts: map<Pubkey, Account>, p: Pubkey, s: int)
    ensures InUse(accounts, p, s) <==> p in accounts && 0 <= s < |accounts[p].slots| && !accounts[p].slots[s].isFree
  {
  }

  lemma CancelAtIs(ex: Exchange, p: Pubkey, side: Side, comp: Component, id: nat)
    ensures var r := CancelAt(ex, p, side, comp, id);
            && (id !in ex.orders.Book(side).Get(comp) ==> r == Err(OrderIdNotFound))
            && (id in ex.orders.Book(side).Get(comp) ==>
                  var leaf := ex.orders.Book(side).Get(comp)[id];
                  var c := CancelFor(ex.Without(side, comp, id), leaf.owner, leaf.ownerSlot, leaf.quantity);
                  leaf.owner == p && c.Ok? ==> r == Ok((c.value, leaf.quantity)))
  {
  }

  lemma CancelByIdKeeps(ex: Exchange, claims: map<ClaimId, Claim>, p: Pubkey, id: nat) returns (claims': map<ClaimId, Claim>)
    requires Good(ex, claims, 0, 0)
    ensures var r := CancelOrderById(ex, p, id);
            && (r.Err? ==> r.error in {InvalidInputOrderId, AccountMissing, OpenOrdersOrderNotFound, OrderIdNotFound})
            && (r.Ok? ==> Good(r.value, claims', 0, 0))
  {
    claims' := claims;
    hide Good, CancelAt, SameFrame;
    if id != 0 && p in ex.accounts && FindSlot(ex.accounts[p].slots, id).Some? {
      var s := FindSlot(ex.accounts[p].slots, id).value;
      assert InUse(ex.accounts, p, s);
      claims' := CancelAtKeeps(ex, claims, p, s);
    }
  }

  lemma SlotCount(ex: Exchange, claims: map<ClaimId, Claim>, p: Pubkey, dq: int, db: int)
    requires Good(ex, claims, dq, db) && p in ex.accounts
    ensures |ex.accounts[p].slots| == MAX_OPEN_ORDERS
  {
    OwnerFacts(ex, claims, p, dq, db);
  }

  /** Cancelling all orders never fails and keeps the invariant. */
  lemma {:induction false} CancelAllKeeps(ex: Exchange, claims: map<ClaimId, Claim>, p: Pubkey, f: Filter, i: nat, limit: nat)
      returns (claims': map<ClaimId, Claim>)
    requires Good(ex, claims, 0, 0) && p in ex.accounts && i <= MAX_OPEN_ORDERS
    ensures var r := CancelAllFrom(ex, p, f, i, limit);
            r.Ok? && Good(r.value.0, claims', 0, 0) && SameFrame(ex, r.value.0)
    decreases MAX_OPEN_ORDERS - i
  {
    hide *;
    SameFrameReflexive(ex);
    SlotCount(ex, claims, p, 0, 0);
    claims' := claims;
    CancelAllSteps(ex, p, f, i, limit);
    if i < MAX_OPEN_ORDERS {
      var oo := ex.accounts[p].slots[i];
      if !f.Takes(oo) {
        claims' := CancelAllKeeps(ex, claims, p, f, i + 1, limit);
      } else if limit > 0 {
        TakenIsInUse(f, oo);
        InUseIs(ex.accounts, p, i);
        claims' := CancelAtKeeps(ex, claims, p, i);
        var r := CancelAt(ex, p, oo.side, oo.comp, oo.id);
        if r.Err? {
          claims' := CancelAllKeeps(ex, claims, p, f, i + 1, limit - 1);
        } else {
          SameConfig(ex, r.value.0);
          assert p in r.value.0.accounts.Keys;
          claims' := CancelAllKeeps(r.value.0, claims', p, f, i + 1, limit - 1);
          SameFrameTransitive(ex, r.value.0, CancelAllFrom(r.value.0, p, f, i + 1, limit - 1).value.0);
        }
      }
    }
  }

  lemma TakenIsInUse(f: Filter, oo: OpenOrder)
    ensures f.Takes(oo) ==> !oo.isFree
  {
  }

  /** The steps of the loop over the slots. */
  lemma CancelAllSteps(ex: Exchange, p: Pubkey, f: Filter, i: nat, limit: nat)
    requires i <= MAX_OPEN_ORDERS
    ensures var all := CancelAllFrom(ex, p, f, i, limit);
            && (i == MAX_OPEN_ORDERS ==> all == Ok((ex, 0)))
            && (i < MAX_OPEN_ORDERS ==>
                  if p !in ex.accounts || |ex.accounts[p].slots| != MAX_OPEN_ORDERS then all == Err(AccountMissing)
                  else
                    var oo := ex.accounts[p].slots[i];
                    if !f.Takes(oo) then all == CancelAllFrom(ex, p, f, i + 1, limit)
                    else if limit == 0 then all == Ok((ex, 0))
                    else
                      var r := CancelAt(ex, p, oo.side, oo.comp, oo.id);
                      all == if r == Err(OrderIdNotFound) then CancelAllFrom(ex, p, f, i + 1, limit - 1)
                             else if r.Err? then Err(r.error)
                             else
                               var rest := CancelAllFrom(r.value.0, p, f, i + 1, limit - 1);
                               if rest.Err? then Err(rest.error) else Ok((rest.value.0, r.value.1 + rest.value.1)))
  {
    hide CancelAt;
  }

}
