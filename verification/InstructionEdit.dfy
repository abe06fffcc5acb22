/** Editing an order and refilling an account. */
module InstructionEdits {
  import opened Types
  import opened Markets
  import opened Accounts
  import opened Ledgers
  import opened BookSideModels
  import opened Exchanges
  import opened ExchangeInvariants
  import opened Instructions
  import opened InstructionFunds
  import opened InstructionOrders

  // ---------- what cancelling takes from the position ----------

  /** The lots of an account's orders, by its position. */
  function OwnLots(ex: Exchange, p: Pubkey): int
    requires p in ex.accounts
  {
    ex.accounts[p].position.bidsBaseLots + ex.accounts[p].position.asksBaseLots
  }

  lemma CancelTakesLots(ex: Exchange, p: Pubkey, side: Side, comp: Component, id: nat)
    requires p in ex.accounts
    ensures var r := CancelAt(ex, p, side, comp, id);
            r.Ok? ==> p in r.value.0.accounts && OwnLots(r.value.0, p) == OwnLots(ex, p) - r.value.1
  {
    var r := CancelAt(ex, p, side, comp, id);
    if r.Ok? {
      var leaf := ex.orders.Book(side).Get(comp)[id];
      CancelledFor(ex.Without(side, comp, id), p, leaf.ownerSlot, leaf.quantity);
      RemovedLots(ex.market.config, ex.accounts[p], leaf.ownerSlot, leaf.quantity);
    }
    hide Exchange.Without, CancelFor, CancelOrder;
  }

  lemma CancelledFor(ex: Exchange, p: Pubkey, slot: nat, quantity: int)
    ensures var r := CancelFor(ex, p, slot, quantity);
            r.Ok? ==> p in ex.accounts && slot < |ex.accounts[p].slots|
                      && r.value == ex.WithAccount(p, CancelOrder(ex.market.config, ex.accounts[p], slot, quantity))
  {
    hide CancelOrder;
  }

  lemma RemovedLots(c: Config, a: Account, slot: nat, quantity: int)
    requires slot < |a.slots|
    ensures var b := CancelOrder(c, a, slot, quantity).position;
            b.bidsBaseLots + b.asksBaseLots == a.position.bidsBaseLots + a.position.asksBaseLots - quantity
  {
    hide MakerFeesCeil;
  }

  /** The lots that are counted as cancelled are those that the position loses. */
  lemma {:induction false} CountedLots(ex: Exchange, p: Pubkey, f: Filter, i: nat, limit: nat)
    requires p in ex.accounts && i <= MAX_OPEN_ORDERS
    ensures var r := CancelAllFrom(ex, p, f, i, limit);
            r.Ok? ==> p in r.value.0.accounts && OwnLots(r.value.0, p) == OwnLots(ex, p) - r.value.1
    decreases MAX_OPEN_ORDERS - i
  {
    hide *;
    CancelAllSteps(ex, p, f, i, limit);
    if i < MAX_OPEN_ORDERS && |ex.accounts[p].slots| == MAX_OPEN_ORDERS {
      var oo := ex.accounts[p].slots[i];
      if !f.Takes(oo) {
        CountedLots(ex, p, f, i + 1, limit);
      } else if limit > 0 {
        CancelTakesLots(ex, p, oo.side, oo.comp, oo.id);
        var r := CancelAt(ex, p, oo.side, oo.comp, oo.id);
        CountedLots(if r.Ok? then r.value.0 else ex, p, f, i + 1, limit - 1);
      }
    }
  }

  // ---------- editing ----------

  lemma EditIs(ex: Exchange, env: Env, wallet: Wallet, clientId: nat, expected: int, o: Order, limit: nat)
    ensures var r, c := EditOrder(ex, env, wallet, clientId, expected, o, limit),
                        CancelAllFrom(ex, env.owner, Filter(None, Some(clientId)), 0, U8_MAX);
            && (expected < 0 ==> r == Err(InvalidInputCancelSize))
            && (expected >= 0 && (!env.hasAccount || env.owner !in ex.accounts) ==> r == Err(AccountMissing))
            && (expected >= 0 && env.hasAccount && env.owner in ex.accounts && c.Err? ==> r == Err(c.error))
            && (expected >= 0 && env.hasAccount && env.owner in ex.accounts && c.Ok? ==>
                  var filled := expected - c.value.1;
                  && (filled <= 0 || o.maxBaseLots <= filled ==> r == Ok(c.value.0))
                  && (0 < filled < o.maxBaseLots && CanTrade(c.value.0) ==>
                        r == PlaceOrder(c.value.0, env, wallet, o.(maxBaseLots := o.maxBaseLots - filled), limit)))
  {
    hide CancelAllFrom, PlaceOrder, CanTrade;
  }

  /** Orders that leave the books leave a market to trade on. */
  lemma CancelledCanTrade(ex: Exchange, p: Pubkey, side: Side, comp: Component, id: nat)
    requires CanTrade(ex)
    ensures var r := CancelAt(ex, p, side, comp, id); r.Ok? ==> CanTrade(r.value.0)
  {
    BookRemove(ex.orders.Book(side), comp, id);
    hide BookOk, CancelOrder, BookSideModel.Remove, Config.Ok;
  }

  lemma {:induction false} CancelAllCanTrade(ex: Exchange, p: Pubkey, f: Filter, i: nat, limit: nat)
    requires i <= MAX_OPEN_ORDERS && CanTrade(ex)
    ensures var r := CancelAllFrom(ex, p, f, i, limit); r.Ok? ==> CanTrade(r.value.0)
    decreases MAX_OPEN_ORDERS - i
  {
    hide *;
    CancelAllSteps(ex, p, f, i, limit);
    if i < MAX_OPEN_ORDERS && p in ex.accounts && |ex.accounts[p].slots| == MAX_OPEN_ORDERS {
      var oo := ex.accounts[p].slots[i];
      if !f.Takes(oo) {
        CancelAllCanTrade(ex, p, f, i + 1, limit);
      } else if limit > 0 {
        CancelledCanTrade(ex, p, oo.side, oo.comp, oo.id);
        var r := CancelAt(ex, p, oo.side, oo.comp, oo.id);
        CancelAllCanTrade(if r.Ok? then r.value.0 else ex, p, f, i + 1, limit - 1);
      }
    }
  }

  /** Editing keeps the invariant; it is refused when a negative size is expected, and without an account. */
  lemma EditKeeps(ex: Exchange, claims: map<ClaimId, Claim>, env: Env, wallet: Wallet, clientId: nat, expected: int, o: Order,
                  limit: nat)
      returns (claims': map<ClaimId, Claim>)
    requires Good(ex, claims, 0, 0)
    ensures var r := EditOrder(ex, env, wallet, clientId, expected, o, limit);
            && (expected < 0 ==> r == Err(InvalidInputCancelSize))
            && (r.Ok? ==> env.hasAccount && env.owner in ex.accounts && Good(r.value, claims', 0, 0))
  {
    hide *;
    claims' := claims;
    EditIs(ex, env, wallet, clientId, expected, o, limit);
    if expected >= 0 && env.hasAccount && env.owner in ex.accounts {
      claims' := CancelAllKeeps(ex, claims, env.owner, Filter(None, Some(clientId)), 0, U8_MAX);
      var (ex1, lots) := CancelAllFrom(ex, env.owner, Filter(None, Some(clientId)), 0, U8_MAX).value;
      var filled := expected - lots;
      if 0 < filled < o.maxBaseLots {
        GoodCanTrade(ex1, claims', 0, 0);
        claims' := PlaceOrderKeeps(ex1, claims', env, wallet, o.(maxBaseLots := o.maxBaseLots - filled), limit);
      }
    }
  }

  /** An edit places an order exactly when fewer lots are taken off the account's position than expected, and not too few for the
      new order; the new order is for fewer lots by just as many. Otherwise the edit only cancels: an order of which nothing was
      filled is not replaced. */
  lemma EditPlacesExactlyWhen(ex: Exchange, claims: map<ClaimId, Claim>, env: Env, wallet: Wallet, clientId: nat, expected: int,
                              o: Order, limit: nat)
    requires Good(ex, claims, 0, 0) && expected >= 0 && env.hasAccount && env.owner in ex.accounts
    ensures var r := EditOrder(ex, env, wallet, clientId, expected, o, limit);
            var c := CancelAllFrom(ex, env.owner, Filter(None, Some(clientId)), 0, U8_MAX);
            && c.Ok? && env.owner in c.value.0.accounts
            && var filled := expected - (OwnLots(ex, env.owner) - OwnLots(c.value.0, env.owner));
               && (filled <= 0 || o.maxBaseLots <= filled ==> r == Ok(c.value.0))
               && (0 < filled < o.maxBaseLots ==>
                     && CanTrade(c.value.0)
                     && r == PlaceOrder(c.value.0, env, wallet, o.(maxBaseLots := o.maxBaseLots - filled), limit))
  {
    hide *;
    EditIs(ex, env, wallet, clientId, expected, o, limit);
    CountedLots(ex, env.owner, Filter(None, Some(clientId)), 0, U8_MAX);
    var claims' := CancelAllKeeps(ex, claims, env.owner, Filter(None, Some(clientId)), 0, U8_MAX);
    GoodCanTrade(CancelAllFrom(ex, env.owner, Filter(None, Some(clientId)), 0, U8_MAX).value.0, claims', 0, 0);
  }

  // ---------- refilling ----------

  /** Afterwards the account has the amounts asked for, or what it had if that was more; the vaults get the difference. */
  lemma RefillKeeps(ex: Exchange, claims: map<ClaimId, Claim>, p: Pubkey, base: nat, quote: nat)
    requires Good(ex, claims, 0, 0)
    ensures var r := Refill(ex, p, base, quote);
            && (r.Ok? <==> p in ex.accounts)
            && (r.Ok? ==>
                  && Good(r.value, claims, 0, 0) && p in r.value.accounts
                  && var (was, now) := (ex.accounts[p].position, r.value.accounts[p].position);
                     && now.baseFree == Max(base, was.baseFree) && now.quoteFree == Max(quote, was.quoteFree)
                     && r.value.market.baseDepositTotal - ex.market.baseDepositTotal == now.baseFree - was.baseFree
                     && r.value.market.quoteDepositTotal - ex.market.quoteDepositTotal == now.quoteFree - was.quoteFree)
  {
    hide Good;
    if p in ex.accounts {
      var a := ex.accounts[p].position;
      DepositKeeps(ex, claims, p, DepositFor(base, a.baseFree), DepositFor(quote, a.quoteFree));
    }
  }
}
