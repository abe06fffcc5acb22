/** The off-chain simulation of a take order, against the engine's own walk. */
module Simulator {
  import opened Types
  import opened Markets
  import opened Prices
  import opened Matching
  import opened MatchingLaws
  import opened Posting

  const MAXIMUM_TAKEN_ORDERS: nat := 45

  datatype Amounts = Amounts(totalBaseTakenNative: int, totalQuoteTakenNative: int, fee: int, notEnoughLiquidity: bool)

  /** The market order without an account that is simulated. */
  function SimulatedOrder(side: Side, maxBase: int, maxQuote: int): Order {
    Order(side, maxBase, maxQuote, 0, 0, DecrementTake, MarketOrder)
  }

  /** How the engine walks through the opposing items for that order. */
  function EngineWalk(c: Config, side: Side, maxBase: int, maxQuote: int, signer: Pubkey, items: seq<Item>): Walked
    requires c.Ok() && forall i :: 0 <= i < |items| ==> items[i].price >= 1
  {
    var o := SimulatedOrder(side, maxBase, maxQuote);
    Walk(TakerOf(o, signer, false, if side.Bid? then I64_MAX else 1), items, StartBudget(c, o, MAXIMUM_TAKEN_ORDERS))
  }

  /** What the engine takes and what it pays its makers in rebates. */
  function EngineAmounts(c: Config, side: Side, maxBase: int, maxQuote: int, signer: Pubkey, items: seq<Item>): (int, int, int)
    requires c.Ok() && forall i :: 0 <= i < |items| ==> items[i].price >= 1
  {
    var o := SimulatedOrder(side, maxBase, maxQuote);
    var t := TakerOf(o, signer, false, if side.Bid? then I64_MAX else 1);
    var actions := EngineWalk(c, side, maxBase, maxQuote, signer, items).actions;
    var fees := TakerFees(c, TakenQuote(actions), SelfQuote(t, actions));
    (TakenBase(actions) * c.baseLotSize, TakenQuote(actions) * c.quoteLotSize,
     fees - ReferrerAmount(c, TakenQuote(actions), SelfQuote(t, actions), RebatesOf(c, t, actions)))
  }

  /** Without an account nothing is a self trade, and fee less referrer amount is exactly what the makers get. */
  lemma FeeIsRebates(c: Config, t: Taker, items: seq<Item>, actions: seq<Action>)
    requires c.Ok() && !t.hasAccount && ItemsOk(items) && ActionsOk(t, items, actions)
    ensures SelfQuote(t, actions) == 0
    ensures TakerFees(c, TakenQuote(actions), 0) - ReferrerAmount(c, TakenQuote(actions), 0, RebatesOf(c, t, actions))
         == RebatesOf(c, t, actions)
  {
    NoSelfQuote(t, actions);
    TakerFeeCoversRebates(c, t, items, actions);
    FeeBounds(c, 0);
  }

  lemma {:induction false} NoSelfQuote(t: Taker, actions: seq<Action>)
    requires !t.hasAccount
    ensures SelfQuote(t, actions) == 0
  {
    if actions != [] { NoSelfQuote(t, actions[1..]); }
  }

  ghost predicate RepresentablePrices(items: seq<Item>) {
    forall i :: 0 <= i < |items| ==> 1 <= items[i].price <= I64_MAX
  }

  /** What a walk from budget `b` still takes. */
  function StillTaken(c: Config, t: Taker, items: seq<Item>, b: Budget): (int, int, int)
    requires forall i :: 0 <= i < |items| ==> items[i].price >= 1
  {
    var actions := Walk(t, items, b).actions;
    (TakenBase(actions), TakenQuote(actions), RebatesOf(c, t, actions))
  }

  /** Dropping an invalid order takes nothing, and neither does going on with nothing left to spend. */
  lemma SkipsInvalid(c: Config, t: Taker, items: seq<Item>, b: Budget)
    requires RepresentablePrices(items) && items != [] && !items[0].state.Valid?
    ensures StillTaken(c, t, items, b)
         == StillTaken(c, t, items[1..], if b.dropped < DROP_EXPIRED_ORDER_LIMIT then b.(dropped := b.dropped + 1) else b)
  {
    var b' := if b.dropped < DROP_EXPIRED_ORDER_LIMIT then b.(dropped := b.dropped + 1) else b;
    var tail := Walk(t, items[1..], b').actions;
    if b.base != 0 && b.quote != 0 && b.dropped < DROP_EXPIRED_ORDER_LIMIT {
      var actions := Walk(t, items, b).actions;
      assert actions == [Drop(items[0])] + tail && actions[1..] == tail;
    }
  }

  lemma TakesValid(c: Config, t: Taker, items: seq<Item>, b: Budget)
    requires ItemsOk(items) && RepresentablePrices(items) && items != [] && items[0].state.Valid?
    requires !t.hasAccount && !t.postOnly && t.priceLots == if t.side.Bid? then I64_MAX else 1
    ensures b.base == 0 || b.quote == 0 || b.limit == 0 || TruncDiv(b.quote, items[0].price) == 0 ==>
              StillTaken(c, t, items, b) == (0, 0, 0)
    ensures b.base != 0 && b.quote != 0 && b.limit != 0 && TruncDiv(b.quote, items[0].price) != 0 ==>
              var q, price := MatchQuantity(b, items[0]), items[0].price;
              var rest := StillTaken(c, t, items[1..], b.(base := b.base - q, quote := b.quote - q * price, limit := b.limit - 1));
              StillTaken(c, t, items, b) == (q + rest.0, q * price + rest.1, MakerRebateFloor(c, q * price * c.quoteLotSize) + rest.2)
  {
    if b.base != 0 && b.quote != 0 && b.limit != 0 && TruncDiv(b.quote, items[0].price) != 0 {
      var q := MatchQuantity(b, items[0]);
      var b' := b.(base := b.base - q, quote := b.quote - q * items[0].price, limit := b.limit - 1);
      var actions := Walk(t, items, b).actions;
      assert actions == [Match(items[0], q)] + Walk(t, items[1..], b').actions;
      assert actions[1..] == Walk(t, items[1..], b').actions;
    }
  }

  // ---------- the accounts to pass along ----------

  /** The owners whose events the engine deals with at once if their accounts are passed along: of every order dropped, and of the
      first orders matched. */
  function EventOwners(actions: seq<Action>, processed: nat): seq<Pubkey> {
    if actions == [] then []
    else
      var a, rest := actions[0], actions[1..];
      if a.Drop? then [a.item.leaf.owner] + EventOwners(rest, processed)
      else if a.Match? && processed < FILL_EVENT_REMAINING_LIMIT
      then [a.item.leaf.owner] + EventOwners(rest, processed + 1)
      else EventOwners(rest, processed)
  }

  /** The accounts collected so far and those of the rest of the walk; once there is nothing left to spend, owners of invalid
      orders that the engine does not get to may follow. */
  ghost predicate Collects(t: Taker, items: seq<Item>, b: Budget, processed: nat, accounts: seq<Pubkey>, w: Walked)
    requires forall i :: 0 <= i < |items| ==> items[i].price >= 1
  {
    var rest := Walk(t, items, b);
    || (EventOwners(w.actions, 0) == accounts + EventOwners(rest.actions, processed) && w.stop == rest.stop)
    || (EventOwners(w.actions, 0) <= accounts && w.stop.Spent? && NothingLeft(b))
  }

  lemma NothingCollected(t: Taker, items: seq<Item>, b: Budget, w: Walked)
    requires (forall i :: 0 <= i < |items| ==> items[i].price >= 1) && w == Walk(t, items, b)
    ensures Collects(t, items, b, 0, [], w)
  {
    assert [] + EventOwners(w.actions, 0) == EventOwners(w.actions, 0);
  }

  lemma OwnersNext(a: Action, actions: seq<Action>, processed: nat)
    ensures EventOwners([a] + actions, processed) ==
            if a.Drop? then [a.item.leaf.owner] + EventOwners(actions, processed)
            else if a.Match? && processed < FILL_EVENT_REMAINING_LIMIT
            then [a.item.leaf.owner] + EventOwners(actions, processed + 1)
            else EventOwners(actions, processed)
  {
    assert ([a] + actions)[1..] == actions;
  }

  lemma CollectsInvalid(t: Taker, items: seq<Item>, b: Budget, processed: nat, accounts: seq<Pubkey>, w: Walked)
    requires ItemsOk(items) && items != [] && !items[0].state.Valid? && Collects(t, items, b, processed, accounts, w)
    ensures var dropped := b.dropped < DROP_EXPIRED_ORDER_LIMIT;
            Collects(t, items[1..], if dropped then b.(dropped := b.dropped + 1) else b, processed,
                     if dropped then accounts + [items[0].leaf.owner] else accounts, w)
  {
    hide Walk, EventOwners;
    var dropped, owner := b.dropped < DROP_EXPIRED_ORDER_LIMIT, items[0].leaf.owner;
    if NothingLeft(b) {
      SpentWalk(t, items, b, processed);
      assert accounts + [] == accounts && accounts <= accounts + [owner];
    } else {
      WalkAtInvalid(t, items, b);
      if dropped {
        var rest := Walk(t, items[1..], b.(dropped := b.dropped + 1)).actions;
        OwnersNext(Drop(items[0]), rest, processed);
        assert accounts + ([owner] + EventOwners(rest, processed)) == accounts + [owner] + EventOwners(rest, processed);
      }
    }
  }

  lemma SpentWalk(t: Taker, items: seq<Item>, b: Budget, processed: nat)
    requires ItemsOk(items) && items != [] && NothingLeft(b)
    ensures Walk(t, items, b) == Walked([], b, Spent) && EventOwners([], processed) == []
  {
  }

  lemma CollectsMatch(t: Taker, items: seq<Item>, b: Budget, processed: nat, accounts: seq<Pubkey>, w: Walked)
    requires ItemsOk(items) && RepresentablePrices(items) && items != [] && items[0].state.Valid?
    requires !t.hasAccount && !t.postOnly && t.priceLots == if t.side.Bid? then I64_MAX else 1
    requires !NothingLeft(b) && b.limit != 0 && TruncDiv(b.quote, items[0].price) != 0
    requires Collects(t, items, b, processed, accounts, w)
    ensures var q, more := MatchQuantity(b, items[0]), processed < FILL_EVENT_REMAINING_LIMIT;
            Collects(t, items[1..], b.(base := b.base - q, quote := b.quote - q * items[0].price, limit := b.limit - 1),
                     if more then processed + 1 else processed,
                     if more then accounts + [items[0].leaf.owner] else accounts, w)
  {
    var q, owner := MatchQuantity(b, items[0]), items[0].leaf.owner;
    var b' := b.(base := b.base - q, quote := b.quote - q * items[0].price, limit := b.limit - 1);
    var rest' := Walk(t, items[1..], b');
    assert Walk(t, items, b) == Prepend(Match(items[0], q), rest');
    OwnersNext(Match(items[0], q), rest'.actions, processed);
    hide EventOwners, Walk, MatchQuantity;
    var more := EventOwners(rest'.actions, processed + 1);
    assert accounts + ([owner] + more) == accounts + [owner] + more;
  }

  /** Where the loop ends nothing more is taken. */
  lemma CollectsAll(t: Taker, items: seq<Item>, b: Budget, processed: nat, accounts: seq<Pubkey>, w: Walked)
    requires (forall i :: 0 <= i < |items| ==> items[i].price >= 1) && Collects(t, items, b, processed, accounts, w)
    requires items == [] || (items[0].state.Valid? && (NothingLeft(b) || b.limit == 0 || TruncDiv(b.quote, items[0].price) == 0))
    ensures EventOwners(w.actions, 0) <= accounts && (!w.stop.Spent? ==> accounts == EventOwners(w.actions, 0))
  {
    assert Walk(t, items, b).actions == [];
  }

  // ---------- the loop ----------

  /** What the loop has counted and collected, and what the walk over the items ahead still brings, make up the whole walk. */
  ghost predicate Ahead(c: Config, t: Taker, items: seq<Item>, b: Budget, processed: nat, accounts: seq<Pubkey>,
                        base: int, quote: int, rebates: int, w: Walked) {
    && ItemsOk(items) && RepresentablePrices(items) && BudgetOk(b)
    && (!t.hasAccount && !t.postOnly && t.priceLots == if t.side.Bid? then I64_MAX else 1)
    && Collects(t, items, b, processed, accounts, w)
    && var rest := StillTaken(c, t, items, b);
       TakenBase(w.actions) == base + rest.0 && TakenQuote(w.actions) == quote + rest.1
       && RebatesOf(c, t, w.actions) == rebates + rest.2
  }

  lemma AheadAtStart(c: Config, t: Taker, items: seq<Item>, b: Budget, w: Walked)
    requires ItemsOk(items) && RepresentablePrices(items) && BudgetOk(b) && w == Walk(t, items, b)
    requires !t.hasAccount && !t.postOnly && t.priceLots == if t.side.Bid? then I64_MAX else 1
    ensures Ahead(c, t, items, b, 0, [], 0, 0, 0, w)
  {
    NothingCollected(t, items, b, w);
  }

  lemma RestIsOk(items: seq<Item>)
    requires ItemsOk(items) && RepresentablePrices(items) && items != []
    ensures ItemsOk(items[1..]) && RepresentablePrices(items[1..])
  {
    forall k | 0 <= k < |items[1..]| ensures items[1..][k] == items[k + 1] {}
  }

  lemma AheadInvalid(c: Config, t: Taker, items: seq<Item>, b: Budget, processed: nat, accounts: seq<Pubkey>,
                     base: int, quote: int, rebates: int, w: Walked)
    requires Ahead(c, t, items, b, processed, accounts, base, quote, rebates, w) && items != [] && !items[0].state.Valid?
    ensures var dropped := b.dropped < DROP_EXPIRED_ORDER_LIMIT;
            Ahead(c, t, items[1..], if dropped then b.(dropped := b.dropped + 1) else b, processed,
                  if dropped then accounts + [items[0].leaf.owner] else accounts, base, quote, rebates, w)
  {
    RestIsOk(items);
    CollectsInvalid(t, items, b, processed, accounts, w);
    SkipsInvalid(c, t, items, b);
    hide Collects, StillTaken, TakenBase, TakenQuote, RebatesOf, ItemsOk, RepresentablePrices;
  }

  lemma AheadMatch(c: Config, t: Taker, items: seq<Item>, b: Budget, processed: nat, accounts: seq<Pubkey>,
                   base: int, quote: int, rebates: int, w: Walked)
    requires Ahead(c, t, items, b, processed, accounts, base, quote, rebates, w) && items != [] && items[0].state.Valid?
    requires items[0].price >= 1 && b.base != 0 && b.quote != 0 && b.limit != 0 && TruncDiv(b.quote, items[0].price) != 0
    ensures var q, more := Min(Min(b.base, items[0].leaf.quantity), TruncDiv(b.quote, items[0].price)),
                           processed < FILL_EVENT_REMAINING_LIMIT;
            var paid := q * items[0].price;
            && b.base >= q && b.quote >= paid
            && Ahead(c, t, items[1..], Budget(b.base - q, b.quote - paid, b.limit - 1, b.dropped),
                     if more then processed + 1 else processed, if more then accounts + [items[0].leaf.owner] else accounts,
                     base + q, quote + paid, rebates + MakerRebateFloor(c, paid * c.quoteLotSize), w)
  {
    RestIsOk(items);
    CollectsMatch(t, items, b, processed, accounts, w);
    TakesValid(c, t, items, b);
    MatchQuantityBounds(b, items[0]);
    hide Collects, StillTaken, TakenBase, TakenQuote, RebatesOf, ItemsOk, RepresentablePrices, MakerRebateFloor;
  }

  lemma AheadAtEnd(c: Config, t: Taker, items: seq<Item>, b: Budget, processed: nat, accounts: seq<Pubkey>,
                   base: int, quote: int, rebates: int, w: Walked)
    requires Ahead(c, t, items, b, processed, accounts, base, quote, rebates, w)
    requires items == [] || (items[0].state.Valid? && items[0].price >= 1
                             && (b.base == 0 || b.quote == 0 || b.limit == 0 || TruncDiv(b.quote, items[0].price) == 0))
    ensures TakenBase(w.actions) == base && TakenQuote(w.actions) == quote && RebatesOf(c, t, w.actions) == rebates
    ensures EventOwners(w.actions, 0) <= accounts && (!w.stop.Spent? ==> accounts == EventOwners(w.actions, 0))
  {
    CollectsAll(t, items, b, processed, accounts, w);
    if items == [] { NothingStill(c, t, b); } else { TakesValid(c, t, items, b); }
    hide Collects, StillTaken, TakenBase, TakenQuote, RebatesOf, EventOwners;
  }

  /** The simulation takes what the engine takes, although it tests its stop conditions in another order; the accounts that it
      collects are those that the engine's events are about, and only if nothing is left to spend maybe more. */
  method IterateBook(items: seq<Item>, side: Side, maxBaseLots: int, maxQuoteLotsIncludingFees: int, c: Config,
                     ghost signer: Pubkey)
      returns (baseTaken: int, quoteTaken: int, makerRebates: int, notEnoughLiquidity: bool, accounts: seq<Pubkey>)
    requires c.Ok() && maxBaseLots >= 0 && maxQuoteLotsIncludingFees >= 0
    requires ItemsOk(items) && RepresentablePrices(items)
    ensures var w := EngineWalk(c, side, maxBaseLots, maxQuoteLotsIncludingFees, signer, items);
            && baseTaken == TakenBase(w.actions) && quoteTaken == TakenQuote(w.actions)
            && notEnoughLiquidity == ((if side.Ask? then w.left.base else w.left.quote) != 0)
            && EventOwners(w.actions, 0) <= accounts && (!w.stop.Spent? ==> accounts == EventOwners(w.actions, 0))
    ensures (baseTaken * c.baseLotSize, quoteTaken * c.quoteLotSize, makerRebates)
         == EngineAmounts(c, side, maxBaseLots, maxQuoteLotsIncludingFees, signer, items)
  {
    hide *;
    ghost var t, w;
    t, w := SimulationStarts(c, side, maxBaseLots, maxQuoteLotsIncludingFees, signer, items);
    var limit, processed, dropped := MAXIMUM_TAKEN_ORDERS, 0, 0;
    var orderMaxQuote := if side.Bid? then SubtractTakerFees(c, maxQuoteLotsIncludingFees) else maxQuoteLotsIncludingFees;
    var remainingBase, remainingQuote := maxBaseLots, orderMaxQuote;
    makerRebates, accounts := 0, [];
    var i := 0;
    while i < |items|
      invariant 0 <= i <= |items|
      invariant Ahead(c, t, items[i..], Budget(remainingBase, remainingQuote, limit, dropped), processed, accounts,
                      maxBaseLots - remainingBase, orderMaxQuote - remainingQuote, makerRebates, w)
    {
      var item := items[i];
      ghost var b := Budget(remainingBase, remainingQuote, limit, dropped);
      NextAhead(items, i);
      if !item.state.Valid? {
        AheadInvalid(c, t, items[i..], b, processed, accounts, maxBaseLots - remainingBase, orderMaxQuote - remainingQuote,
                     makerRebates, w);
        if dropped < DROP_EXPIRED_ORDER_LIMIT {
          accounts := accounts + [item.leaf.owner];
          dropped := dropped + 1;
        }
        i := i + 1;
        continue;
      }
      if remainingBase == 0 || remainingQuote == 0 || limit == 0 {
        break;
      }
      var maxMatchByQuote := TruncDiv(remainingQuote, item.price);
      if maxMatchByQuote == 0 {
        break;
      }
      AheadMatch(c, t, items[i..], b, processed, accounts, maxBaseLots - remainingBase, orderMaxQuote - remainingQuote,
                 makerRebates, w);
      var matchBase := Min(Min(remainingBase, item.leaf.quantity), maxMatchByQuote);
      var matchQuote := matchBase * item.price;
      makerRebates := makerRebates + MakerRebateFloor(c, matchQuote * c.quoteLotSize);
      remainingBase := remainingBase - matchBase;
      remainingQuote := remainingQuote - matchQuote;
      limit := limit - 1;
      if processed < FILL_EVENT_REMAINING_LIMIT {
        accounts := accounts + [item.leaf.owner];
        processed := processed + 1;
      }
      i := i + 1;
    }
    AheadAtEnd(c, t, items[i..], Budget(remainingBase, remainingQuote, limit, dropped), processed, accounts,
               maxBaseLots - remainingBase, orderMaxQuote - remainingQuote, makerRebates, w);
    baseTaken := maxBaseLots - remainingBase;
    quoteTaken := orderMaxQuote - remainingQuote;
    notEnoughLiquidity := if side.Ask? then remainingBase != 0 else remainingQuote != 0;
  }

  method AmountsFromBook(items: seq<Item>, side: Side, maxBaseLots: int, maxQuoteLotsIncludingFees: int, c: Config,
                         ghost signer: Pubkey)
      returns (r: Amounts)
    requires c.Ok() && maxBaseLots >= 0 && maxQuoteLotsIncludingFees >= 0
    requires ItemsOk(items) && RepresentablePrices(items)
    ensures (r.totalBaseTakenNative, r.totalQuoteTakenNative, r.fee)
         == EngineAmounts(c, side, maxBaseLots, maxQuoteLotsIncludingFees, signer, items)
    ensures var left := EngineWalk(c, side, maxBaseLots, maxQuoteLotsIncludingFees, signer, items).left;
            r.notEnoughLiquidity <==> (if side.Ask? then left.base else left.quote) != 0
  {
    var base, quote, rebates, short, _ := IterateBook(items, side, maxBaseLots, maxQuoteLotsIncludingFees, c, signer);
    r := Amounts(base * c.baseLotSize, quote * c.quoteLotSize, rebates, short);
  }

  lemma SimulationStart(c: Config, side: Side, maxBase: int, maxQuote: int)
    requires c.Ok() && maxBase >= 0 && maxQuote >= 0
    ensures c.takerFee >= 0
    ensures BudgetOk(StartBudget(c, SimulatedOrder(side, maxBase, maxQuote), MAXIMUM_TAKEN_ORDERS))
    ensures StartBudget(c, SimulatedOrder(side, maxBase, maxQuote), MAXIMUM_TAKEN_ORDERS)
         == Budget(maxBase, if side.Bid? then SubtractTakerFees(c, maxQuote) else maxQuote, MAXIMUM_TAKEN_ORDERS, 0)
  {
  }

  /** The whole walk is ahead at the start; what it takes tells what is left and what the engine's amounts are. */
  lemma SimulationStarts(c: Config, side: Side, maxBase: int, maxQuote: int, signer: Pubkey, items: seq<Item>) returns (t: Taker, w: Walked)
    requires c.Ok() && maxBase >= 0 && maxQuote >= 0 && ItemsOk(items) && RepresentablePrices(items)
    ensures (forall i :: 0 <= i < |items| ==> items[i].price >= 1) && items[0..] == items && c.takerFee >= 0
    ensures w == EngineWalk(c, side, maxBase, maxQuote, signer, items)
    ensures var quote := if side.Bid? then SubtractTakerFees(c, maxQuote) else maxQuote;
            && Ahead(c, t, items, Budget(maxBase, quote, MAXIMUM_TAKEN_ORDERS, 0), 0, [], 0, 0, 0, w)
            && w.left.base == maxBase - TakenBase(w.actions) && w.left.quote == quote - TakenQuote(w.actions)
    ensures EngineAmounts(c, side, maxBase, maxQuote, signer, items)
         == (TakenBase(w.actions) * c.baseLotSize, TakenQuote(w.actions) * c.quoteLotSize, RebatesOf(c, t, w.actions))
  {
    var o := SimulatedOrder(side, maxBase, maxQuote);
    t := TakerOf(o, signer, false, if side.Bid? then I64_MAX else 1);
    var b := StartBudget(c, o, MAXIMUM_TAKEN_ORDERS);
    SimulationStart(c, side, maxBase, maxQuote);
    w := Walk(t, items, b);
    WalkTotals(t, items, b);
    FeeIsRebates(c, t, items, w.actions);
    AheadAtStart(c, t, items, b, w);
    hide Walk, ActionsOk, Ahead, TakenBase, TakenQuote, RebatesOf, StartBudget;
  }

  lemma NothingStill(c: Config, t: Taker, b: Budget)
    ensures StillTaken(c, t, [], b) == (0, 0, 0)
  {
  }

  lemma NextAhead(items: seq<Item>, i: nat)
    requires i < |items|
    ensures items[i..] != [] && items[i..][0] == items[i] && items[i..][1..] == items[i + 1..]
  {
  }
}
