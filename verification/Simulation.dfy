/** The off-chain simulation on an order book, against a new order on the same book. */
module Simulations {
  import opened Types
  import opened Rankings
  import opened Prices
  import opened BookSideModels
  import opened Iterations
  import opened Matching
  import opened Simulator
  import opened Exchanges
  import opened ExchangeSteps
  import opened ExchangeOrders
  import opened Instructions
  import opened Engines
  import opened OrderLaws
  import opened MatchingTerms
  import opened EventOutcomes

  /** Every price at which a book shows an order can be represented. */
  lemma BookPricesAreRepresentable(m: BookSideModel, side: Side, now: int, oracle: Option<int>)
    requires BookOk(m)
    ensures var items := Items(side, Ranked(side, m.fixed), Ranked(side, m.pegged), now, oracle);
            ItemsOk(items) && RepresentablePrices(items)
  {
    var fixed, pegged := Ranked(side, m.fixed), Ranked(side, m.pegged);
    var items := Items(side, fixed, pegged, now, oracle);
    ItemsCanBeMatched(side, m, now, oracle);
    ItemsShowOrders(side, fixed, pegged, now, oracle);
    hide Items, Ranked, ItemsOk, BookOk, ShowsOrder;
    forall i | 0 <= i < |items|
      ensures 1 <= items[i].price <= I64_MAX
    {
      assert ShowsOrder(items[i], side, fixed, pegged, now, oracle);
      ItemIsShown(m, side, items[i], now, oracle);
      ShownIsRepresentable(m, side, items[i], fixed, pegged, now, oracle);
    }
  }

  lemma ShownIsRepresentable(m: BookSideModel, side: Side, item: Item, fixed: seq<LeafNode>, pegged: seq<LeafNode>, now: int, oracle: Option<int>)
    requires BookOk(m) && Shown(m, side, item) && ShowsOrder(item, side, fixed, pegged, now, oracle)
    ensures 1 <= item.price <= I64_MAX
  {
    assert if item.comp.Fixed? then FixedOk(item.leaf) else PeggedOk(item.leaf);
  }

  lemma BookFacts(e: Engine, side: Side)
    requires e.Valid() && CanTrade(e.State())
    ensures e.market.config.Ok() && e.State().market.config.Ok() && e.State().market == e.market
    ensures e.State().market.seqNum >= 0 && BookOk(e.State().orders.Book(side.Invert()))
  {
  }

  lemma ItemsOfIs(ex: Exchange, side: Side, now: int, oracle: Option<int>)
    ensures var m := ex.orders.Book(side);
            ItemsOf(ex, side, now, oracle) == Items(side, Ranked(side, m.fixed), Ranked(side, m.pegged), now, oracle)
  {
  }

  /** The orders that the iterator over one side yields. */
  method AllItems(e: Engine, side: Side, env: Env) returns (items: seq<Item>)
    requires e.Valid()
    ensures items == ItemsOf(e.State(), side, env.now, env.oracle)
  {
    hide *;
    var iter := e.StartIter(side, env);
    ghost var all := iter.ToCome();
    ghost var rest := all;
    items := [];
    while true
      invariant iter.Valid() && iter.HandlesAreRight() && iter.ToCome() == rest
      invariant fresh(iter.fixedIter) && fresh(iter.oraclePeggedIter)
      invariant items + rest == all && all == old(ItemsOf(e.State(), side, env.now, env.oracle))
      decreases |rest|
    {
      var next := e.NextItem(iter, rest);
      if next.None? {
        return;
      }
      items, rest := items + [next.value.0], rest[1..];
    }
  }

  /** `amounts_from_book` on a book tells exactly what a market order without an account takes there, pays, and pays in fees to
      the makers, whenever such an order is accepted. */
  method AmountsOnBook(e: Engine, side: Side, maxBaseLots: int, maxQuoteLotsIncludingFees: int, env: Env) returns (r: Amounts)
    requires e.Valid() && CanTrade(e.State()) && !env.hasAccount && maxBaseLots >= 0 && maxQuoteLotsIncludingFees >= 0
    ensures e.State().market.config.Ok() && e.State().market.seqNum >= 0 && BookOk(e.State().orders.Book(side.Invert()))
    ensures var o := SimulatedOrder(side, maxBaseLots, maxQuoteLotsIncludingFees);
            o.side == side && PegLimit(o) == -1
            && var placed := NewOrder(e.State(), env, o, MAXIMUM_TAKEN_ORDERS);
               placed.Ok? ==>
                 && r.totalBaseTakenNative == placed.value.takenBase && r.totalQuoteTakenNative == placed.value.takenQuote
                 && r.fee == placed.value.takerFees - placed.value.referrerAmount
  {
    hide *;
    BookFacts(e, side);
    ItemsOfIs(e.State(), side.Invert(), env.now, env.oracle);
    BookPricesAreRepresentable(e.State().orders.Book(side.Invert()), side.Invert(), env.now, env.oracle);
    SimulatedIs(side, maxBaseLots, maxQuoteLotsIncludingFees);
    SimulationIsRight(e.State(), env, side, maxBaseLots, maxQuoteLotsIncludingFees);
    var items := AllItems(e, side.Invert(), env);
    r := AmountsFromBook(items, side, maxBaseLots, maxQuoteLotsIncludingFees, e.market.config, env.owner);
  }

  // ---------- the accounts to pass along ----------

  /** Passing along the accounts that the simulation collects leaves no order that is dropped to the heap, and of the fills only those
      beyond the fifteenth. No account is collected for anything else. */
  lemma {:induction false} CollectedSuffice(env: Env, side: Side, actions: seq<Action>, processed: nat)
    requires processed <= 15 && forall p :: p in EventOwners(actions, processed) ==> p in env.remaining
    ensures |Waiting(env, side, actions, processed)| == Max(0, processed + Matches(actions) - 15)
    ensures forall e :: e in Waiting(env, side, actions, processed) ==> e.Fill?
    ensures |EventOwners(actions, processed)| == Drops(actions) + Min(Matches(actions), 15 - processed)
  {
    if actions != [] {
      var a, rest := actions[0], actions[1..];
      var credited := if a.Match? && processed < 15 then processed + 1 else processed;
      OwnersUnfold(actions, processed);
      assert forall p :: p in EventOwners(rest, credited) ==> p in EventOwners(actions, processed);
      CollectedSuffice(env, side, rest, credited);
    }
  }

  lemma OwnersUnfold(actions: seq<Action>, processed: nat)
    requires actions != []
    ensures var a, rest := actions[0], actions[1..];
            EventOwners(actions, processed)
            == if a.Drop? then [a.item.leaf.owner] + EventOwners(rest, processed)
               else if a.Match? && processed < 15 then [a.item.leaf.owner] + EventOwners(rest, processed + 1)
               else EventOwners(rest, processed)
  {
  }
}
