/** The walk of a new order through the opposing side: which orders it drops, cancels and matches, and where it stops. */
module Matching {
  import opened Types
  import opened Markets
  import opened Prices

  /** Drop at most this many invalid orders from a book side while matching. */
  const DROP_EXPIRED_ORDER_LIMIT: nat := 5

  /** Process up to this many fills at once, for makers whose accounts were passed along. */
  const FILL_EVENT_REMAINING_LIMIT: nat := 15

  // ---------- the order's own terms ----------

  predicate IsPostOnly(o: Order) {
    match o.params
    case FixedOrder(_, t) => t != Limit
    case PeggedOrder(_, t, _) => t != Limit
    case _ => false
  }

  predicate IsFillOrKill(o: Order) { o.params.FillOrKill? }

  function PostTarget(o: Order): Option<Component> {
    match o.params
    case FixedOrder(_, _) => Some(Fixed)
    case PeggedOrder(_, _, _) => Some(OraclePegged)
    case _ => None
  }

  /** The pegging limit of a pegged order, otherwise -1. */
  function PegLimit(o: Order): int { if o.params.PeggedOrder? then o.params.pegLimit else -1 }

  /** The limit for orders that slide: just worse than the best opposing price. */
  function PostOnlySlideLimit(side: Side, bestOther: int, limit: int): int {
    if side.Bid? then Min(limit, bestOther - 1) else Max(limit, bestOther + 1)
  }

  /** The price of the first valid item. */
  function BestPrice(items: seq<Item>): Option<int> {
    if items == [] then None else if items[0].state.Valid? then Some(items[0].price) else BestPrice(items[1..])
  }

  function PriceForOrderType(o: Order, priceLots: int, t: PostOrderType, best: Option<int>): int {
    if t.PostOnlySlide? && best.Some? then PostOnlySlideLimit(o.side, best.value, priceLots) else priceLots
  }

  /** The price in lots and the price data for the key. */
  function OrderPrice(o: Order, oracle: Option<int>, opposing: seq<Item>): Result<(int, int)> {
    PriceWithBest(o, oracle, BestPrice(opposing))
  }

  /** The same, when the price of the first valid opposing order is known. */
  function PriceWithBest(o: Order, oracle: Option<int>, best: Option<int>): Result<(int, int)> {
    match o.params
    case MarketOrder => CheckedPrice(if o.side.Bid? then I64_MAX else 1, None)
    case ImmediateOrCancel(p) => CheckedPrice(p, None)
    case FillOrKill(p) => CheckedPrice(p, None)
    case FixedOrder(p, t) => CheckedPrice(PriceForOrderType(o, p, t, best), None)
    case PeggedOrder(offset, t, _) =>
      if oracle.None? then Err(OraclePegInvalidOracleState)
      else if !IsI64(oracle.value + offset) then Err(InvalidPriceLots)
      else CheckedPrice(PriceForOrderType(o, oracle.value + offset, t, best), oracle)
  }

  /** Prices below one are refused; a pegged price is stored as its offset from the oracle price. */
  function CheckedPrice(price: int, oracle: Option<int>): (r: Result<(int, int)>)
    ensures r.Ok? ==> 1 <= r.value.0 <= I64_MAX && IsU64(r.value.1)
    ensures r.Ok? && oracle.None? ==> r.value.1 == r.value.0
  {
    if price < 1 then Err(InvalidPriceLots)
    else if price > I64_MAX || (oracle.Some? && !IsI64(price - oracle.value)) then Err(ArithmeticOverflow)
    else Ok((price, if oracle.None? then price else OraclePeggedPriceData(price - oracle.value)))
  }

  // ---------- the walk ----------

  datatype Taker = Taker(
    side: Side,
    owner: Pubkey,
    hasAccount: bool,
    priceLots: int,
    postOnly: bool,
    selfTradeBehavior: SelfTradeBehavior)
  {
    /** The order belongs to the taker's own account. */
    predicate IsSelf(leaf: LeafNode) { hasAccount && owner == leaf.owner }
  }

  /** What the taker may still take. */
  datatype Budget = Budget(base: int, quote: int, limit: nat, dropped: nat)

  /** No base or no quote is left to spend. */
  predicate NothingLeft(b: Budget) { b.base == 0 || b.quote == 0 }

  datatype Action =
    | Drop(item: Item)
    | Cancel(item: Item)
    | Match(item: Item, quantity: int)

  datatype Stop =
    | Exhausted         // no more orders
    | Spent             // no base or no quote left
    | PriceLimit        // the next valid order is beyond the limit price
    | PostOnlyBlocked   // a valid order is within the limit price of a post-only order
    | MatchLimit        // enough orders matched
    | BadPrice          // the quote left does not buy a lot of the next order
    | SelfTrade         // the taker wants no self trade at any price

  datatype Walked = Walked(actions: seq<Action>, left: Budget, stop: Stop)

  function Prepend(a: Action, w: Walked): Walked { w.(actions := [a] + w.actions) }

  /** The quantity matched against an order: all of it, or what base or quote still allow. */
  function MatchQuantity(b: Budget, item: Item): int
    requires item.price >= 1
  {
    Min(Min(b.base, item.leaf.quantity), TruncDiv(b.quote, item.price))
  }

  function Walk(t: Taker, items: seq<Item>, b: Budget): Walked
    requires forall i :: 0 <= i < |items| ==> items[i].price >= 1
    decreases |items|
  {
    if items == [] then Walked([], b, Exhausted)
    else if b.base == 0 || b.quote == 0 then Walked([], b, Spent)
    else
      var item := items[0];
      if !item.state.Valid? then
        if b.dropped < DROP_EXPIRED_ORDER_LIMIT
        then Prepend(Drop(item), Walk(t, items[1..], b.(dropped := b.dropped + 1)))
        else Walk(t, items[1..], b)
      else if !t.side.IsPriceWithinLimit(item.price, t.priceLots) then Walked([], b, PriceLimit)
      else if t.postOnly then Walked([], b, PostOnlyBlocked)
      else if b.limit == 0 then Walked([], b, MatchLimit)
      else if TruncDiv(b.quote, item.price) == 0 then Walked([], b, BadPrice)
      else
        var q := MatchQuantity(b, item);
        if t.IsSelf(item.leaf) && t.selfTradeBehavior.AbortTransaction? then Walked([], b, SelfTrade)
        else if t.IsSelf(item.leaf) && t.selfTradeBehavior.CancelProvide? then Prepend(Cancel(item), Walk(t, items[1..], b))
        else Prepend(Match(item, q),
                     Walk(t, items[1..], b.(base := b.base - q, quote := b.quote - q * item.price, limit := b.limit - 1)))
  }

  /** Does the walk leave the order free to be posted? */
  predicate MayPost(s: Stop) { s.Exhausted? || s.Spent? || s.PriceLimit? }

  // ---------- what the walk takes ----------

  function TakenBase(actions: seq<Action>): int {
    if actions == [] then 0
    else (if actions[0].Match? then actions[0].quantity else 0) + TakenBase(actions[1..])
  }

  function TakenQuote(actions: seq<Action>): int {
    if actions == [] then 0
    else (if actions[0].Match? then actions[0].quantity * actions[0].item.price else 0) + TakenQuote(actions[1..])
  }

  function SelfQuoteOf(t: Taker, a: Action): int {
    if a.Match? && t.IsSelf(a.item.leaf) then a.quantity * a.item.price else 0
  }

  /** The part of the quote that the taker takes from itself. */
  function SelfQuote(t: Taker, actions: seq<Action>): int {
    if actions == [] then 0 else SelfQuoteOf(t, actions[0]) + SelfQuote(t, actions[1..])
  }

  function RebateOn(c: Config, t: Taker, a: Action): int {
    if a.Match? && !t.IsSelf(a.item.leaf) then MakerRebateFloor(c, a.quantity * a.item.price * c.quoteLotSize) else 0
  }

  /** The rebates of all fills that are not self trades. */
  function RebatesOf(c: Config, t: Taker, actions: seq<Action>): int {
    if actions == [] then 0 else RebateOn(c, t, actions[0]) + RebatesOf(c, t, actions[1..])
  }

  ghost predicate ItemsOk(items: seq<Item>) {
    forall i :: 0 <= i < |items| ==> items[i].price >= 1 && items[i].leaf.quantity >= 1
  }

  predicate BudgetOk(b: Budget) { b.base >= 0 && b.quote >= 0 }

  /** A match takes at least a lot, no more than the order has, and no more than the budget allows. */
  lemma MatchQuantityBounds(b: Budget, item: Item)
    requires BudgetOk(b) && item.price >= 1 && item.leaf.quantity >= 1 && b.base != 0
    requires TruncDiv(b.quote, item.price) != 0
    ensures var q := MatchQuantity(b, item);
            && 1 <= q <= item.leaf.quantity && q <= b.base && item.price <= q * item.price <= b.quote
  {
    var q, m := MatchQuantity(b, item), TruncDiv(b.quote, item.price);
    assert m >= 1 && m * item.price <= b.quote;
    MulOrder(q, m, item.price);
    MulOrder(1, q, item.price);
  }

  lemma MulOrder(a: int, b: int, m: int)
    requires a <= b && m >= 0
    ensures a * m <= b * m
  {
  }

  /** Every order matched is a valid one within the limit price that the walk was offered, matched in part or whole. */
  ghost predicate ActionOk(t: Taker, items: seq<Item>, a: Action) {
    && a.item in items
    && (a.Drop? ==> !a.item.state.Valid?)
    && (a.Cancel? ==> a.item.state.Valid? && t.IsSelf(a.item.leaf) && t.selfTradeBehavior.CancelProvide?)
    && (a.Match? ==>
          && a.item.state.Valid? && t.side.IsPriceWithinLimit(a.item.price, t.priceLots)
          && 1 <= a.quantity <= a.item.leaf.quantity
          && (t.IsSelf(a.item.leaf) ==> t.selfTradeBehavior.DecrementTake?))
  }

  ghost predicate ActionsOk(t: Taker, items: seq<Item>, actions: seq<Action>) {
    forall i :: 0 <= i < |actions| ==> ActionOk(t, items, actions[i])
  }

  lemma PrependActions(t: Taker, items: seq<Item>, a: Action, actions: seq<Action>)
    requires items != [] && ActionsOk(t, items[1..], actions) && ActionOk(t, items, a)
    ensures ActionsOk(t, items, [a] + actions)
  {
    var s := [a] + actions;
    forall i | 0 <= i < |s|
      ensures ActionOk(t, items, s[i])
    {
      if i > 0 { assert s[i] == actions[i - 1] && ActionOk(t, items[1..], actions[i - 1]); }
    }
  }

  /** Skipping an item keeps the actions in order. */
  lemma SkipAction(t: Taker, items: seq<Item>, actions: seq<Action>)
    requires items != [] && ActionsOk(t, items[1..], actions)
    ensures ActionsOk(t, items, actions)
  {
    forall i | 0 <= i < |actions|
      ensures ActionOk(t, items, actions[i])
    {
      assert ActionOk(t, items[1..], actions[i]);
    }
  }

  /** The walk spends exactly what it matches, and never more than it may. */
  lemma {:induction false} WalkTotals(t: Taker, items: seq<Item>, b: Budget)
    requires ItemsOk(items) && BudgetOk(b)
    ensures var w := Walk(t, items, b);
            && ActionsOk(t, items, w.actions)
            && BudgetOk(w.left)
            && w.left.base == b.base - TakenBase(w.actions)
            && w.left.quote == b.quote - TakenQuote(w.actions)
            && 0 <= SelfQuote(t, w.actions) <= TakenQuote(w.actions)
            && TakenBase(w.actions) <= TakenQuote(w.actions)
    decreases |items|
  {
    hide ActionsOk, ActionOk;
    if items == [] || b.base == 0 || b.quote == 0 {
      NoActions(t, items);
    } else {
      var item := items[0];
      if !item.state.Valid? {
        if b.dropped < DROP_EXPIRED_ORDER_LIMIT {
          var b' := b.(dropped := b.dropped + 1);
          WalkTotals(t, items[1..], b');
          FirstAction(t, items, Drop(item));
          PrependActions(t, items, Drop(item), Walk(t, items[1..], b').actions);
        } else {
          WalkTotals(t, items[1..], b);
          SkipAction(t, items, Walk(t, items[1..], b).actions);
        }
      } else if !t.side.IsPriceWithinLimit(item.price, t.priceLots) || t.postOnly || b.limit == 0
                || TruncDiv(b.quote, item.price) == 0 {
        NoActions(t, items);
      } else {
        WalkTotalsAtMatch(t, items, b);
      }
    }
  }

  lemma NoActions(t: Taker, items: seq<Item>)
    ensures ActionsOk(t, items, [])
  {
  }

  lemma FirstAction(t: Taker, items: seq<Item>, a: Action)
    requires items != [] && a.item == items[0]
    requires a.Drop? ==> !a.item.state.Valid?
    requires a.Cancel? ==> a.item.state.Valid? && t.IsSelf(a.item.leaf) && t.selfTradeBehavior.CancelProvide?
    requires a.Match? ==>
               && a.item.state.Valid? && t.side.IsPriceWithinLimit(a.item.price, t.priceLots)
               && 1 <= a.quantity <= a.item.leaf.quantity
               && (t.IsSelf(a.item.leaf) ==> t.selfTradeBehavior.DecrementTake?)
    ensures ActionOk(t, items, a)
  {
  }

  lemma {:induction false} WalkTotalsAtMatch(t: Taker, items: seq<Item>, b: Budget)
    requires ItemsOk(items) && BudgetOk(b) && items != [] && b.base != 0 && b.quote != 0
    requires var item := items[0];
             && item.state.Valid? && t.side.IsPriceWithinLimit(item.price, t.priceLots) && !t.postOnly && b.limit > 0
             && TruncDiv(b.quote, item.price) != 0
    ensures var w := Walk(t, items, b);
            && ActionsOk(t, items, w.actions)
            && BudgetOk(w.left)
            && w.left.base == b.base - TakenBase(w.actions)
            && w.left.quote == b.quote - TakenQuote(w.actions)
            && 0 <= SelfQuote(t, w.actions) <= TakenQuote(w.actions)
            && TakenBase(w.actions) <= TakenQuote(w.actions)
    decreases |items|, 0
  {
    hide ActionsOk, ActionOk, MatchQuantity;
    var item := items[0];
    MatchQuantityBounds(b, item);
    var q := MatchQuantity(b, item);
    if t.IsSelf(item.leaf) && t.selfTradeBehavior.AbortTransaction? {
      NoActions(t, items);
    } else if t.IsSelf(item.leaf) && t.selfTradeBehavior.CancelProvide? {
      WalkTotals(t, items[1..], b);
      FirstAction(t, items, Cancel(item));
      PrependActions(t, items, Cancel(item), Walk(t, items[1..], b).actions);
    } else {
      var b' := b.(base := b.base - q, quote := b.quote - q * item.price, limit := b.limit - 1);
      assert Walk(t, items, b) == Prepend(Match(item, q), Walk(t, items[1..], b'));
      WalkTotals(t, items[1..], b');
      MulOrder(1, item.price, q);
      FirstAction(t, items, Match(item, q));
      var tail := Walk(t, items[1..], b').actions;
      PrependActions(t, items, Match(item, q), tail);
      hide Walk;
      OneMoreMatch(t, item, q, tail);
    }
  }

  lemma OneMoreMatch(t: Taker, item: Item, q: int, tail: seq<Action>)
    ensures var actions := [Match(item, q)] + tail;
            && TakenBase(actions) == q + TakenBase(tail)
            && TakenQuote(actions) == q * item.price + TakenQuote(tail)
            && SelfQuote(t, actions) == (if t.IsSelf(item.leaf) then q * item.price else 0) + SelfQuote(t, tail)
  {
    var actions := [Match(item, q)] + tail;
    assert actions[0] == Match(item, q) && actions[1..] == tail;
  }
}
