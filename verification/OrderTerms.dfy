/** What an order states: which prices it accepts, whether it takes and whether it may be posted, and the price found for it. */
module OrderTerms {
  import opened Types
  import opened Prices
  import opened Markets
  import opened Matching
  import opened Posting
  import opened BookItems

  /** The price that the order states; any price will do for a market order. */
  function StatedPrice(o: Order, oracle: Option<int>): int {
    match o.params
    case MarketOrder => if o.side.Bid? then 0x7FFF_FFFF_FFFF_FFFF else 1
    case ImmediateOrCancel(p) => p
    case FillOrKill(p) => p
    case FixedOrder(p, _) => p
    case PeggedOrder(offset, _, _) => OracleOr(oracle) + offset
  }

  /** A bid accepts its price and lower ones, an ask its price and higher ones. */
  predicate Accepts(o: Order, oracle: Option<int>, price: int) {
    if o.side.Bid? then price <= StatedPrice(o, oracle) else price >= StatedPrice(o, oracle)
  }

  /** Everything but a post-only order may take. */
  predicate MayTake(o: Order) {
    (o.params.FixedOrder? || o.params.PeggedOrder?) ==> o.params.orderType.Limit?
  }

  predicate Slides(o: Order) {
    (o.params.FixedOrder? || o.params.PeggedOrder?) && o.params.orderType.PostOnlySlide?
  }

  /** The tree that the order goes to if it is posted. */
  function TreeOf(o: Order): Component { if o.params.PeggedOrder? then OraclePegged else Fixed }

  ghost predicate IsFirstValid(items: seq<Item>, k: int) {
    0 <= k < |items| && items[k].state.Valid? && forall j :: 0 <= j < k ==> !items[j].state.Valid?
  }

  /** The price of an order is the one that it states, unless it slides and would cross: then it is one tick clear of the best
      order that can be matched. */
  ghost predicate IsPriceFor(o: Order, oracle: Option<int>, opposing: seq<Item>, price: int) {
    && (!Slides(o) || (forall k :: IsFirstValid(opposing, k) ==> !Accepts(o, oracle, opposing[k].price)) ==>
          price == StatedPrice(o, oracle))
    && (Slides(o) ==> forall k :: IsFirstValid(opposing, k) && Accepts(o, oracle, opposing[k].price) ==>
          price == if o.side.Bid? then opposing[k].price - 1 else opposing[k].price + 1)
  }

  lemma {:induction false} BestIsFirst(items: seq<Item>)
    ensures BestPrice(items).None? ==> forall k :: !IsFirstValid(items, k)
    ensures BestPrice(items).Some? ==> exists k :: IsFirstValid(items, k) && items[k].price == BestPrice(items).value
    ensures forall k :: IsFirstValid(items, k) ==> BestPrice(items) == Some(items[k].price)
  {
    if items != [] {
      if items[0].state.Valid? {
        assert IsFirstValid(items, 0);
      } else {
        BestIsFirst(items[1..]);
        forall k
          ensures IsFirstValid(items[1..], k) ==> IsFirstValid(items, k + 1)
          ensures IsFirstValid(items, k) ==> IsFirstValid(items[1..], k - 1)
        {
          if IsFirstValid(items, k) { assert forall j :: 0 <= j < k - 1 ==> items[1..][j] == items[j + 1]; }
          if IsFirstValid(items[1..], k) { assert forall j :: 1 <= j < k + 1 ==> items[j] == items[1..][j - 1]; }
        }
      }
    }
  }

  /** The price found for an accepted order, and the one in the key that it would be posted under. */
  lemma PriceIsRight(o: Order, oracle: Option<int>, opposing: seq<Item>)
    requires OrderPrice(o, oracle, opposing).Ok?
    ensures var (price, data) := OrderPrice(o, oracle, opposing).value;
            && IsPriceFor(o, oracle, opposing, price) && 1 <= price <= 0x7FFF_FFFF_FFFF_FFFF
            && (o.params.PeggedOrder? ==> oracle.Some?)
            && forall seqNum :: IsU64(seqNum) ==>
                 IsU64(data) && PriceOf(TreeOf(o), NewNodeKey(o.side, data, seqNum), OracleOr(oracle)) == price
  {
    BestIsFirst(opposing);
    var (price, data) := OrderPrice(o, oracle, opposing).value;
    forall seqNum | IsU64(seqNum)
      ensures IsU64(data) && PriceOf(TreeOf(o), NewNodeKey(o.side, data, seqNum), OracleOr(oracle)) == price
    {
      KeyRoundTrip(o.side, data, seqNum);
      if o.params.PeggedOrder? { PegOffsetShift(price - oracle.value); }
    }
  }

  /** The quote that an order may take: all that it states, or for a bid that may take the most that leaves room for the fee. */
  ghost predicate IsQuoteToTake(c: Config, o: Order, quote: int) {
    if o.side.Bid? && MayTake(o) then
      quote * (1_000_000 + c.takerFee) <= o.maxQuoteLotsIncludingFees * 1_000_000 < (quote + 1) * (1_000_000 + c.takerFee)
    else quote == o.maxQuoteLotsIncludingFees
  }

  /** How the walk sees the order. */
  lemma TermsAre(c: Config, o: Order, owner: Pubkey, hasAccount: bool, price: int, limit: nat)
    requires c.Ok() && o.maxQuoteLotsIncludingFees >= 0
    ensures TakerOf(o, owner, hasAccount, price) == Taker(o.side, owner, hasAccount, price, !MayTake(o), o.selfTradeBehavior)
    ensures var b := StartBudget(c, o, limit);
            b == Budget(o.maxBaseLots, b.quote, limit, 0) && b.quote >= 0 && IsQuoteToTake(c, o, b.quote)
  {
    MostWithFee(c, o.maxQuoteLotsIncludingFees);
  }
}
