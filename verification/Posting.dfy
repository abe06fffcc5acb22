/** What a new order pays for what it takes, and how much of it is posted. */
module Posting {
  import opened Types
  import opened Markets
  import opened Prices
  import opened Matching
  import opened MatchingLaws

  /** The quote that may be taken: a bid keeps back the taker fee. */
  function OrderMaxQuote(c: Config, o: Order): int
    requires c.Ok()
  {
    if o.side.Bid? && !IsPostOnly(o) then SubtractTakerFees(c, o.maxQuoteLotsIncludingFees) else o.maxQuoteLotsIncludingFees
  }

  /** The taker fee on what is not a self trade. */
  function TakerFees(c: Config, takenQuote: int, selfQuote: int): int {
    var quote := (takenQuote - selfQuote) * c.quoteLotSize;
    if quote > 0 then TakerFeesCeil(c, quote) else 0
  }

  /** What is left of the taker fee after the makers' rebates. */
  function ReferrerAmount(c: Config, takenQuote: int, selfQuote: int, rebates: int): int {
    if (takenQuote - selfQuote) * c.quoteLotSize > 0 then TakerFees(c, takenQuote, selfQuote) - rebates else 0
  }

  /** The price at which the remainder locks funds: the peg limit for pegged bids. */
  function LockingPrice(o: Order, priceLots: int): int {
    if PegLimit(o) != -1 && o.side.Bid? then PegLimit(o) else priceLots
  }

  /** The base lots that the remaining budget allows to be posted. */
  function PostQuantity(c: Config, o: Order, priceLots: int, remainingBase: int, takenQuote: int, takerFees: int): int
    requires c.Ok() && LockingPrice(o, priceLots) >= 1
  {
    var takerFeesLots := TruncDiv(takerFees + c.quoteLotSize - 1, c.quoteLotSize);
    var remainingQuote := o.maxQuoteLotsIncludingFees - takenQuote - takerFeesLots;
    Min(remainingBase, TruncDiv(remainingQuote - MakerFeesCeil(c, remainingQuote), LockingPrice(o, priceLots)))
  }

  /** The tree that the remainder goes to, if it is posted at all. */
  function PostedTo(o: Order, priceLots: int, stop: Stop, quantity: int): Option<Component> {
    if !MayPost(stop) || quantity <= 0 || (PegLimit(o) != -1 && o.side.IsPriceBetter(priceLots, PegLimit(o))) then None
    else PostTarget(o)
  }

  // ---------- the spending bound ----------

  /** After the fee is kept back, quote and fee together stay within the maximum. */
  lemma TakerFitsBudget(c: Config, max: int, taken: int, self: int)
    requires c.Ok() && max >= 0 && 0 <= self <= taken <= SubtractTakerFees(c, max)
    ensures 0 <= TakerFees(c, taken, self) <= (max - taken) * c.quoteLotSize
    ensures taken <= max
  {
    var s := FEES_SCALE_FACTOR;
    assert taken * (s + c.takerFee) <= max * s by {
      var m := SubtractTakerFees(c, max);
      assert m * (s + c.takerFee) <= max * s;
      MulOrder(taken, m, s + c.takerFee);
    }
    assert taken * (s + c.takerFee) == taken * s + taken * c.takerFee;
    MulOrder(0, taken, c.takerFee);
    assert taken * c.takerFee <= (max - taken) * s;
    FeeOfLots(c, taken, max - taken);
    var n := taken - self;
    MulOrder(n, taken, c.quoteLotSize);
    MulOrder(0, n, c.quoteLotSize);
    FeesMonotone(c, n * c.quoteLotSize, taken * c.quoteLotSize);
    FeeBounds(c, n * c.quoteLotSize);
    MulOrder(0, max - taken, c.quoteLotSize);
  }

  /** A fee that fits in some lots fits in them in native units too. */
  lemma FeeOfLots(c: Config, lots: int, room: int)
    requires c.Ok() && lots >= 0 && lots * c.takerFee <= room * FEES_SCALE_FACTOR
    ensures TakerFeesCeil(c, lots * c.quoteLotSize) <= room * c.quoteLotSize
  {
    MulOrder(lots * c.takerFee, room * FEES_SCALE_FACTOR, c.quoteLotSize);
    assert lots * c.quoteLotSize * c.takerFee == lots * c.takerFee * c.quoteLotSize;
    assert room * FEES_SCALE_FACTOR * c.quoteLotSize == room * c.quoteLotSize * FEES_SCALE_FACTOR;
    CeilWithin(lots * c.quoteLotSize * c.takerFee, room * c.quoteLotSize);
    MulOrder(0, lots, c.takerFee);
    MulOrder(0, lots * c.takerFee, c.quoteLotSize);
  }

  lemma CeilWithin(numerator: int, bound: int)
    requires 0 <= numerator <= bound * FEES_SCALE_FACTOR
    ensures CeilFeeDivision(numerator) <= bound
  {
  }

  /** The posted quote and its maker fee stay within the quote that is left. */
  lemma PostedFitsBudget(c: Config, remaining: int, posted: int)
    requires c.Ok() && remaining >= 0 && 0 <= posted <= remaining - MakerFeesCeil(c, remaining)
    ensures posted * c.quoteLotSize + MakerFeesCeil(c, posted * c.quoteLotSize) <= remaining * c.quoteLotSize
  {
    var room := remaining - posted;
    FeeBounds(c, remaining);
    assert (room + posted) * c.quoteLotSize == room * c.quoteLotSize + posted * c.quoteLotSize;
    MulOrder(0, room, c.quoteLotSize);
    if c.makerFee > 0 {
      MulOrder(posted, remaining, c.makerFee);
      MulOrder(0, posted, c.makerFee);
      CeilAtLeast(remaining * c.makerFee);
      MakerFeeOfLots(c, posted, room);
    }
  }

  lemma MakerFeeOfLots(c: Config, lots: int, room: int)
    requires c.Ok() && c.makerFee > 0 && lots >= 0 && 0 <= lots * c.makerFee <= room * FEES_SCALE_FACTOR
    ensures MakerFeesCeil(c, lots * c.quoteLotSize) <= room * c.quoteLotSize
  {
    MulOrder(lots * c.makerFee, room * FEES_SCALE_FACTOR, c.quoteLotSize);
    MulOrder(0, lots * c.makerFee, c.quoteLotSize);
    Swap(lots, c.makerFee, c.quoteLotSize);
    Swap(room, FEES_SCALE_FACTOR, c.quoteLotSize);
    CeilWithin(lots * c.quoteLotSize * c.makerFee, room * c.quoteLotSize);
  }

  lemma Swap(a: int, b: int, m: int)
    ensures a * b * m == a * m * b
  {
  }

  lemma CeilAtLeast(numerator: int)
    requires numerator >= 0
    ensures CeilFeeDivision(numerator) * FEES_SCALE_FACTOR >= numerator
  {
  }

  /** Whole lots that cover the fee. */
  lemma FeeLots(c: Config, fees: int, room: int)
    requires c.Ok() && 0 <= fees <= room * c.quoteLotSize
    ensures var lots := TruncDiv(fees + c.quoteLotSize - 1, c.quoteLotSize);
            0 <= lots <= room && fees <= lots * c.quoteLotSize
  {
    var lots := TruncDiv(fees + c.quoteLotSize - 1, c.quoteLotSize);
    assert (room + 1) * c.quoteLotSize == room * c.quoteLotSize + c.quoteLotSize;
    if lots > room {
      MulOrder(room + 1, lots, c.quoteLotSize);
    }
  }

  /** What is posted when `remaining` quote lots are left. */
  lemma PostSpends(c: Config, remaining: int, price: int, remainingBase: int)
    requires c.Ok() && remaining >= 0 && price >= 1 && remainingBase >= 0
    ensures var q := Min(remainingBase, TruncDiv(remaining - MakerFeesCeil(c, remaining), price));
            && 0 <= q <= remainingBase
            && q * price * c.quoteLotSize + MakerFeesCeil(c, q * price * c.quoteLotSize) <= remaining * c.quoteLotSize
  {
    FeeBounds(c, remaining);
    var room := remaining - MakerFeesCeil(c, remaining);
    var q := Min(remainingBase, TruncDiv(room, price));
    MulOrder(q, TruncDiv(room, price), price);
    MulOrder(0, q, price);
    PostedFitsBudget(c, remaining, q * price);
  }

  /** The fee on what a bid takes fits in the quote that it did not take. */
  lemma FeeFits(c: Config, o: Order, takenQuote: int, selfQuote: int)
    requires c.Ok() && o.side.Bid? && o.maxQuoteLotsIncludingFees >= 0
    requires 0 <= selfQuote <= takenQuote <= OrderMaxQuote(c, o)
    requires IsPostOnly(o) ==> takenQuote == 0
    ensures 0 <= TakerFees(c, takenQuote, selfQuote) <= (o.maxQuoteLotsIncludingFees - takenQuote) * c.quoteLotSize
  {
    var max := o.maxQuoteLotsIncludingFees;
    if IsPostOnly(o) {
      MulOrder(0, max, c.quoteLotSize);
    } else {
      TakerFitsBudget(c, max, takenQuote, selfQuote);
    }
  }

  /** A bid never spends more than its limit: what it takes, the taker fee, what it posts and the maker fee. */
  lemma SpendingBound(c: Config, o: Order, priceLots: int, takenQuote: int, selfQuote: int, remainingBase: int)
    requires c.Ok() && o.side.Bid? && o.maxQuoteLotsIncludingFees >= 0 && LockingPrice(o, priceLots) >= 1
    requires 0 <= selfQuote <= takenQuote <= OrderMaxQuote(c, o) && remainingBase >= 0
    requires IsPostOnly(o) ==> takenQuote == 0
    ensures var fees := TakerFees(c, takenQuote, selfQuote);
            var q := PostQuantity(c, o, priceLots, remainingBase, takenQuote, fees);
            var posted := q * LockingPrice(o, priceLots) * c.quoteLotSize;
            && 0 <= fees && 0 <= q <= remainingBase
            && takenQuote * c.quoteLotSize + fees + posted + MakerFeesCeil(c, posted)
               <= o.maxQuoteLotsIncludingFees * c.quoteLotSize
  {
    hide TakerFees, OrderMaxQuote, TruncDiv, MakerFeesCeil;
    var max, fees := o.maxQuoteLotsIncludingFees, TakerFees(c, takenQuote, selfQuote);
    FeeFits(c, o, takenQuote, selfQuote);
    FeeLots(c, fees, max - takenQuote);
    var lots := TruncDiv(fees + c.quoteLotSize - 1, c.quoteLotSize);
    PostSpends(c, max - takenQuote - lots, LockingPrice(o, priceLots), remainingBase);
    ThreeWays(takenQuote, lots, max - takenQuote - lots, c.quoteLotSize);
  }

  lemma ThreeWays(a: int, b: int, d: int, m: int)
    ensures (a + b + d) * m == a * m + b * m + d * m
  {
  }

  /** When the quote is used up nothing is posted, although divisions of negative numbers round toward zero. */
  lemma NegativePostsNothing(c: Config, remaining: int, price: int)
    requires c.Ok() && remaining <= 0 && price >= 1
    ensures TruncDiv(remaining - MakerFeesCeil(c, remaining), price) <= 0
  {
    if c.makerFee > 0 {
      MulOrder(remaining, 0, c.makerFee);
      MulOrder(0, -remaining, FEES_SCALE_FACTOR - c.makerFee);
      assert (-remaining) * (FEES_SCALE_FACTOR - c.makerFee) == (-remaining) * FEES_SCALE_FACTOR + remaining * c.makerFee;
    }
  }

  /** What is posted fits in the base and quote that the order still has. */
  lemma PostedWithinBase(c: Config, o: Order, priceLots: int, remainingBase: int, takenQuote: int, takerFees: int)
    requires c.Ok() && LockingPrice(o, priceLots) >= 1 && 0 <= takenQuote && 0 <= takerFees
    ensures var q := PostQuantity(c, o, priceLots, remainingBase, takenQuote, takerFees);
            && q <= remainingBase
            && (q > 0 ==> o.maxQuoteLotsIncludingFees > takenQuote)
  {
    var lots := TruncDiv(takerFees + c.quoteLotSize - 1, c.quoteLotSize);
    var remaining := o.maxQuoteLotsIncludingFees - takenQuote - lots;
    if remaining <= 0 {
      NegativePostsNothing(c, remaining, LockingPrice(o, priceLots));
    }
  }

  // ---------- post-only orders ----------

  /** The taker side of an order. */
  function TakerOf(o: Order, owner: Pubkey, hasAccount: bool, priceLots: int): Taker {
    Taker(o.side, owner, hasAccount, priceLots, IsPostOnly(o), o.selfTradeBehavior)
  }

  function StartBudget(c: Config, o: Order, limit: nat): Budget
    requires c.Ok()
  {
    Budget(o.maxBaseLots, OrderMaxQuote(c, o), limit, 0)
  }

  /** A post-only order that is posted took nothing, and no valid opposing order that the book shows is within its price. */
  lemma PostedPostOnlyIsUncrossed(c: Config, o: Order, owner: Pubkey, hasAccount: bool, priceLots: int, limit: nat, items: seq<Item>)
    requires c.Ok() && IsPostOnly(o) && o.maxBaseLots >= 0 && o.maxQuoteLotsIncludingFees >= 0
    requires LockingPrice(o, priceLots) >= 1
    requires ItemsOk(items) && PricesRanked(o.side.Invert(), items)
    ensures var t := TakerOf(o, owner, hasAccount, priceLots);
            var w := Walk(t, items, StartBudget(c, o, limit));
            && TakenBase(w.actions) == 0 && TakenQuote(w.actions) == 0
            && (PostedTo(o, priceLots, w.stop, PostQuantity(c, o, priceLots, w.left.base, 0, 0)).Some? ==>
                  forall i :: 0 <= i < |items| && items[i].state.Valid? ==>
                    !o.side.IsPriceWithinLimit(items[i].price, priceLots))
  {
    var t, b := TakerOf(o, owner, hasAccount, priceLots), StartBudget(c, o, limit);
    PostOnlyNeverTakes(t, items, b);
    PostedWithinBase(c, o, priceLots, Walk(t, items, b).left.base, 0, 0);
  }
}
