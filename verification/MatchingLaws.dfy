/** What the walk of a new order guarantees: priority, stopping, partial fills, fees, post-only orders. */
module MatchingLaws {
  import opened Types
  import opened Markets
  import opened Rankings
  import opened Prices
  import opened Iterations
  import opened Matching

  /** Prices get no better along the items. */
  ghost predicate PricesRanked(bookSide: Side, items: seq<Item>) {
    forall i, j :: 0 <= i < j < |items| ==> !bookSide.IsPriceBetter(items[j].price, items[i].price)
  }

  /** Merge order is price order. */
  lemma MergeOrderRanksPrices(bookSide: Side, items: seq<Item>, fixed: seq<LeafNode>, pegged: seq<LeafNode>, now: int, oracle: Option<int>)
    requires PricesPositive(items) && InMergeOrder(bookSide, items)
    requires forall i :: 0 <= i < |items| ==> ShowsOrder(items[i], bookSide, fixed, pegged, now, oracle)
    ensures PricesRanked(bookSide, items)
  {
    forall i, j | 0 <= i < j < |items|
      ensures !bookSide.IsPriceBetter(items[j].price, items[i].price)
    {
      RankKeyPrice(items[i], bookSide, fixed, pegged, now, oracle);
      RankKeyPrice(items[j], bookSide, fixed, pegged, now, oracle);
      assert !Before(bookSide, RankKey(items[j]), RankKey(items[i]));
    }
  }

  lemma RankKeyPrice(item: Item, side: Side, fixed: seq<LeafNode>, pegged: seq<LeafNode>, now: int, oracle: Option<int>)
    requires ShowsOrder(item, side, fixed, pegged, now, oracle)
    ensures item.comp.OraclePegged? ==> item.price >= 1
    ensures RankKey(item) / U64_SIZE == item.price
  {
    if item.comp.OraclePegged? {
      DivModUnique(RankKey(item), item.price, item.leaf.key % U64_SIZE);
    }
  }

  // ---------- how far the walk gets ----------

  /** The number of items that the walk deals with before it stops. */
  function Seen(t: Taker, items: seq<Item>, b: Budget): (n: nat)
    requires forall i :: 0 <= i < |items| ==> items[i].price >= 1
    ensures n <= |items|
    decreases |items|
  {
    if items == [] || b.base == 0 || b.quote == 0 then 0
    else
      var item := items[0];
      if !item.state.Valid? then 1 + Seen(t, items[1..], if b.dropped < DROP_EXPIRED_ORDER_LIMIT then b.(dropped := b.dropped + 1) else b)
      else if !t.side.IsPriceWithinLimit(item.price, t.priceLots) || t.postOnly || b.limit == 0 || TruncDiv(b.quote, item.price) == 0 then 0
      else
        var q := MatchQuantity(b, item);
        if t.IsSelf(item.leaf) && t.selfTradeBehavior.AbortTransaction? then 0
        else if t.IsSelf(item.leaf) && t.selfTradeBehavior.CancelProvide? then 1 + Seen(t, items[1..], b)
        else 1 + Seen(t, items[1..], b.(base := b.base - q, quote := b.quote - q * item.price, limit := b.limit - 1))
  }

  /** The order of an item is matched, or cancelled because it is the taker's own. */
  ghost predicate DealtWith(actions: seq<Action>, item: Item) {
    exists i :: 0 <= i < |actions| && !actions[i].Drop? && actions[i].item == item
  }

  lemma DealtWithLater(a: Action, actions: seq<Action>, item: Item)
    ensures DealtWith(actions, item) ==> DealtWith([a] + actions, item)
    ensures !a.Drop? ==> DealtWith([a] + actions, a.item)
  {
    var s := [a] + actions;
    if DealtWith(actions, item) {
      var i :| 0 <= i < |actions| && !actions[i].Drop? && actions[i].item == item;
      assert s[i + 1] == actions[i];
    }
    if !a.Drop? { assert s[0] == a; }
  }

  /** What the walk leaves undone begins at item `n`, and the reason for stopping there is a true one. */
  ghost predicate StopsRightly(t: Taker, items: seq<Item>, w: Walked, n: nat) {
    && n <= |items|
    && (w.stop.Exhausted? ==> n == |items|)
    && (w.stop.Spent? ==> w.left.base == 0 || w.left.quote == 0)
    && (w.stop.PriceLimit? || w.stop.PostOnlyBlocked? || w.stop.MatchLimit? || w.stop.BadPrice? || w.stop.SelfTrade? ==>
          n < |items| && items[n].state.Valid?)
    && (w.stop.PriceLimit? ==> !t.side.IsPriceWithinLimit(items[n].price, t.priceLots))
    && (w.stop.PostOnlyBlocked? ==> t.postOnly && t.side.IsPriceWithinLimit(items[n].price, t.priceLots))
    && (w.stop.MatchLimit? ==> w.left.limit == 0)
    && (w.stop.BadPrice? ==> w.left.quote < items[n].price)
    && (w.stop.SelfTrade? ==> t.IsSelf(items[n].leaf) && t.selfTradeBehavior.AbortTransaction?)
  }

  ghost predicate AllDealtWith(items: seq<Item>, actions: seq<Action>, n: nat) {
    n <= |items| && forall k :: 0 <= k < n && items[k].state.Valid? ==> DealtWith(actions, items[k])
  }

  lemma OneMoreDealtWith(items: seq<Item>, a: Action, actions: seq<Action>, n: nat)
    requires items != [] && AllDealtWith(items[1..], actions, n)
    requires items[0].state.Valid? ==> !a.Drop? && a.item == items[0]
    ensures AllDealtWith(items, [a] + actions, n + 1)
    ensures !items[0].state.Valid? ==> AllDealtWith(items, actions, n + 1)
  {
    hide DealtWith;
    forall k | 0 <= k < n + 1 && items[k].state.Valid?
      ensures DealtWith([a] + actions, items[k])
      ensures !items[0].state.Valid? ==> DealtWith(actions, items[k])
    {
      if k > 0 { assert items[k] == items[1..][k - 1]; }
      DealtWithLater(a, actions, items[k]);
    }
  }

  lemma StopsLater(t: Taker, items: seq<Item>, w: Walked, actions: seq<Action>, n: nat)
    requires items != [] && StopsRightly(t, items[1..], w, n)
    ensures StopsRightly(t, items, w.(actions := actions), n + 1)
  {
  }

  /** What the walk does about its first item, if it gets to it. */
  function FirstStep(t: Taker, item: Item, b: Budget): (Option<Action>, Budget)
    requires item.price >= 1
  {
    if !item.state.Valid? then
      if b.dropped < DROP_EXPIRED_ORDER_LIMIT then (Some(Drop(item)), b.(dropped := b.dropped + 1)) else (None, b)
    else if t.IsSelf(item.leaf) && t.selfTradeBehavior.CancelProvide? then (Some(Cancel(item)), b)
    else
      var q := MatchQuantity(b, item);
      (Some(Match(item, q)),
       b.(base := b.base - q, quote := b.quote - q * item.price, limit := if b.limit == 0 then 0 else b.limit - 1))
  }

  lemma WalkUnfolds(t: Taker, items: seq<Item>, b: Budget)
    requires ItemsOk(items) && BudgetOk(b) && Seen(t, items, b) > 0
    ensures items != []
    ensures var (a, b') := FirstStep(t, items[0], b);
            var w := Walk(t, items[1..], b');
            && BudgetOk(b')
            && Seen(t, items, b) == 1 + Seen(t, items[1..], b')
            && Walk(t, items, b) == w.(actions := if a.Some? then [a.value] + w.actions else w.actions)
            && (items[0].state.Valid? ==> a.Some? && !a.value.Drop? && a.value.item == items[0])
  {
    if items[0].state.Valid? {
      MatchQuantityBounds(b, items[0]);
    }
  }

  /** Price-time priority: every valid order that comes before the place where the walk stops is dealt with. */
  lemma {:induction false} NothingSkipped(t: Taker, items: seq<Item>, b: Budget)
    requires ItemsOk(items) && BudgetOk(b)
    ensures AllDealtWith(items, Walk(t, items, b).actions, Seen(t, items, b))
    ensures StopsRightly(t, items, Walk(t, items, b), Seen(t, items, b))
    decreases |items|
  {
    if Seen(t, items, b) > 0 {
      WalkUnfolds(t, items, b);
      var (a, b') := FirstStep(t, items[0], b);
      hide AllDealtWith, StopsRightly, Walk, Seen, FirstStep;
      NothingSkipped(t, items[1..], b');
      var w, n := Walk(t, items[1..], b'), Seen(t, items[1..], b');
      OneMoreDealtWith(items, if a.Some? then a.value else Drop(items[0]), w.actions, n);
      StopsLater(t, items, w, Walk(t, items, b).actions, n);
    }
  }

  // ---------- actions keep the order of the items ----------

  /** The i-th action is about item `at[i]`, in increasing order. */
  ghost predicate Indexes(items: seq<Item>, actions: seq<Action>, at: seq<nat>) {
    && |at| == |actions|
    && (forall i :: 0 <= i < |at| ==> at[i] < |items| && items[at[i]] == actions[i].item)
    && (forall i, j :: 0 <= i < j < |at| ==> at[i] < at[j])
  }

  ghost predicate InItemOrder(items: seq<Item>, actions: seq<Action>) {
    exists at: seq<nat> :: Indexes(items, actions, at)
  }

  function Shifted(at: seq<nat>): (r: seq<nat>)
    ensures |r| == |at| && forall i :: 0 <= i < |at| ==> r[i] == at[i] + 1
  {
    seq(|at|, i requires 0 <= i < |at| => at[i] + 1)
  }

  lemma SkipInItemOrder(items: seq<Item>, actions: seq<Action>)
    requires items != [] && InItemOrder(items[1..], actions)
    ensures InItemOrder(items, actions)
  {
    var at :| Indexes(items[1..], actions, at);
    assert Indexes(items, actions, Shifted(at)) by {
      forall i | 0 <= i < |at|
        ensures Shifted(at)[i] < |items| && items[Shifted(at)[i]] == actions[i].item
      {
        assert items[1..][at[i]] == actions[i].item;
      }
    }
  }

  lemma PrependInItemOrder(items: seq<Item>, a: Action, actions: seq<Action>)
    requires items != [] && a.item == items[0] && InItemOrder(items[1..], actions)
    ensures InItemOrder(items, [a] + actions)
  {
    var at :| Indexes(items[1..], actions, at);
    var at' := [0] + Shifted(at);
    assert Indexes(items, [a] + actions, at') by {
      forall i | 0 <= i < |at'|
        ensures at'[i] < |items| && items[at'[i]] == ([a] + actions)[i].item
      {
        if i > 0 { assert items[1..][at[i - 1]] == actions[i - 1].item; }
      }
    }
  }

  lemma NoneInItemOrder(items: seq<Item>)
    ensures InItemOrder(items, [])
  {
    assert Indexes(items, [], []);
  }

  /** The actions go through the items from front to back, at most one for each. */
  lemma {:induction false} ActionsFollowItems(t: Taker, items: seq<Item>, b: Budget)
    requires forall i :: 0 <= i < |items| ==> items[i].price >= 1
    ensures InItemOrder(items, Walk(t, items, b).actions)
    decreases |items|
  {
    hide InItemOrder, MatchQuantity;
    if items == [] || b.base == 0 || b.quote == 0 {
      NoneInItemOrder(items);
    } else {
      var item := items[0];
      if !item.state.Valid? {
        var b' := if b.dropped < DROP_EXPIRED_ORDER_LIMIT then b.(dropped := b.dropped + 1) else b;
        ActionsFollowItems(t, items[1..], b');
        PrependInItemOrder(items, Drop(item), Walk(t, items[1..], b').actions);
        SkipInItemOrder(items, Walk(t, items[1..], b').actions);
      } else if !t.side.IsPriceWithinLimit(item.price, t.priceLots) || t.postOnly || b.limit == 0
                || TruncDiv(b.quote, item.price) == 0 || (t.IsSelf(item.leaf) && t.selfTradeBehavior.AbortTransaction?) {
        NoneInItemOrder(items);
      } else if t.IsSelf(item.leaf) && t.selfTradeBehavior.CancelProvide? {
        ActionsFollowItems(t, items[1..], b);
        PrependInItemOrder(items, Cancel(item), Walk(t, items[1..], b).actions);
      } else {
        var q := MatchQuantity(b, item);
        var b' := b.(base := b.base - q, quote := b.quote - q * item.price, limit := b.limit - 1);
        ActionsFollowItems(t, items[1..], b');
        PrependInItemOrder(items, Match(item, q), Walk(t, items[1..], b').actions);
      }
    }
  }

  // ---------- partial fills ----------

  ghost predicate NoMatches(actions: seq<Action>) {
    forall i :: 0 <= i < |actions| ==> !actions[i].Match?
  }

  lemma NoMatchesMore(a: Action, actions: seq<Action>)
    ensures NoMatches([a] + actions) <==> !a.Match? && NoMatches(actions)
  {
    var s := [a] + actions;
    if NoMatches(s) {
      assert !s[0].Match?;
      forall i | 0 <= i < |actions| ensures !actions[i].Match? { assert s[i + 1] == actions[i]; }
    }
    if !a.Match? && NoMatches(actions) {
      forall i | 0 <= i < |s| ensures !s[i].Match? { if i > 0 { assert s[i] == actions[i - 1]; } }
    }
  }

  /** A taker that cannot pay for one lot of the next order stops there. */
  lemma PoorStops(t: Taker, items: seq<Item>, b: Budget)
    requires ItemsOk(items) && BudgetOk(b)
    requires items == [] || b.base == 0 || b.quote == 0 || (items[0].state.Valid? && b.quote < items[0].price)
    ensures Walk(t, items, b).actions == []
  {
  }

  /** What the walk does at an invalid item. */
  lemma WalkAtInvalid(t: Taker, items: seq<Item>, b: Budget)
    requires ItemsOk(items) && items != [] && !NothingLeft(b) && !items[0].state.Valid?
    ensures ItemsOk(items[1..])
    ensures Walk(t, items, b) ==
            if b.dropped < DROP_EXPIRED_ORDER_LIMIT
            then Prepend(Drop(items[0]), Walk(t, items[1..], b.(dropped := b.dropped + 1)))
            else Walk(t, items[1..], b)
  {
  }

  lemma NothingMatched()
    ensures NoMatches([])
  {
  }

  /** A taker that cannot pay for one lot of any order left matches nothing more. */
  lemma {:induction false} TooPoor(t: Taker, items: seq<Item>, b: Budget)
    requires ItemsOk(items) && BudgetOk(b)
    requires b.base == 0 || forall i :: 0 <= i < |items| ==> b.quote < items[i].price
    ensures NoMatches(Walk(t, items, b).actions)
    decreases |items|
  {
    hide Walk, NoMatches;
    if items == [] || b.base == 0 || b.quote == 0 || items[0].state.Valid? {
      PoorStops(t, items, b);
      NothingMatched();
    } else {
      WalkAtInvalid(t, items, b);
      var b' := if b.dropped < DROP_EXPIRED_ORDER_LIMIT then b.(dropped := b.dropped + 1) else b;
      TooPoor(t, items[1..], b');
      NoMatchesMore(Drop(items[0]), Walk(t, items[1..], b').actions);
    }
  }

  /** All matches but the last take the whole order. */
  ghost predicate OnlyLastPartial(actions: seq<Action>) {
    forall i, j :: 0 <= i < j < |actions| && actions[i].Match? && actions[j].Match? ==>
      actions[i].quantity == actions[i].item.leaf.quantity
  }

  lemma PrependPartial(a: Action, actions: seq<Action>)
    requires OnlyLastPartial(actions)
    requires a.Match? && a.quantity < a.item.leaf.quantity ==> NoMatches(actions)
    requires a.Match? ==> a.quantity <= a.item.leaf.quantity
    ensures OnlyLastPartial([a] + actions)
  {
    var s := [a] + actions;
    forall i, j | 0 <= i < j < |s| && s[i].Match? && s[j].Match?
      ensures s[i].quantity == s[i].item.leaf.quantity
    {
      assert s[j] == actions[j - 1];
      if i > 0 { assert s[i] == actions[i - 1]; }
    }
  }

  lemma PoorAfterPartial(t: Taker, items: seq<Item>, b: Budget)
    requires ItemsOk(items) && BudgetOk(b) && items != [] && b.base != 0 && TruncDiv(b.quote, items[0].price) != 0
    requires PricesRanked(Ask, items)
    requires MatchQuantity(b, items[0]) < items[0].leaf.quantity
    ensures var q := MatchQuantity(b, items[0]);
            b.base - q == 0 || forall i :: 0 <= i < |items[1..]| ==> b.quote - q * items[0].price < items[1..][i].price
  {
    var q := MatchQuantity(b, items[0]);
    forall i | 0 <= i < |items[1..]| && b.base - q != 0
      ensures b.quote - q * items[0].price < items[1..][i].price
    {
      assert !Ask.IsPriceBetter(items[i + 1].price, items[0].price);
      assert q == TruncDiv(b.quote, items[0].price);
    }
  }

  /** A bid fills in part at most one order, the last it matches. */
  lemma {:induction false} BidLeavesOnePartial(t: Taker, items: seq<Item>, b: Budget)
    requires ItemsOk(items) && BudgetOk(b) && t.side.Bid? && PricesRanked(Ask, items)
    ensures OnlyLastPartial(Walk(t, items, b).actions)
    decreases |items|
  {
    hide OnlyLastPartial, NoMatches;
    if items == [] || b.base == 0 || b.quote == 0 {
      NonePartial();
    } else {
      var item := items[0];
      if !item.state.Valid? {
        var b' := if b.dropped < DROP_EXPIRED_ORDER_LIMIT then b.(dropped := b.dropped + 1) else b;
        BidLeavesOnePartial(t, items[1..], b');
        PrependPartial(Drop(item), Walk(t, items[1..], b').actions);
      } else if !t.side.IsPriceWithinLimit(item.price, t.priceLots) || t.postOnly || b.limit == 0
                || TruncDiv(b.quote, item.price) == 0 || (t.IsSelf(item.leaf) && t.selfTradeBehavior.AbortTransaction?) {
        NonePartial();
      } else if t.IsSelf(item.leaf) && t.selfTradeBehavior.CancelProvide? {
        BidLeavesOnePartial(t, items[1..], b);
        PrependPartial(Cancel(item), Walk(t, items[1..], b).actions);
      } else {
        MatchQuantityBounds(b, item);
        var q := MatchQuantity(b, item);
        var b' := b.(base := b.base - q, quote := b.quote - q * item.price, limit := b.limit - 1);
        BidLeavesOnePartial(t, items[1..], b');
        if q < item.leaf.quantity {
          PoorAfterPartial(t, items, b);
          TooPoor(t, items[1..], b');
        }
        PrependPartial(Match(item, q), Walk(t, items[1..], b').actions);
      }
    }
  }

  lemma NonePartial()
    ensures OnlyLastPartial([])
  {
  }

  function SampleBid(price: nat, n: nat): Item {
    Item(Fixed, LeafNode(0, 0, price * U64_SIZE + n, Pubkey(1), 5, 0, -1, 0), price, Valid)
  }

  /** An ask limited by quote can fill several orders in part: 14 quote lots against bids at 10 and at 3. */
  lemma AskMayLeaveTwoPartial()
    ensures var items := [SampleBid(10, 1), SampleBid(3, 2)];
            var t := Taker(Ask, Pubkey(2), false, 1, false, DecrementTake);
            && PricesRanked(Bid, items) && ItemsOk(items)
            && !OnlyLastPartial(Walk(t, items, Budget(100, 14, 10, 0)).actions)
  {
    var items := [SampleBid(10, 1), SampleBid(3, 2)];
    var t := Taker(Ask, Pubkey(2), false, 1, false, DecrementTake);
    var w := Walk(t, items, Budget(100, 14, 10, 0));
    assert w.actions[0] == Match(items[0], 1);
    var rest := Walk(t, items[1..], Budget(99, 4, 9, 0));
    assert items[1..][0] == items[1] && rest.actions[0] == Match(items[1], 1);
    assert w.actions[1] == Match(items[1], 1);
  }

  // ---------- fees ----------

  lemma Distribute(a: int, b: int, m: int)
    ensures (a + b) * m == a * m + b * m
  {
  }

  /** The taker's fee covers the rebates of all its makers; without any fill but its own there are none. */
  lemma {:induction false} TakerFeeCoversRebates(c: Config, t: Taker, items: seq<Item>, actions: seq<Action>)
    requires c.Ok() && ActionsOk(t, items, actions) && ItemsOk(items)
    ensures 0 <= SelfQuote(t, actions) <= TakenQuote(actions)
    ensures 0 <= RebatesOf(c, t, actions) <= TakerFeesCeil(c, (TakenQuote(actions) - SelfQuote(t, actions)) * c.quoteLotSize)
    ensures RebatesOf(c, t, actions) <= (TakenQuote(actions) - SelfQuote(t, actions)) * c.quoteLotSize
  {
    if actions != [] {
      var a, rest := actions[0], actions[1..];
      assert ActionOk(t, items, a);
      assert ActionsOk(t, items, rest) by {
        forall i | 0 <= i < |rest| ensures ActionOk(t, items, rest[i]) { assert rest[i] == actions[i + 1]; }
      }
      TakerFeeCoversRebates(c, t, items, rest);
      FeeOnOneMore(c, t, items, a, rest);
    } else {
      FeeBounds(c, 0);
    }
  }

  lemma FeeOnOneMore(c: Config, t: Taker, items: seq<Item>, a: Action, rest: seq<Action>)
    requires c.Ok() && ActionOk(t, items, a) && ItemsOk(items)
    requires 0 <= SelfQuote(t, rest) <= TakenQuote(rest)
    requires 0 <= RebatesOf(c, t, rest) <= TakerFeesCeil(c, (TakenQuote(rest) - SelfQuote(t, rest)) * c.quoteLotSize)
    requires RebatesOf(c, t, rest) <= (TakenQuote(rest) - SelfQuote(t, rest)) * c.quoteLotSize
    ensures var actions := [a] + rest;
            && 0 <= SelfQuote(t, actions) <= TakenQuote(actions)
            && 0 <= RebatesOf(c, t, actions) <= TakerFeesCeil(c, (TakenQuote(actions) - SelfQuote(t, actions)) * c.quoteLotSize)
            && RebatesOf(c, t, actions) <= (TakenQuote(actions) - SelfQuote(t, actions)) * c.quoteLotSize
  {
    var actions := [a] + rest;
    assert actions[0] == a && actions[1..] == rest;
    var n := TakenQuote(rest) - SelfQuote(t, rest);
    MulOrder(0, n, c.quoteLotSize);
    if a.Match? {
      var quote := a.quantity * a.item.price;
      MulOrder(0, a.quantity, a.item.price);
      if !t.IsSelf(a.item.leaf) {
        MulOrder(0, quote, c.quoteLotSize);
        RebateCovered(c, quote * c.quoteLotSize, n * c.quoteLotSize);
        FeeBounds(c, quote * c.quoteLotSize);
        Distribute(quote, n, c.quoteLotSize);
      }
    }
  }

  // ---------- post-only orders ----------

  /** A post-only order never matches or cancels anything; if it may be posted, no valid order is within its price. */
  lemma {:induction false} PostOnlyNeverTakes(t: Taker, items: seq<Item>, b: Budget)
    requires ItemsOk(items) && BudgetOk(b) && t.postOnly && PricesRanked(t.side.Invert(), items)
    ensures var w := Walk(t, items, b);
            && (forall i :: 0 <= i < |w.actions| ==> w.actions[i].Drop?)
            && TakenBase(w.actions) == 0 && TakenQuote(w.actions) == 0
            && w.left.base == b.base && w.left.quote == b.quote
            && (MayPost(w.stop) && b.base != 0 && b.quote != 0 ==>
                  forall i :: 0 <= i < |items| && items[i].state.Valid? ==>
                    !t.side.IsPriceWithinLimit(items[i].price, t.priceLots))
    decreases |items|
  {
    if items != [] && b.base != 0 && b.quote != 0 {
      var item, w := items[0], Walk(t, items, b);
      if !item.state.Valid? {
        var b' := if b.dropped < DROP_EXPIRED_ORDER_LIMIT then b.(dropped := b.dropped + 1) else b;
        var tail := Walk(t, items[1..], b');
        TailRanked(t.side.Invert(), items);
        PostOnlyNeverTakes(t, items[1..], b');
        assert w.actions == tail.actions || w.actions == [Drop(item)] + tail.actions;
        forall i | 0 <= i < |items| && items[i].state.Valid?
          ensures i > 0 && items[i] == items[1..][i - 1]
        {
        }
      } else if w.stop.PriceLimit? {
        forall i | 0 <= i < |items|
          ensures !t.side.IsPriceWithinLimit(items[i].price, t.priceLots)
        {
          if i > 0 { assert !t.side.Invert().IsPriceBetter(items[i].price, items[0].price); }
        }
      }
    }
  }

  lemma TailRanked(bookSide: Side, items: seq<Item>)
    requires PricesRanked(bookSide, items) && items != []
    ensures PricesRanked(bookSide, items[1..])
  {
  }

  /** An order that slides is never blocked: its price stays clear of every valid opposing order. */
  lemma {:induction false} SlidingIsNeverBlocked(t: Taker, items: seq<Item>, b: Budget, limit: int)
    requires ItemsOk(items) && BudgetOk(b) && t.postOnly && PricesRanked(t.side.Invert(), items)
    requires BestPrice(items).Some? ==> t.priceLots == PostOnlySlideLimit(t.side, BestPrice(items).value, limit)
    ensures MayPost(Walk(t, items, b).stop)
    decreases |items|
  {
    if items != [] && b.base != 0 && b.quote != 0 && !items[0].state.Valid? {
      TailRanked(t.side.Invert(), items);
      SlidingIsNeverBlocked(t, items[1..], if b.dropped < DROP_EXPIRED_ORDER_LIMIT then b.(dropped := b.dropped + 1) else b, limit);
    }
  }
}
