/** What a walk leaves behind on the opposing side: whether anything within the price is left, and how many orders are filled
    in part. Both are decided by the book and the budget before the walk begins. */
module Crossings {
  import opened Types
  import opened Prices
  import opened Matching
  import opened MatchingLaws

  /** What becomes of the order that an action is about. */
  function LeftOf(a: Action): Option<LeafNode> {
    if a.Match? && a.quantity != a.item.leaf.quantity
    then Some(a.item.leaf.(quantity := a.item.leaf.quantity - a.quantity)) else None
  }

  ghost predicate NoPartial(actions: seq<Action>) { forall i :: 0 <= i < |actions| ==> LeftOf(actions[i]).None? }

  ghost predicate NoneWithin(t: Taker, items: seq<Item>, n: nat) {
    forall k :: n <= k < |items| && items[k].state.Valid? ==> !t.side.IsPriceWithinLimit(items[k].price, t.priceLots)
  }

  /** No valid order is left within the price: neither one that the walk did not get to, nor one that it filled in part. */
  ghost predicate Uncrossed(t: Taker, items: seq<Item>, w: Walked, n: nat) { NoPartial(w.actions) && NoneWithin(t, items, n) }

  /** An own order that is cancelled instead of matched. */
  predicate IsCancelled(t: Taker, item: Item) { t.IsSelf(item.leaf) && t.selfTradeBehavior.CancelProvide? }

  /** The quote pays in full for every valid order within the price; own orders that are cancelled only need some to be left. */
  predicate Affords(t: Taker, items: seq<Item>, quote: int) {
    if items == [] then true
    else
      var item := items[0];
      if !item.state.Valid? || !t.side.IsPriceWithinLimit(item.price, t.priceLots) then Affords(t, items[1..], quote)
      else if IsCancelled(t, item) then quote > 0 && Affords(t, items[1..], quote)
      else
        var cost := item.price * item.leaf.quantity;
        cost <= quote && Affords(t, items[1..], quote - cost)
  }

  lemma {:induction false} AffordsBeyond(t: Taker, items: seq<Item>, quote: int)
    requires NoneWithin(t, items, 0)
    ensures Affords(t, items, quote)
  {
    if items != [] {
      forall k | 0 <= k < |items[1..]| && items[1..][k].state.Valid?
        ensures !t.side.IsPriceWithinLimit(items[1..][k].price, t.priceLots)
      {
        assert items[1..][k] == items[k + 1];
      }
      AffordsBeyond(t, items[1..], quote);
    }
  }

  /** Nothing affords nothing but a book without an order within the price. */
  lemma {:induction false} NothingAffords(t: Taker, items: seq<Item>)
    requires ItemsOk(items)
    ensures Affords(t, items, 0) <==> NoneWithin(t, items, 0)
  {
    if items != [] {
      if Affords(t, items, 0) {
        MulOrder(1, items[0].leaf.quantity, items[0].price);
        NothingAffords(t, items[1..]);
        forall k | 0 <= k < |items| && items[k].state.Valid?
          ensures !t.side.IsPriceWithinLimit(items[k].price, t.priceLots)
        {
          if k > 0 { assert items[k] == items[1..][k - 1]; }
        }
      }
      if NoneWithin(t, items, 0) { AffordsBeyond(t, items, 0); }
    }
  }

  lemma NoPartialMore(a: Action, actions: seq<Action>)
    ensures NoPartial([a] + actions) <==> LeftOf(a).None? && NoPartial(actions)
  {
    var s := [a] + actions;
    if NoPartial(s) {
      assert LeftOf(s[0]).None?;
      forall i | 0 <= i < |actions| ensures LeftOf(actions[i]).None? { assert s[i + 1] == actions[i]; }
    }
    if LeftOf(a).None? && NoPartial(actions) {
      forall i | 0 <= i < |s| ensures LeftOf(s[i]).None? { if i > 0 { assert s[i] == actions[i - 1]; } }
    }
  }

  lemma NoneWithinMore(t: Taker, items: seq<Item>, n: nat)
    requires items != []
    ensures NoneWithin(t, items, n + 1) <==> NoneWithin(t, items[1..], n)
  {
    if NoneWithin(t, items[1..], n) {
      forall k | n + 1 <= k < |items| && items[k].state.Valid?
        ensures !t.side.IsPriceWithinLimit(items[k].price, t.priceLots)
      {
        assert items[k] == items[1..][k - 1];
      }
    }
    if NoneWithin(t, items, n + 1) {
      forall k | n <= k < |items[1..]| && items[1..][k].state.Valid?
        ensures !t.side.IsPriceWithinLimit(items[1..][k].price, t.priceLots)
      {
        assert items[k + 1] == items[1..][k];
      }
    }
  }

  /** Where the walk stops without dealing with another item. */
  lemma StopsUncrossed(t: Taker, items: seq<Item>, b: Budget)
    requires ItemsOk(items) && BudgetOk(b) && PricesRanked(t.side.Invert(), items) && Seen(t, items, b) == 0
    requires MayPost(Walk(t, items, b).stop) && Walk(t, items, b).left.base > 0
    ensures Uncrossed(t, items, Walk(t, items, b), 0) <==> Affords(t, items, b.quote)
  {
    assert Walk(t, items, b).actions == [] && Walk(t, items, b).left == b;
    if items != [] {
      if b.quote == 0 {
        NothingAffords(t, items);
      } else {
        assert items[0].state.Valid? && !t.side.IsPriceWithinLimit(items[0].price, t.priceLots);
        forall k | 0 <= k < |items|
          ensures !t.side.IsPriceWithinLimit(items[k].price, t.priceLots)
        {
          if k > 0 { assert !t.side.Invert().IsPriceBetter(items[k].price, items[0].price); }
        }
        AffordsBeyond(t, items, b.quote);
      }
    }
  }

  /** Unless base runs out, an order is matched in whole exactly when quote pays for it. */
  lemma MatchedInWhole(b: Budget, item: Item)
    requires BudgetOk(b) && item.price >= 1
    ensures var q, cost := MatchQuantity(b, item), item.price * item.leaf.quantity;
            && (b.base - q > 0 ==> (q == item.leaf.quantity <==> cost <= b.quote))
            && (q == item.leaf.quantity ==> q * item.price == cost)
            && q <= item.leaf.quantity
  {
    CostInLots(b.quote, item.leaf.quantity, item.price);
    hide TruncDiv;
  }

  /** When the walk goes past its first item. */
  lemma GoesPast(t: Taker, items: seq<Item>, b: Budget)
    requires ItemsOk(items) && BudgetOk(b) && Seen(t, items, b) > 0
    ensures items != [] && b.quote > 0 && b.base > 0
    ensures items[0].state.Valid? ==>
              t.side.IsPriceWithinLimit(items[0].price, t.priceLots) && b.limit > 0 && TruncDiv(b.quote, items[0].price) != 0
    ensures var item, q := items[0], MatchQuantity(b, items[0]);
            FirstStep(t, item, b) ==
            if !item.state.Valid? then
              if b.dropped < DROP_EXPIRED_ORDER_LIMIT then (Some(Drop(item)), b.(dropped := b.dropped + 1)) else (None, b)
            else if IsCancelled(t, item) then (Some(Cancel(item)), b)
            else (Some(Match(item, q)), b.(base := b.base - q, quote := b.quote - q * item.price, limit := b.limit - 1))
  {
    hide MatchQuantity;
  }

  lemma CostInLots(quote: int, quantity: int, price: int)
    requires quote >= 0 && price >= 1
    ensures price * quantity <= quote <==> quantity <= TruncDiv(quote, price)
  {
    var m := TruncDiv(quote, price);
    if quantity <= m { MulOrder(quantity, m, price); } else { MulOrder(m + 1, quantity, price); }
  }

  /** The base that is left only gets less along the walk. */
  lemma {:induction false} BaseShrinks(t: Taker, items: seq<Item>, b: Budget)
    requires ItemsOk(items) && BudgetOk(b)
    ensures Walk(t, items, b).left.base <= b.base
    decreases |items|
  {
    if Seen(t, items, b) > 0 {
      WalkUnfolds(t, items, b);
      var (_, b') := FirstStep(t, items[0], b);
      FirstStepTakes(t, items, b);
      BaseShrinks(t, items[1..], b');
    }
  }

  lemma FirstStepTakes(t: Taker, items: seq<Item>, b: Budget)
    requires ItemsOk(items) && BudgetOk(b) && Seen(t, items, b) > 0
    ensures FirstStep(t, items[0], b).1.base <= b.base
  {
    if items[0].state.Valid? { MatchQuantityBounds(b, items[0]); }
  }

  /** An order that goes on to be posted leaves nothing within its price exactly when the budget affords every valid order
      within its price. */
  lemma {:induction false} UncrossedExactlyWhen(t: Taker, items: seq<Item>, b: Budget)
    requires ItemsOk(items) && BudgetOk(b) && PricesRanked(t.side.Invert(), items)
    requires MayPost(Walk(t, items, b).stop) && Walk(t, items, b).left.base > 0
    ensures Uncrossed(t, items, Walk(t, items, b), Seen(t, items, b)) <==> Affords(t, items, b.quote)
    decreases |items|
  {
    if Seen(t, items, b) == 0 {
      StopsUncrossed(t, items, b);
    } else {
      UncrossedStep(t, items, b);
    }
  }

  /** One order further on: it must not be left in part. */
  lemma UncrossedMore(t: Taker, items: seq<Item>, b: Budget)
    requires ItemsOk(items) && BudgetOk(b) && Seen(t, items, b) > 0
    ensures items != []
    ensures var (a, b') := FirstStep(t, items[0], b);
            var w, w' := Walk(t, items, b), Walk(t, items[1..], b');
            && BudgetOk(b') && w'.stop == w.stop && w'.left == w.left && w.left.base <= b'.base
            && (Uncrossed(t, items, w, Seen(t, items, b)) <==>
                  (a.Some? ==> LeftOf(a.value).None?) && Uncrossed(t, items[1..], w', Seen(t, items[1..], b')))
  {
    WalkUnfolds(t, items, b);
    hide Walk, Seen, FirstStep, NoPartial, NoneWithin, LeftOf, BudgetOk;
    var (a, b') := FirstStep(t, items[0], b);
    var w := Walk(t, items[1..], b');
    BaseShrinks(t, items[1..], b');
    NoneWithinMore(t, items, Seen(t, items[1..], b'));
    if a.Some? { NoPartialMore(a.value, w.actions); }
  }

  lemma AffordsMore(t: Taker, items: seq<Item>, quote: int)
    requires items != []
    ensures !items[0].state.Valid? ==> Affords(t, items, quote) == Affords(t, items[1..], quote)
    ensures items[0].state.Valid? && t.side.IsPriceWithinLimit(items[0].price, t.priceLots) ==>
              if IsCancelled(t, items[0]) then Affords(t, items, quote) == (quote > 0 && Affords(t, items[1..], quote))
              else var cost := items[0].price * items[0].leaf.quantity;
                   Affords(t, items, quote) == (cost <= quote && Affords(t, items[1..], quote - cost))
  {
    hide IsCancelled;
  }

  /** An order that is dropped, skipped or cancelled costs nothing and is not left in part. */
  lemma NotMatched(t: Taker, items: seq<Item>, b: Budget)
    requires ItemsOk(items) && BudgetOk(b) && Seen(t, items, b) > 0
    requires items != [] && (!items[0].state.Valid? || IsCancelled(t, items[0]))
    ensures var (a, b') := FirstStep(t, items[0], b);
            && b.quote > 0 && b'.quote == b.quote && (a.Some? ==> LeftOf(a.value).None?)
            && (items[0].state.Valid? ==> t.side.IsPriceWithinLimit(items[0].price, t.priceLots))
  {
    GoesPast(t, items, b);
    hide Seen, FirstStep, MatchQuantity, IsCancelled;
  }

  /** A match takes the whole order exactly when quote pays for it, as long as base is left. */
  lemma MatchedStep(t: Taker, items: seq<Item>, b: Budget)
    requires ItemsOk(items) && BudgetOk(b) && Seen(t, items, b) > 0
    requires items != [] && items[0].state.Valid? && !IsCancelled(t, items[0]) && FirstStep(t, items[0], b).1.base > 0
    ensures var (a, b') := FirstStep(t, items[0], b);
            var cost := items[0].price * items[0].leaf.quantity;
            && a.Some? && t.side.IsPriceWithinLimit(items[0].price, t.priceLots)
            && (LeftOf(a.value).None? <==> cost <= b.quote)
            && (LeftOf(a.value).None? ==> b'.quote == b.quote - cost)
  {
    GoesPast(t, items, b);
    MatchedInWhole(b, items[0]);
    hide Seen, FirstStep, MatchQuantity, IsCancelled;
  }

  lemma {:induction false} UncrossedStep(t: Taker, items: seq<Item>, b: Budget)
    requires ItemsOk(items) && BudgetOk(b) && PricesRanked(t.side.Invert(), items) && Seen(t, items, b) > 0
    requires MayPost(Walk(t, items, b).stop) && Walk(t, items, b).left.base > 0
    ensures Uncrossed(t, items, Walk(t, items, b), Seen(t, items, b)) <==> Affords(t, items, b.quote)
    decreases |items|, 0
  {
    UncrossedMore(t, items, b);
    TailRanked(t.side.Invert(), items);
    AffordsMore(t, items, b.quote);
    if items[0].state.Valid? && !IsCancelled(t, items[0]) { MatchedStep(t, items, b); } else { NotMatched(t, items, b); }
    hide *;
    UncrossedExactlyWhen(t, items[1..], FirstStep(t, items[0], b).1);
  }

  // ---------- how many orders are filled in part ----------

  /** The first valid order that is not one of the taker's own to be cancelled. */
  function NextToMatch(t: Taker, items: seq<Item>, quote: int): Option<Item> {
    if items == [] then None
    else
      var item := items[0];
      if !item.state.Valid? then NextToMatch(t, items[1..], quote)
      else if t.side.IsPriceWithinLimit(item.price, t.priceLots) && item.price <= quote
              && IsCancelled(t, item) then NextToMatch(t, items[1..], quote)
      else Some(item)
  }

  /** Nothing can be matched: nothing is left to spend, or the next order is missing, beyond the price, too dear, or an own one
      that stops the order. */
  predicate NothingToMatch(t: Taker, items: seq<Item>, b: Budget) {
    || t.postOnly || b.base == 0 || b.quote == 0 || b.limit == 0
    || var next := NextToMatch(t, items, b.quote);
       next.None? || !t.side.IsPriceWithinLimit(next.value.price, t.priceLots) || next.value.price > b.quote
       || (t.IsSelf(next.value.leaf) && t.selfTradeBehavior.AbortTransaction?)
  }

  lemma NotDivisible(quote: int, price: int)
    requires quote >= 0 && price >= 1
    ensures TruncDiv(quote, price) == 0 <==> quote < price
  {
    if quote >= price { CostInLots(quote, 1, price); }
  }

  /** The walk matches nothing exactly when nothing can be matched. */
  lemma {:induction false} MatchesNothingExactlyWhen(t: Taker, items: seq<Item>, b: Budget)
    requires ItemsOk(items) && BudgetOk(b)
    ensures NoMatches(Walk(t, items, b).actions) <==> NothingToMatch(t, items, b)
    decreases |items|
  {
    if items != [] && b.base != 0 && b.quote != 0 {
      var item := items[0];
      NotDivisible(b.quote, item.price);
      if Seen(t, items, b) > 0 {
        WalkUnfolds(t, items, b);
        var (a, b') := FirstStep(t, item, b);
        if !item.state.Valid? || (t.IsSelf(item.leaf) && t.selfTradeBehavior.CancelProvide?) {
          MatchesNothingExactlyWhen(t, items[1..], b');
        }
        if a.Some? { NoMatchesMore(a.value, Walk(t, items[1..], b').actions); }
      }
      hide NoMatches, MatchQuantity;
    }
  }

  /** Where quote, and not base, is what cuts an order short: what comes after it, and what is left to spend. */
  datatype Cut = Cut(rest: seq<Item>, left: Budget)

  /** The first order that quote cuts short, after orders that are filled in whole, cancelled or invalid. */
  function FirstCut(t: Taker, items: seq<Item>, b: Budget): Option<Cut>
    requires ItemsOk(items)
    decreases |items|
  {
    if items == [] || t.postOnly || b.base <= 0 || b.quote <= 0 then None
    else
      var item, rest := items[0], items[1..];
      if !item.state.Valid? then FirstCut(t, rest, FirstStep(t, item, b).1)
      else if !t.side.IsPriceWithinLimit(item.price, t.priceLots) || b.limit == 0 || b.quote < item.price then None
      else if t.IsSelf(item.leaf) && t.selfTradeBehavior.AbortTransaction? then None
      else if IsCancelled(t, item) then FirstCut(t, rest, b)
      else
        var lots, cost := b.quote / item.price, item.price * item.leaf.quantity;
        if cost <= b.quote
        then FirstCut(t, rest, b.(base := b.base - item.leaf.quantity, quote := b.quote - cost, limit := b.limit - 1))
        else if lots < b.base then Some(Cut(rest, b.(base := b.base - lots, quote := b.quote % item.price, limit := b.limit - 1)))
        else None
  }

  /** What the walk does behind an order that it goes past. */
  lemma CutStep(t: Taker, items: seq<Item>, b: Budget)
    requires ItemsOk(items) && BudgetOk(b) && Seen(t, items, b) > 0
    requires items[0].state.Valid? && !IsCancelled(t, items[0])
    ensures var item, b' := items[0], FirstStep(t, items[0], b).1;
            var q := MatchQuantity(b, item);
            FirstCut(t, items, b) ==
            if q == item.leaf.quantity then FirstCut(t, items[1..], b')
            else if b'.base > 0 then Some(Cut(items[1..], b'))
            else None
    ensures MatchQuantity(b, items[0]) != items[0].leaf.quantity ==> FirstStep(t, items[0], b).1.base >= 0
  {
    GoesPast(t, items, b);
    var item := items[0];
    NotDivisible(b.quote, item.price);
    MatchQuantityBounds(b, item);
    MatchedInWhole(b, item);
    Remainder(b.quote, item.price);
    hide Walk;
  }

  lemma Remainder(quote: int, price: int)
    requires quote >= 0 && price >= 1
    ensures TruncDiv(quote, price) == quote / price && quote - quote / price * price == quote % price
  {
  }

  lemma OnlyLastMore(a: Action, actions: seq<Action>)
    ensures OnlyLastPartial([a] + actions) <==>
              OnlyLastPartial(actions) && (LeftOf(a).Some? ==> NoMatches(actions))
  {
    var s := [a] + actions;
    assert s[0] == a;
    if OnlyLastPartial(s) {
      forall i, j | 0 <= i < j < |actions| && actions[i].Match? && actions[j].Match?
        ensures actions[i].quantity == actions[i].item.leaf.quantity
      {
        assert s[i + 1] == actions[i] && s[j + 1] == actions[j];
      }
      if LeftOf(a).Some? {
        forall i | 0 <= i < |actions| ensures !actions[i].Match? { assert s[i + 1] == actions[i]; }
      }
    }
    if OnlyLastPartial(actions) && (LeftOf(a).Some? ==> NoMatches(actions)) {
      forall i, j | 0 <= i < j < |s| && s[i].Match? && s[j].Match?
        ensures s[i].quantity == s[i].item.leaf.quantity
      {
        assert s[j] == actions[j - 1];
        if i > 0 { assert s[i] == actions[i - 1]; }
      }
    }
  }

  /** Nothing partial without a match. */
  lemma NoMatchesNoPartial(actions: seq<Action>)
    requires NoMatches(actions)
    ensures OnlyLastPartial(actions)
  {
  }

  lemma MatchIs(item: Item, q: int)
    ensures LeftOf(Match(item, q)).None? <==> q == item.leaf.quantity
  {
  }

  lemma SpentMatchesNothing(t: Taker, items: seq<Item>, b: Budget)
    requires b.base == 0
    ensures NothingToMatch(t, items, b)
  {
  }

  /** Where the walk deals with nothing more there is no cut. */
  lemma NoCut(t: Taker, items: seq<Item>, b: Budget)
    requires ItemsOk(items) && BudgetOk(b) && Seen(t, items, b) == 0
    ensures Walk(t, items, b).actions == [] && FirstCut(t, items, b).None? && OnlyLastPartial([])
  {
    if items != [] { NotDivisible(b.quote, items[0].price); }
  }

  /** An order that is not matched cuts nothing. */
  lemma NotCutYet(t: Taker, items: seq<Item>, b: Budget)
    requires ItemsOk(items) && BudgetOk(b) && Seen(t, items, b) > 0
    requires !items[0].state.Valid? || IsCancelled(t, items[0])
    ensures FirstCut(t, items, b) == FirstCut(t, items[1..], FirstStep(t, items[0], b).1)
    ensures FirstStep(t, items[0], b).0.Some? ==> LeftOf(FirstStep(t, items[0], b).0.value).None?
  {
    GoesPast(t, items, b);
    NotDivisible(b.quote, items[0].price);
    hide Walk, MatchQuantity;
  }

  /** A budget that affords every order within the price cuts none short. */
  lemma {:induction false} AffordedNotCut(t: Taker, items: seq<Item>, b: Budget)
    requires ItemsOk(items) && Affords(t, items, b.quote)
    ensures FirstCut(t, items, b).None?
    decreases |items|
  {
    if items != [] && b.base > 0 && b.quote > 0 {
      var item := items[0];
      if !item.state.Valid? {
        AffordedNotCut(t, items[1..], FirstStep(t, item, b).1);
      } else if t.side.IsPriceWithinLimit(item.price, t.priceLots) && b.limit > 0 && item.price <= b.quote {
        if IsCancelled(t, item) {
          AffordedNotCut(t, items[1..], b);
        } else {
          var cost := item.price * item.leaf.quantity;
          AffordedNotCut(t, items[1..], b.(base := b.base - item.leaf.quantity, quote := b.quote - cost, limit := b.limit - 1));
        }
      }
    }
  }

  /** An order that affords every order within its price leaves at most one filled in part, on either side. */
  lemma AffordedLeavesOnePartial(t: Taker, items: seq<Item>, b: Budget)
    requires ItemsOk(items) && BudgetOk(b) && Affords(t, items, b.quote)
    ensures OnlyLastPartial(Walk(t, items, b).actions)
  {
    AffordedNotCut(t, items, b);
    OnePartialExactlyWhen(t, items, b);
  }

  /** At most one order is filled in part exactly when nothing can be matched any more behind the first order that quote cuts
      short, with the quote that is then left: what remains when its quote is divided by its price. */
  lemma {:induction false} OnePartialExactlyWhen(t: Taker, items: seq<Item>, b: Budget)
    requires ItemsOk(items) && BudgetOk(b)
    ensures OnlyLastPartial(Walk(t, items, b).actions) <==>
              var cut := FirstCut(t, items, b);
              cut.None? || NothingToMatch(t, cut.value.rest, cut.value.left)
    decreases |items|
  {
    if Seen(t, items, b) == 0 {
      NoCut(t, items, b);
    } else {
      WalkUnfolds(t, items, b);
      GoesPast(t, items, b);
      hide Walk, Seen, OnlyLastPartial, NoMatches, FirstStep, MatchQuantity, NothingToMatch, TruncDiv;
      var (a, b') := FirstStep(t, items[0], b);
      var rest := Walk(t, items[1..], b').actions;
      OnePartialExactlyWhen(t, items[1..], b');
      MatchesNothingExactlyWhen(t, items[1..], b');
      if a.Some? { OnlyLastMore(a.value, rest); }
      if items[0].state.Valid? && !IsCancelled(t, items[0]) {
        CutStep(t, items, b);
        MatchIs(items[0], MatchQuantity(b, items[0]));
        if NoMatches(rest) { NoMatchesNoPartial(rest); }
        if b'.base == 0 { SpentMatchesNothing(t, items[1..], b'); }
      } else {
        NotCutYet(t, items, b);
      }
    }
  }

  // ---------- the items that the walk deals with ----------

  ghost predicate Among(items: seq<Item>, n: nat, item: Item) { exists j :: 0 <= j < n && j < |items| && items[j] == item }

  lemma AmongMore(items: seq<Item>, n: nat, item: Item)
    requires items != []
    ensures Among(items[1..], n, item) ==> Among(items, n + 1, item)
    ensures Among(items, n + 1, items[0])
  {
    if Among(items[1..], n, item) {
      var j :| 0 <= j < n && j < |items[1..]| && items[1..][j] == item;
      assert items[j + 1] == item;
    }
    assert items[0] == items[0];
  }

  /** Every action is about an item that the walk got to. */
  lemma {:induction false} ActionsBefore(t: Taker, items: seq<Item>, b: Budget)
    requires ItemsOk(items) && BudgetOk(b)
    ensures forall i :: 0 <= i < |Walk(t, items, b).actions| ==> Among(items, Seen(t, items, b), Walk(t, items, b).actions[i].item)
    decreases |items|
  {
    if Seen(t, items, b) > 0 {
      WalkUnfolds(t, items, b);
      GoesPast(t, items, b);
      var (a, b') := FirstStep(t, items[0], b);
      hide Walk, Seen, FirstStep, Among, MatchQuantity;
      ActionsBefore(t, items[1..], b');
      var rest, n := Walk(t, items[1..], b').actions, Seen(t, items[1..], b');
      forall i | 0 <= i < |Walk(t, items, b).actions|
        ensures Among(items, n + 1, Walk(t, items, b).actions[i].item)
      {
        var k := if a.Some? then i - 1 else i;
        AmongMore(items, n, if k >= 0 then rest[k].item else items[0]);
      }
    }
  }
}
