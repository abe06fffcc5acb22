/** How many orders the walk drops and matches, how much of each, and which it may touch at all. */
module MatchingTerms {
  import opened Types
  import opened Matching
  import opened MatchingLaws
  import opened Prices

  function Matches(actions: seq<Action>): nat {
    if actions == [] then 0 else (if actions[0].Match? then 1 else 0) + Matches(actions[1..])
  }

  function Drops(actions: seq<Action>): nat {
    if actions == [] then 0 else (if actions[0].Drop? then 1 else 0) + Drops(actions[1..])
  }

  lemma OneMore(a: Action, rest: seq<Action>)
    ensures var s := [a] + rest;
            && TakenBase(s) == (if a.Match? then a.quantity else 0) + TakenBase(rest)
            && TakenQuote(s) == (if a.Match? then a.quantity * a.item.price else 0) + TakenQuote(rest)
            && Matches(s) == (if a.Match? then 1 else 0) + Matches(rest)
            && Drops(s) == (if a.Drop? then 1 else 0) + Drops(rest)
  {
    var s := [a] + rest;
    assert s[0] == a && s[1..] == rest;
  }

  lemma StopsAtOnce(t: Taker, items: seq<Item>, b: Budget)
    requires ItemsOk(items) && BudgetOk(b) && Seen(t, items, b) == 0
    ensures Walk(t, items, b).actions == [] && Walk(t, items, b).left == b
  {
  }

  /** What the walk does about an item that it deals with. */
  lemma StepIs(t: Taker, items: seq<Item>, b: Budget)
    requires ItemsOk(items) && BudgetOk(b) && Seen(t, items, b) > 0 && b.dropped <= 5
    ensures items != []
    ensures var (item, (a, b')) := (items[0], FirstStep(t, items[0], b));
            && (!item.state.Valid? ==>
                  a == (if b.dropped < 5 then Some(Drop(item)) else None) && b' == b.(dropped := Min(b.dropped + 1, 5)))
            && (item.state.Valid? ==>
                  && t.side.IsPriceWithinLimit(item.price, t.priceLots) && !t.postOnly && b.limit > 0
                  && a.Some? && !a.value.Drop? && a.value.item == item
                  && (a.value.Cancel? ==> b' == b)
                  && (a.value.Match? ==>
                        var q := a.value.quantity;
                        && b' == b.(base := b.base - q, quote := b.quote - q * item.price, limit := b.limit - 1)
                        && (q < item.leaf.quantity ==> b'.base == 0 || b'.quote < item.price)))
  {
    if items[0].state.Valid? {
      MatchQuantityBounds(b, items[0]);
      QuoteCuts(b, items[0]);
      hide MatchQuantity;
    }
  }

  /** A match that does not take the whole order takes all that base or quote allow. */
  lemma QuoteCuts(b: Budget, item: Item)
    requires BudgetOk(b) && item.price >= 1
    ensures var q := MatchQuantity(b, item);
            q < item.leaf.quantity ==> b.base - q == 0 || b.quote - q * item.price < item.price
  {
  }

  lemma NoneMatched()
    ensures Matches([]) == 0 && Drops([]) == 0
  {
  }

  lemma TailOk(items: seq<Item>)
    requires ItemsOk(items) && items != []
    ensures ItemsOk(items[1..])
  {
  }

  /** At most `limit` orders are matched and at most five dropped. */
  lemma {:induction false} WalkCounts(t: Taker, items: seq<Item>, b: Budget)
    requires ItemsOk(items) && BudgetOk(b) && b.dropped <= 5
    ensures var w := Walk(t, items, b);
            w.left.limit + Matches(w.actions) == b.limit && w.left.dropped == b.dropped + Drops(w.actions) <= 5
    decreases |items|
  {
    hide Walk, Seen, BudgetOk, FirstStep, Matches, Drops;
    if Seen(t, items, b) == 0 {
      StopsAtOnce(t, items, b);
      NoneMatched();
    } else {
      StepIs(t, items, b);
      WalkUnfolds(t, items, b);
      TailOk(items);
      var (a, b') := FirstStep(t, items[0], b);
      WalkCounts(t, items[1..], b');
      if a.Some? { OneMore(a.value, Walk(t, items[1..], b').actions); }
    }
  }

  /** Action `i` may touch its order, and takes less than all of it only if all base is spent, or the quote left does not buy
      another lot. */
  ghost predicate TakesEnough(t: Taker, b: Budget, actions: seq<Action>, i: nat)
    requires i < |actions|
  {
    var a := actions[i];
    && (!a.Drop? ==> t.side.IsPriceWithinLimit(a.item.price, t.priceLots) && !t.postOnly)
    && (a.Match? && a.quantity < a.item.leaf.quantity ==>
          TakenBase(actions[..i + 1]) == b.base || b.quote - TakenQuote(actions[..i + 1]) < a.item.price)
  }

  ghost predicate AllTakeEnough(t: Taker, b: Budget, actions: seq<Action>) {
    forall i :: 0 <= i < |actions| ==> TakesEnough(t, b, actions, i)
  }

  lemma PrependEnough(t: Taker, b: Budget, b': Budget, a: Action, rest: seq<Action>)
    requires AllTakeEnough(t, b', rest)
    requires !a.Drop? ==> t.side.IsPriceWithinLimit(a.item.price, t.priceLots) && !t.postOnly
    requires a.Match? ==> b'.base == b.base - a.quantity && b'.quote == b.quote - a.quantity * a.item.price
    requires !a.Match? ==> b'.base == b.base && b'.quote == b.quote
    requires a.Match? && a.quantity < a.item.leaf.quantity ==> b'.base == 0 || b'.quote < a.item.price
    ensures AllTakeEnough(t, b, [a] + rest)
  {
    var s := [a] + rest;
    forall i | 0 <= i < |s|
      ensures TakesEnough(t, b, s, i)
    {
      if i == 0 {
        assert s[..1] == [a] + [];
        OneMore(a, []);
      } else {
        assert s[..i + 1] == [a] + rest[..i] && s[i] == rest[i - 1];
        OneMore(a, rest[..i]);
        assert TakesEnough(t, b', rest, i - 1);
      }
    }
  }

  lemma NothingTaken(t: Taker, b: Budget)
    ensures AllTakeEnough(t, b, [])
  {
  }

  lemma {:induction false} WalkTakesEnough(t: Taker, items: seq<Item>, b: Budget)
    requires ItemsOk(items) && BudgetOk(b) && b.dropped <= 5
    ensures AllTakeEnough(t, b, Walk(t, items, b).actions)
    decreases |items|
  {
    hide Walk, Seen, BudgetOk, FirstStep, AllTakeEnough;
    if Seen(t, items, b) == 0 {
      StopsAtOnce(t, items, b);
      NothingTaken(t, b);
    } else {
      StepIs(t, items, b);
      WalkUnfolds(t, items, b);
      TailOk(items);
      var (a, b') := FirstStep(t, items[0], b);
      WalkTakesEnough(t, items[1..], b');
      if a.Some? {
        PrependEnough(t, b, b', a.value, Walk(t, items[1..], b').actions);
      } else {
        SameBudget(t, b, b', Walk(t, items, b).actions);
      }
    }
  }

  lemma SameBudget(t: Taker, b: Budget, b': Budget, actions: seq<Action>)
    requires AllTakeEnough(t, b', actions) && b'.base == b.base && b'.quote == b.quote
    ensures AllTakeEnough(t, b, actions)
  {
    forall i | 0 <= i < |actions| ensures TakesEnough(t, b, actions, i) { assert TakesEnough(t, b', actions, i); }
  }

  /** Up to the limit of five, every invalid order that the walk gets to is dropped. */
  ghost predicate DropsAll(items: seq<Item>, actions: seq<Action>, n: nat) {
    n <= |items| && forall k :: 0 <= k < n && !items[k].state.Valid? ==> Drop(items[k]) in actions
  }

  lemma {:induction false} WalkDropsAll(t: Taker, items: seq<Item>, b: Budget)
    requires ItemsOk(items) && BudgetOk(b) && b.dropped <= 5
    ensures var w := Walk(t, items, b); b.dropped + Drops(w.actions) < 5 ==> DropsAll(items, w.actions, Seen(t, items, b))
    decreases |items|
  {
    hide Walk, BudgetOk, FirstStep, DropsAll, Drops;
    if Seen(t, items, b) == 0 {
      StopsAtOnce(t, items, b);
      NothingToDrop(items, Walk(t, items, b).actions);
    } else {
      StepIs(t, items, b);
      WalkUnfolds(t, items, b);
      hide Seen;
      TailOk(items);
      var (a, b') := FirstStep(t, items[0], b);
      WalkDropsAll(t, items[1..], b');
      var rest, n := Walk(t, items[1..], b').actions, Seen(t, items[1..], b');
      if a.Some? {
        OneMore(a.value, rest);
        OneMoreDropped(items, a.value, rest, n);
      } else {
        WalkCounts(t, items[1..], b');
      }
    }
  }

  lemma NothingToDrop(items: seq<Item>, actions: seq<Action>)
    ensures DropsAll(items, actions, 0)
  {
  }

  lemma OneMoreDropped(items: seq<Item>, a: Action, rest: seq<Action>, n: nat)
    requires items != [] && (!items[0].state.Valid? ==> a == Drop(items[0]))
    ensures DropsAll(items[1..], rest, n) ==> DropsAll(items, [a] + rest, n + 1)
  {
    if DropsAll(items[1..], rest, n) {
      forall k | 0 <= k < n + 1 && !items[k].state.Valid?
        ensures Drop(items[k]) in [a] + rest
      {
        if k > 0 { assert items[k] == items[1..][k - 1]; }
      }
    }
  }

  /** The walk leaves the order free to be posted exactly when it has come to the end, or has nothing left to spend, or stands
      at an order beyond the price. */
  ghost predicate StopsFree(t: Taker, items: seq<Item>, left: Budget, n: nat) {
    n <= |items| && (|| n == |items| || left.base == 0 || left.quote == 0
                     || (items[n].state.Valid? && !t.side.IsPriceWithinLimit(items[n].price, t.priceLots)))
  }

  lemma {:induction false} WalkStopsFree(t: Taker, items: seq<Item>, b: Budget)
    requires ItemsOk(items) && BudgetOk(b)
    ensures var w := Walk(t, items, b); MayPost(w.stop) <==> StopsFree(t, items, w.left, Seen(t, items, b))
    decreases |items|
  {
    if Seen(t, items, b) > 0 {
      WalkUnfolds(t, items, b);
      var (_, b') := FirstStep(t, items[0], b);
      hide Walk, FirstStep, MayPost;
      WalkStopsFree(t, items[1..], b');
    }
  }

  /** The walk aborts only where it would have matched an own order. */
  lemma {:induction false} WalkAborts(t: Taker, items: seq<Item>, b: Budget)
    requires ItemsOk(items) && BudgetOk(b)
    ensures var w, n := Walk(t, items, b), Seen(t, items, b);
            w.stop.SelfTrade? ==>
              && n < |items| && items[n].state.Valid? && t.side.IsPriceWithinLimit(items[n].price, t.priceLots) && !t.postOnly
              && w.left.base > 0 && w.left.quote >= items[n].price && w.left.limit > 0
              && t.IsSelf(items[n].leaf) && t.selfTradeBehavior.AbortTransaction?
    decreases |items|
  {
    if Seen(t, items, b) > 0 {
      WalkUnfolds(t, items, b);
      var (_, b') := FirstStep(t, items[0], b);
      hide Walk, FirstStep, Taker.IsSelf;
      WalkAborts(t, items[1..], b');
    }
  }
}
