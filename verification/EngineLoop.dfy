/** The matching loop step by step: what it has done so far, and what is left of the walk. */
module EngineLoops {
  import opened Types
  import opened Prices
  import opened Markets
  import opened BookSideModels
  import opened BookSideCells
  import opened Trees
  import opened Iterations
  import opened Matching
  import opened MatchingLaws
  import opened Exchanges
  import opened ExchangeActions
  import opened Deferred

  // ---------- following the walk ----------

  function Joined(done: seq<Action>, w: Walked): Walked { w.(actions := done + w.actions) }

  lemma JoinedNext(done: seq<Action>, a: Action, w: Walked)
    ensures Joined(done, Prepend(a, w)) == Joined(done + [a], w)
  {
    assert done + ([a] + w.actions) == (done + [a]) + w.actions;
  }

  lemma JoinedEnd(done: seq<Action>, b: Budget, stop: Stop)
    ensures Joined(done, Walked([], b, stop)) == Walked(done, b, stop)
  {
    assert done + [] == done;
  }

  /** The reason to stop at a valid item, if there is one. */
  function StopAt(t: Taker, item: Item, b: Budget): Option<Stop>
    requires item.price >= 1
  {
    if !t.side.IsPriceWithinLimit(item.price, t.priceLots) then Some(PriceLimit)
    else if t.postOnly then Some(PostOnlyBlocked)
    else if b.limit == 0 then Some(MatchLimit)
    else if TruncDiv(b.quote, item.price) == 0 then Some(BadPrice)
    else if t.IsSelf(item.leaf) && t.selfTradeBehavior.AbortTransaction? then Some(SelfTrade)
    else None
  }

  lemma WalkAtValid(t: Taker, items: seq<Item>, b: Budget)
    requires ItemsOk(items) && items != [] && !NothingLeft(b) && items[0].state.Valid?
    ensures items[0].price >= 1 && ItemsOk(items[1..])
    ensures var item := items[0];
            match StopAt(t, item, b)
            case Some(stop) => Walk(t, items, b) == Walked([], b, stop)
            case None =>
              && b.limit > 0
              && Walk(t, items, b) ==
                 if t.IsSelf(item.leaf) && t.selfTradeBehavior.CancelProvide? then Prepend(Cancel(item), Walk(t, items[1..], b))
                 else
                   var q := MatchQuantity(b, item);
                   Prepend(Match(item, q),
                           Walk(t, items[1..], b.(base := b.base - q, quote := b.quote - q * item.price, limit := b.limit - 1)))
  {
  }

  lemma WalkAtEnd(t: Taker, items: seq<Item>, b: Budget)
    requires ItemsOk(items) && (items == [] || NothingLeft(b))
    ensures Walk(t, items, b) == Walked([], b, if items == [] then Exhausted else Spent)
  {
  }

  // ---------- what has been done so far ----------

  /** The changes that were put off, with the cells they go to. */
  ghost predicate ChangesAre(trees: Pair<Option<Tree>>, changes: seq<(nat, int)>, done: seq<Action>)
  {
    && |changes| == |Changes(done)|
    && forall i :: 0 <= i < |changes| ==>
         var x := Changes(done)[i];
         changes[i].1 == x.quantity && HandleOf(trees, x.comp, changes[i].0, x.key)
  }

  lemma {:induction false} OneMoreDeferred(done: seq<Action>, a: Action)
    ensures Changes(done + [a]) == Changes(done) + if IsChange(a) then [ChangeOf(a)] else []
    ensures Deletes(done + [a]) == Deletes(done) + if IsChange(a) then [] else [DeleteOf(a)]
  {
    if done == [] {
      assert done + [a] == [a] && [a][1..] == [];
      assert Changes([a][1..]) == [] && Deletes([a][1..]) == [];
    } else {
      assert (done + [a])[0] == done[0] && (done + [a])[1..] == done[1..] + [a];
      OneMoreDeferred(done[1..], a);
    }
  }

  lemma {:induction false} OneMoreAmount(c: Config, t: Taker, done: seq<Action>, a: Action)
    ensures SelfQuote(t, done + [a]) == SelfQuote(t, done) + SelfQuoteOf(t, a)
    ensures RebatesOf(c, t, done + [a]) == RebatesOf(c, t, done) + RebateOn(c, t, a)
  {
    hide SelfQuoteOf, RebateOn;
    if done == [] {
      assert done + [a] == [a] && [a][1..] == [];
      assert SelfQuote(t, [a][1..]) == 0 && RebatesOf(c, t, [a][1..]) == 0;
    } else {
      assert (done + [a])[0] == done[0] && (done + [a])[1..] == done[1..] + [a];
      OneMoreAmount(c, t, done[1..], a);
    }
  }

  lemma ChangesMore(trees: Pair<Option<Tree>>, changes: seq<(nat, int)>, done: seq<Action>, a: Action, handle: nat)
    requires ChangesAre(trees, changes, done)
    requires IsChange(a) ==> HandleOf(trees, a.item.comp, handle, a.item.leaf.key)
    ensures IsChange(a) ==> ChangesAre(trees, changes + [(handle, a.item.leaf.quantity - a.quantity)], done + [a])
    ensures !IsChange(a) ==> ChangesAre(trees, changes, done + [a])
  {
    OneMoreDeferred(done, a);
    hide HandleOf;
  }

  /** Where the loop is: `ex` is the market with its events handled and its opposing book still as it was. */
  ghost predicate SoFar(ex0: Exchange, ex: Exchange, env: Env, side: Side, m0: BookSideModel, done: seq<Action>, processed: nat) {
    ApplyActions(ex0, env, side, done, 0) == Ok((WithOther(ex, side.Invert(), BookAfterAll(m0, done)), processed))
  }

  lemma SoFarStart(ex: Exchange, env: Env, side: Side)
    ensures SoFar(ex, ex, env, side, ex.orders.Book(side.Invert()), [], 0)
  {
  }

  lemma SoFarNext(ex0: Exchange, ex: Exchange, env: Env, side: Side, m0: BookSideModel, done: seq<Action>, processed: nat, a: Action)
    requires SoFar(ex0, ex, env, side, m0, done, processed)
    ensures var r := Eventful(ex, env, side, a, processed);
            && (r.Ok? ==> SoFar(ex0, r.value.0, env, side, m0, done + [a], r.value.1))
            && (r.Err? ==> forall rest :: ApplyActions(ex0, env, side, done + [a] + rest, 0) == Err(r.error))
  {
    OneMoreAction(ex0, env, side, done, a, 0);
    OneMoreBook(m0, done, a);
    ActionSplits(ex, env, side, BookAfterAll(m0, done), a, processed);
    hide ApplyAction, ApplyActions, Eventful, BookAfter, BookAfterAll, WithOther;
    if Eventful(ex, env, side, a, processed).Err? {
      forall rest
        ensures ApplyActions(ex0, env, side, done + [a] + rest, 0) == Err(Eventful(ex, env, side, a, processed).error)
      {
        FailsEarly(ex0, env, side, done + [a], rest, 0);
      }
    }
  }

  /** The whole walk is what has been done and the walk over what is still to come. */
  ghost predicate OnTrack(w: Walked, t: Taker, items: seq<Item>, b: Budget, done: seq<Action>) {
    ItemsOk(items) && BudgetOk(b) && w == Joined(done, Walk(t, items, b))
  }

  lemma OnTrackStart(t: Taker, items: seq<Item>, b: Budget)
    requires ItemsOk(items) && BudgetOk(b)
    ensures OnTrack(Walk(t, items, b), t, items, b, [])
  {
    hide Walk;
    assert [] + Walk(t, items, b).actions == Walk(t, items, b).actions;
  }

  lemma OnTrackEnd(w: Walked, t: Taker, items: seq<Item>, b: Budget, done: seq<Action>)
    requires OnTrack(w, t, items, b, done) && (items == [] || NothingLeft(b))
    ensures w == Walked(done, b, w.stop) && MayPost(w.stop) && !w.stop.SelfTrade?
  {
    WalkAtEnd(t, items, b);
    hide Walk;
    JoinedEnd(done, b, if items == [] then Exhausted else Spent);
  }

  lemma OnTrackStop(w: Walked, t: Taker, items: seq<Item>, b: Budget, done: seq<Action>)
    requires OnTrack(w, t, items, b, done) && items != [] && !NothingLeft(b) && items[0].state.Valid?
    ensures items[0].price >= 1
    ensures StopAt(t, items[0], b).Some? ==> w == Walked(done, b, StopAt(t, items[0], b).value)
  {
    WalkAtValid(t, items, b);
    hide Walk;
    if StopAt(t, items[0], b).Some? { JoinedEnd(done, b, StopAt(t, items[0], b).value); }
  }

  lemma OnTrackDrop(w: Walked, t: Taker, items: seq<Item>, b: Budget, done: seq<Action>)
    requires OnTrack(w, t, items, b, done) && items != [] && !NothingLeft(b) && !items[0].state.Valid?
    ensures b.dropped < DROP_EXPIRED_ORDER_LIMIT ==>
              OnTrack(w, t, items[1..], b.(dropped := b.dropped + 1), done + [Drop(items[0])])
    ensures b.dropped >= DROP_EXPIRED_ORDER_LIMIT ==> OnTrack(w, t, items[1..], b, done)
  {
    WalkAtInvalid(t, items, b);
    hide Walk;
    JoinedNext(done, Drop(items[0]), Walk(t, items[1..], b.(dropped := b.dropped + 1)));
  }

  /** What the walk does to a valid item that it does not stop at. */
  function ActionAt(t: Taker, item: Item, b: Budget): Action
    requires item.price >= 1
  {
    if t.IsSelf(item.leaf) && t.selfTradeBehavior.CancelProvide? then Cancel(item) else Match(item, MatchQuantity(b, item))
  }

  function BudgetAfter(t: Taker, item: Item, b: Budget): Budget
    requires item.price >= 1 && b.limit > 0
  {
    if t.IsSelf(item.leaf) && t.selfTradeBehavior.CancelProvide? then b
    else
      var q := MatchQuantity(b, item);
      b.(base := b.base - q, quote := b.quote - q * item.price, limit := b.limit - 1)
  }

  lemma OnTrackTake(w: Walked, t: Taker, items: seq<Item>, b: Budget, done: seq<Action>)
    requires OnTrack(w, t, items, b, done) && items != [] && !NothingLeft(b) && items[0].state.Valid?
    requires items[0].price >= 1 && StopAt(t, items[0], b).None?
    ensures b.limit > 0
    ensures OnTrack(w, t, items[1..], BudgetAfter(t, items[0], b), done + [ActionAt(t, items[0], b)])
  {
    WalkAtValid(t, items, b);
    MatchQuantityBounds(b, items[0]);
    hide Walk, MatchQuantity;
    JoinedNext(done, ActionAt(t, items[0], b), Walk(t, items[1..], BudgetAfter(t, items[0], b)));
  }

  /** After an action fails the walk as a whole fails. */
  lemma OnTrackFails(w: Walked, t: Taker, items: seq<Item>, b: Budget, done: seq<Action>)
    requires OnTrack(w, t, items, b, done)
    ensures w.actions == done + Walk(t, items, b).actions
  {
  }

  lemma ItemsStep(side: Side, fixed: seq<LeafNode>, pegged: seq<LeafNode>, now: int, oracle: Option<int>)
    ensures Items(side, fixed, pegged, now, oracle) ==
            match Step(side, fixed, pegged, now, oracle)
            case None => []
            case Some((item, fixed', pegged')) => [item] + Items(side, fixed', pegged', now, oracle)
  {
  }

  // ---------- the loop's variables ----------

  datatype LoopState = LoopState(
    b: Budget, processed: nat, selfQuote: int, rebates: int, changes: seq<(nat, int)>, deletes: seq<Delete>)

  /** What does not change while the loop runs. */
  datatype Setting = Setting(ex: Exchange, env: Env, side: Side, t: Taker, w: Walked) {
    function M(): BookSideModel { ex.orders.Book(side.Invert()) }
  }

  ghost predicate LoopOk(k: Setting, trees: Pair<Option<Tree>>, items: seq<Item>, ex: Exchange, done: seq<Action>, s: LoopState)
  {
    && OnTrack(k.w, k.t, items, s.b, done)
    && SoFar(k.ex, ex, k.env, k.side, k.M(), done, s.processed)
    && ChangesAre(trees, s.changes, done) && s.deletes == Deletes(done)
    && s.selfQuote == SelfQuote(k.t, done) && s.rebates == RebatesOf(k.ex.market.config, k.t, done)
  }

  lemma LoopStarts(k: Setting, trees: Pair<Option<Tree>>, items: seq<Item>, b: Budget)
    requires ItemsOk(items) && BudgetOk(b) && k.w == Walk(k.t, items, b)
    ensures LoopOk(k, trees, items, k.ex, [], LoopState(b, 0, 0, 0, [], []))
  {
    OnTrackStart(k.t, items, b);
    SoFarStart(k.ex, k.env, k.side);
    hide OnTrack, SoFar, Walk;
  }

  /** One action with its events. */
  lemma LoopGoesOn(k: Setting, trees: Pair<Option<Tree>>, items: seq<Item>, items': seq<Item>, ex: Exchange, done: seq<Action>, s: LoopState,
                   a: Action, b': Budget, handle: nat)
    requires LoopOk(k, trees, items, ex, done, s) && OnTrack(k.w, k.t, items', b', done + [a])
    requires IsChange(a) ==> HandleOf(trees, a.item.comp, handle, a.item.leaf.key)
    ensures var r := Eventful(ex, k.env, k.side, a, s.processed);
            && (r.Ok? ==>
                  LoopOk(k, trees, items', r.value.0, done + [a],
                         LoopState(b', r.value.1, s.selfQuote + SelfQuoteOf(k.t, a), s.rebates + RebateOn(k.ex.market.config, k.t, a),
                                   if IsChange(a) then s.changes + [(handle, a.item.leaf.quantity - a.quantity)] else s.changes,
                                   if IsChange(a) then s.deletes else s.deletes + [DeleteOf(a)])))
            && (r.Err? ==> ApplyActions(k.ex, k.env, k.side, k.w.actions, 0) == Err(r.error))
  {
    SoFarNext(k.ex, ex, k.env, k.side, k.M(), done, s.processed, a);
    OneMoreDeferred(done, a);
    OneMoreAmount(k.ex.market.config, k.t, done, a);
    ChangesMore(trees, s.changes, done, a, handle);
    OnTrackFails(k.w, k.t, items', b', done + [a]);
    hide Eventful, OnTrack, SoFar, ChangesAre, SelfQuoteOf, RebateOn, IsChange, DeleteOf, Deletes, SelfQuote, RebatesOf, ApplyActions,
         HandleOf, Walk;
  }

  /** Dropping no more invalid orders. */
  lemma LoopSkips(k: Setting, trees: Pair<Option<Tree>>, items: seq<Item>, ex: Exchange, done: seq<Action>, s: LoopState)
    requires LoopOk(k, trees, items, ex, done, s) && items != [] && !NothingLeft(s.b) && !items[0].state.Valid?
    ensures s.b.dropped < DROP_EXPIRED_ORDER_LIMIT ==>
              OnTrack(k.w, k.t, items[1..], s.b.(dropped := s.b.dropped + 1), done + [Drop(items[0])])
    ensures s.b.dropped >= DROP_EXPIRED_ORDER_LIMIT ==> LoopOk(k, trees, items[1..], ex, done, s)
  {
    OnTrackDrop(k.w, k.t, items, s.b, done);
    hide OnTrack, SoFar, ChangesAre;
  }

  /** The loop ends here: everything that the walk does has been done. */
  ghost predicate LoopEnds(k: Setting, trees: Pair<Option<Tree>>, ex: Exchange, s: LoopState, mayPost: bool)
  {
    && (exists n :: ApplyActions(k.ex, k.env, k.side, k.w.actions, 0)
                    == Ok((WithOther(ex, k.side.Invert(), BookAfterAll(k.M(), k.w.actions)), n)))
    && !k.w.stop.SelfTrade? && s.b == k.w.left && mayPost == MayPost(k.w.stop)
    && s.selfQuote == SelfQuote(k.t, k.w.actions) && s.rebates == RebatesOf(k.ex.market.config, k.t, k.w.actions)
    && ChangesAre(trees, s.changes, k.w.actions) && s.deletes == Deletes(k.w.actions)
  }

  lemma LoopIsDone(k: Setting, trees: Pair<Option<Tree>>, items: seq<Item>, ex: Exchange, done: seq<Action>, s: LoopState)
    requires LoopOk(k, trees, items, ex, done, s) && k.w == Walked(done, s.b, k.w.stop) && !k.w.stop.SelfTrade?
    ensures LoopEnds(k, trees, ex, s, MayPost(k.w.stop))
  {
    hide ApplyActions, BookAfterAll, WithOther, OnTrack, ChangesAre, Deletes, SelfQuote, RebatesOf;
    assert ApplyActions(k.ex, k.env, k.side, k.w.actions, 0)
        == Ok((WithOther(ex, k.side.Invert(), BookAfterAll(k.M(), k.w.actions)), s.processed));
  }

  lemma LoopRunsOut(k: Setting, trees: Pair<Option<Tree>>, items: seq<Item>, ex: Exchange, done: seq<Action>, s: LoopState)
    requires LoopOk(k, trees, items, ex, done, s) && (items == [] || NothingLeft(s.b))
    ensures LoopEnds(k, trees, ex, s, true)
  {
    OnTrackEnd(k.w, k.t, items, s.b, done);
    hide OnTrack;
    LoopIsDone(k, trees, items, ex, done, s);
  }

  /** The errors of the loop: an event that cannot be handled, or a self trade that is not wanted. */
  ghost predicate LoopFails(k: Setting, e: Error) {
    var r := ApplyActions(k.ex, k.env, k.side, k.w.actions, 0);
    if r.Err? then e == r.error else k.w.stop.SelfTrade? && e == WouldSelfTrade
  }

  lemma LoopStops(k: Setting, trees: Pair<Option<Tree>>, items: seq<Item>, ex: Exchange, done: seq<Action>, s: LoopState)
    requires LoopOk(k, trees, items, ex, done, s) && items != [] && !NothingLeft(s.b) && items[0].state.Valid?
    ensures items[0].price >= 1
    ensures var stop := StopAt(k.t, items[0], s.b);
            && (stop.Some? && !stop.value.SelfTrade? ==> LoopEnds(k, trees, ex, s, stop.value.PriceLimit?))
            && (stop.Some? && stop.value.SelfTrade? ==> LoopFails(k, WouldSelfTrade))
  {
    OnTrackStop(k.w, k.t, items, s.b, done);
    var stop := StopAt(k.t, items[0], s.b);
    hide OnTrack, StopAt;
    if stop.Some? {
      if stop.value.SelfTrade? {
        SoFarIs(k, ex, done, s.processed);
      } else {
        StopKinds(k.t, items[0], s.b);
        LoopIsDone(k, trees, items, ex, done, s);
      }
    }
  }

  lemma StopKinds(t: Taker, item: Item, b: Budget)
    requires item.price >= 1
    ensures var stop := StopAt(t, item, b);
            stop.Some? ==> (MayPost(stop.value) <==> stop.value.PriceLimit?)
  {
  }

  lemma SoFarIs(k: Setting, ex: Exchange, done: seq<Action>, processed: nat)
    requires SoFar(k.ex, ex, k.env, k.side, k.M(), done, processed)
    ensures ApplyActions(k.ex, k.env, k.side, done, 0).Ok?
  {
    hide ApplyActions;
  }

  lemma LoopTakes(k: Setting, trees: Pair<Option<Tree>>, items: seq<Item>, ex: Exchange, done: seq<Action>, s: LoopState)
    requires LoopOk(k, trees, items, ex, done, s) && items != [] && !NothingLeft(s.b) && items[0].state.Valid?
    requires items[0].price >= 1 && StopAt(k.t, items[0], s.b).None?
    ensures s.b.limit > 0
    ensures OnTrack(k.w, k.t, items[1..], BudgetAfter(k.t, items[0], s.b), done + [ActionAt(k.t, items[0], s.b)])
  {
    OnTrackTake(k.w, k.t, items, s.b, done);
    hide OnTrack, StopAt, BudgetAfter, ActionAt;
  }
}
