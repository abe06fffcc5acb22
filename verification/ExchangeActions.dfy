/** All actions of a walk together keep the invariant; what they make due is what the taker pays and gets. */
module ExchangeActions {
  import opened Types
  import opened Prices
  import opened Markets
  import opened Ledgers
  import opened BookSideModels
  import opened Matching
  import opened Exchanges
  import opened ExchangeInvariants
  import opened ExchangeSteps

  predicate Fits(env: Env, a: Action) {
    && (a.Cancel? ==> env.hasAccount && a.item.leaf.owner == env.owner)
    && (a.Match? ==> a.item.state.Valid? && 1 <= a.quantity <= a.item.leaf.quantity)
  }

  /** The signer of an order without an account is not itself an account. */
  predicate SignerOk(ex: Exchange, env: Env) { env.hasAccount <==> env.owner in ex.accounts }

  /** The only errors: the heap is full, or the taker's own account was passed along to be credited. */
  predicate KnownError(env: Env, e: Error) {
    e == HeapFull || (e == BorrowFailed && env.hasAccount && env.owner in env.remaining)
  }

  /** The opposing book after one action. */
  function BookAfter(m: BookSideModel, a: Action): BookSideModel {
    if a.Match? then MatchedBook(m, a.item, a.quantity) else m.Remove(a.item.comp, a.item.leaf.key)
  }

  function BookAfterAll(m: BookSideModel, actions: seq<Action>): BookSideModel
    decreases |actions|
  {
    if actions == [] then m else BookAfterAll(BookAfter(m, actions[0]), actions[1..])
  }

  /** What an action makes due. */
  function QuoteDueOf(c: Config, env: Env, opp: Side, a: Action): int {
    if a.Match? then DueQuote(c, opp, a.quantity, a.item.price, a.item.leaf.owner == env.owner) else 0
  }

  function BaseDueOf(c: Config, opp: Side, a: Action): int { if a.Match? then DueBase(c, opp, a.quantity) else 0 }

  function QuoteDue(c: Config, env: Env, opp: Side, actions: seq<Action>): int {
    if actions == [] then 0 else QuoteDueOf(c, env, opp, actions[0]) + QuoteDue(c, env, opp, actions[1..])
  }

  function BaseDue(c: Config, opp: Side, actions: seq<Action>): int {
    if actions == [] then 0 else BaseDueOf(c, opp, actions[0]) + BaseDue(c, opp, actions[1..])
  }

  /** One action: it fails only because the heap is full or the taker's own account was passed along. */
  lemma ActionStep(ex: Exchange, claims: map<ClaimId, Claim>, env: Env, side: Side, a: Action, processed: nat, dq: int, db: int)
      returns (claims': map<ClaimId, Claim>)
    requires Good(ex, claims, dq, db) && Shown(ex.orders.Book(side.Invert()), side.Invert(), a.item) && Fits(env, a)
    ensures var opp, c := side.Invert(), ex.market.config;
            var r := ApplyAction(ex, env, side, a, processed);
            && (r.Err? ==> KnownError(env, r.error))
            && (r.Ok? ==>
                  && Good(r.value.0, claims', dq + QuoteDueOf(c, env, opp, a), db + BaseDueOf(c, opp, a))
                  && SameFrame(ex, r.value.0)
                  && r.value.0.orders.Book(opp) == BookAfter(ex.orders.Book(opp), a)
                  && r.value.0.orders.Book(side) == ex.orders.Book(side))
  {
    hide *;
    DueOfActions(ex.market.config, env, side.Invert(), ex.orders.Book(side.Invert()), a);
    match a {
      case Drop(item) =>
        claims' := DropStep(ex, claims, env, side, item, processed, dq, db);
      case Cancel(item) =>
        claims' := CancelActionStep(ex, claims, env, side, item, processed, dq, db);
      case Match(item, q) =>
        claims' := MatchStep(ex, claims, env, side, item, q, processed, dq, db);
    }
  }

  lemma DueOfActions(c: Config, env: Env, opp: Side, m: BookSideModel, a: Action)
    ensures !a.Match? ==>
              QuoteDueOf(c, env, opp, a) == 0 && BaseDueOf(c, opp, a) == 0
              && BookAfter(m, a) == m.Remove(a.item.comp, a.item.leaf.key)
    ensures a.Match? ==>
              && QuoteDueOf(c, env, opp, a) == DueQuote(c, opp, a.quantity, a.item.price, a.item.leaf.owner == env.owner)
              && BaseDueOf(c, opp, a) == DueBase(c, opp, a.quantity)
              && BookAfter(m, a) == MatchedBook(m, a.item, a.quantity)
    ensures KnownError(env, HeapFull)
  {
  }

  lemma CancelActionStep(ex: Exchange, claims: map<ClaimId, Claim>, env: Env, side: Side, item: Item, processed: nat, dq: int, db: int)
      returns (claims': map<ClaimId, Claim>)
    requires Good(ex, claims, dq, db) && Shown(ex.orders.Book(side.Invert()), side.Invert(), item) && Fits(env, Cancel(item))
    ensures var opp := side.Invert();
            var r := ApplyAction(ex, env, side, Cancel(item), processed);
            && r.Ok?
            && Good(r.value.0, claims', dq, db) && SameFrame(ex, r.value.0)
            && r.value.0.orders.Book(opp) == ex.orders.Book(opp).Remove(item.comp, item.leaf.key)
            && r.value.0.orders.Book(side) == ex.orders.Book(side)
  {
    hide Good, CancelFor, SameFrame;
    CancelStep(ex, claims, side.Invert(), item.comp, item.leaf.key, dq, db);
    claims' := claims - {OnBook(side.Invert(), item.comp, item.leaf.key)};
  }

  lemma DropStep(ex: Exchange, claims: map<ClaimId, Claim>, env: Env, side: Side, item: Item, processed: nat, dq: int, db: int)
      returns (claims': map<ClaimId, Claim>)
    requires Good(ex, claims, dq, db) && Shown(ex.orders.Book(side.Invert()), side.Invert(), item)
    ensures var opp := side.Invert();
            var r := ApplyAction(ex, env, side, Drop(item), processed);
            && (r.Err? ==> r.error == HeapFull)
            && (r.Ok? ==>
                  && Good(r.value.0, claims', dq, db) && SameFrame(ex, r.value.0)
                  && r.value.0.orders.Book(opp) == ex.orders.Book(opp).Remove(item.comp, item.leaf.key)
                  && r.value.0.orders.Book(side) == ex.orders.Book(side))
  {
    hide Good, ProcessOut, SameFrame;
    claims' := OutStep(ex, claims, env, side.Invert(), item.comp, item.leaf.key, dq, db);
  }

  lemma MatchStep(ex: Exchange, claims: map<ClaimId, Claim>, env: Env, side: Side, item: Item, q: int, processed: nat, dq: int, db: int)
      returns (claims': map<ClaimId, Claim>)
    requires Good(ex, claims, dq, db) && Shown(ex.orders.Book(side.Invert()), side.Invert(), item) && Fits(env, Match(item, q))
    ensures var opp, c := side.Invert(), ex.market.config;
            var r := ApplyAction(ex, env, side, Match(item, q), processed);
            && (r.Err? ==> KnownError(env, r.error))
            && (r.Ok? ==>
                  && Good(r.value.0, claims', dq + DueQuote(c, opp, q, item.price, item.leaf.owner == env.owner), db + DueBase(c, opp, q))
                  && SameFrame(ex, r.value.0)
                  && r.value.0.orders.Book(opp) == MatchedBook(ex.orders.Book(opp), item, q)
                  && r.value.0.orders.Book(side) == ex.orders.Book(side))
  {
    hide *;
    var opp, f := side.Invert(), FillFor(env, side, item, q);
    FitsMatch(env, item, q);
    FillForIs(env, side, item, q);
    var ex1 := AfterMatched(ex, opp, item, q);
    MatchedOrders(ex, opp, item, q);
    WithBookIs(ex.orders, side, MatchedBook(ex.orders.Book(opp), item, q));
    ApplyMatchIs(ex, env, side, item, q, processed);
    PushEventIs(ex, ex1, f);
    claims' := claims;
    if processed < FILL_EVENT_REMAINING_LIMIT && item.leaf.owner in env.remaining {
      if !env.hasAccount || env.owner != item.leaf.owner {
        claims' := DirectFillStep(ex, claims, env, side, item, q, dq, db);
      }
    } else if !ex.orders.heap.IsFull() {
      claims' := PushFillStep(ex, claims, env, side, item, q, dq, db);
      SameBooksIs(ex1, PushEvent(ex1, f).value, side);
    }
  }

  lemma FitsMatch(env: Env, item: Item, q: int)
    requires Fits(env, Match(item, q))
    ensures item.state.Valid? && 1 <= q <= item.leaf.quantity
    ensures KnownError(env, HeapFull)
    ensures env.hasAccount && env.owner in env.remaining ==> KnownError(env, BorrowFailed)
  {
  }

  lemma FillForIs(env: Env, side: Side, item: Item, q: int)
    ensures FillFor(env, side, item, q).Fill? && FillFor(env, side, item, q).maker == item.leaf.owner
  {
  }

  lemma WithBookIs(o: Orders, side: Side, m: BookSideModel)
    ensures o.WithBook(side.Invert(), m).Book(side.Invert()) == m
    ensures o.WithBook(side.Invert(), m).Book(side) == o.Book(side)
  {
  }

  lemma SameBooksIs(ex: Exchange, ex': Exchange, side: Side)
    requires SameBooks(ex, ex')
    ensures ex'.orders.Book(side) == ex.orders.Book(side) && ex'.orders.Book(side.Invert()) == ex.orders.Book(side.Invert())
  {
  }

  lemma ApplyMatchIs(ex: Exchange, env: Env, side: Side, item: Item, q: int, processed: nat)
    ensures var f := FillFor(env, side, item, q);
            var ex1 := AfterMatched(ex, side.Invert(), item, q);
            var r := ApplyAction(ex, env, side, Match(item, q), processed);
            && f.Fill?
            && (processed < FILL_EVENT_REMAINING_LIMIT && item.leaf.owner in env.remaining ==>
                  if env.hasAccount && env.owner == item.leaf.owner then r == Err(BorrowFailed)
                  else (HandleFill(ex1, f).Ok? ==> r == Ok((HandleFill(ex1, f).value, processed + 1))))
            && (!(processed < FILL_EVENT_REMAINING_LIMIT && item.leaf.owner in env.remaining) ==>
                  r == if PushEvent(ex1, f).Ok? then Ok((PushEvent(ex1, f).value, processed)) else Err(PushEvent(ex1, f).error))
  {
  }

  // ---------- all actions ----------

  predicate SameOrder(a: Item, b: Item) { a.comp == b.comp && a.leaf.key == b.leaf.key }

  /** The actions are about different orders that are on the book, and can be carried out. */
  ghost predicate Doable(m: BookSideModel, opp: Side, env: Env, actions: seq<Action>) {
    && (forall i :: 0 <= i < |actions| ==> Shown(m, opp, actions[i].item) && Fits(env, actions[i]))
    && (forall i, j :: 0 <= i < j < |actions| ==> !SameOrder(actions[i].item, actions[j].item))
  }

  lemma StillDoable(m: BookSideModel, opp: Side, env: Env, actions: seq<Action>)
    requires Doable(m, opp, env, actions) && actions != []
    ensures Shown(m, opp, actions[0].item) && Fits(env, actions[0])
    ensures Doable(BookAfter(m, actions[0]), opp, env, actions[1..])
  {
    var m', rest := BookAfter(m, actions[0]), actions[1..];
    assert Shown(m, opp, actions[0].item);
    forall i | 0 <= i < |rest|
      ensures Shown(m', opp, rest[i].item) && Fits(env, rest[i])
    {
      assert rest[i] == actions[i + 1] && !SameOrder(actions[0].item, actions[i + 1].item);
      assert Shown(m, opp, actions[i + 1].item);
    }
    forall i, j | 0 <= i < j < |rest|
      ensures !SameOrder(rest[i].item, rest[j].item)
    {
      assert !SameOrder(actions[i + 1].item, actions[j + 1].item);
    }
  }

  lemma SameConfig(ex: Exchange, ex': Exchange)
    requires SameFrame(ex, ex')
    ensures ex'.market.config == ex.market.config && ex'.market.seqNum == ex.market.seqNum
    ensures ex'.accounts.Keys == ex.accounts.Keys
  {
  }

  lemma SameFrameReflexive(ex: Exchange)
    ensures SameFrame(ex, ex)
  {
  }

  /** The deferred changes of the opposing book, its events, and what they owe. */
  lemma {:induction false} ActionsKeep(ex: Exchange, claims: map<ClaimId, Claim>, env: Env, side: Side, actions: seq<Action>,
                                       processed: nat, dq: int, db: int)
      returns (claims': map<ClaimId, Claim>)
    requires Good(ex, claims, dq, db) && Doable(ex.orders.Book(side.Invert()), side.Invert(), env, actions)
    ensures var opp, c := side.Invert(), ex.market.config;
            var r := ApplyActions(ex, env, side, actions, processed);
            && (r.Err? ==> KnownError(env, r.error))
            && (r.Ok? ==>
                  && Good(r.value.0, claims', dq + QuoteDue(c, env, opp, actions), db + BaseDue(c, opp, actions))
                  && SameFrame(ex, r.value.0)
                  && r.value.0.orders.Book(opp) == BookAfterAll(ex.orders.Book(opp), actions)
                  && r.value.0.orders.Book(side) == ex.orders.Book(side))
    decreases |actions|
  {
    hide SameFrame, Good, Doable, ApplyAction, BookAfter, QuoteDueOf, BaseDueOf, Side.Invert, Orders.Book, Fits, Shown;
    claims' := claims;
    SameFrameReflexive(ex);
    if actions != [] {
      var opp, c := side.Invert(), ex.market.config;
      StillDoable(ex.orders.Book(opp), opp, env, actions);
      claims' := ActionStep(ex, claims, env, side, actions[0], processed, dq, db);
      var r := ApplyAction(ex, env, side, actions[0], processed);
      if r.Ok? {
        claims' := ActionsKeep(r.value.0, claims', env, side, actions[1..], r.value.1,
                               dq + QuoteDueOf(c, env, opp, actions[0]), db + BaseDueOf(c, opp, actions[0])) by {
          SameConfig(ex, r.value.0);
        }
        SameConfig(ex, r.value.0);
        if ApplyActions(r.value.0, env, side, actions[1..], r.value.1).Ok? {
          SameFrameTransitive(ex, r.value.0, ApplyActions(r.value.0, env, side, actions[1..], r.value.1).value.0);
        }
      }
    }
  }
}
