/** Which events a new order leaves on the heap, and which it hands to the accounts that were passed along. */
module EventOutcomes {
  import opened Types
  import opened Prices
  import opened Markets
  import opened Accounts
  import opened Ledgers
  import opened EventHeaps
  import opened BookSideModels
  import opened Matching
  import opened Posting
  import opened Exchanges
  import opened ExchangePosting
  import opened ExchangeOrders
  import opened ExchangeNewOrder
  import opened OrderLaws
  import opened BookItems
  import opened OrderOutcomes

  /** The events in order of arrival. */
  function EventsOf(heap: HeapModel): seq<Event>
    requires forall s :: s in heap.order ==> s in heap.pending
  {
    seq(|heap.order|, i requires 0 <= i < |heap.order| => heap.pending[heap.order[i]])
  }

  predicate AtHand(env: Env, p: Pubkey) { (env.hasAccount && env.owner == p) || p in env.remaining }

  /** What is left to the heap of what an order does: orders that it drops whose owners are not at hand, and fills whose
      makers were not passed along, or come after fifteen that were. */
  function Waiting(env: Env, side: Side, actions: seq<Action>, credited: nat): seq<Event> {
    if actions == [] then []
    else
      var (a, leaf) := (actions[0], actions[0].item.leaf);
      match a
      case Cancel(_) => Waiting(env, side, actions[1..], credited)
      case Drop(_) =>
        (if AtHand(env, leaf.owner) then []
         else [Out(if side.Bid? then Ask else Bid, leaf.ownerSlot, leaf.owner, leaf.quantity)])
        + Waiting(env, side, actions[1..], credited)
      case Match(item, q) =>
        if leaf.owner in env.remaining && credited < 15 then Waiting(env, side, actions[1..], credited + 1)
        else
          [Fill(side, q == leaf.quantity, leaf.ownerSlot, leaf.owner, env.owner, item.price, leaf.pegLimit, q)]
          + Waiting(env, side, actions[1..], credited)
  }

  /** More events at the end of the heap, each in a slot that was free; accounts that are not at hand are left alone. */
  ghost predicate Adds(ex: Exchange, ex': Exchange, env: Env, events: seq<Event>) {
    && ex.orders.heap.Ok() && ex'.orders.heap.Ok() && EventsOf(ex'.orders.heap) == EventsOf(ex.orders.heap) + events
    && |ex'.orders.heap.free| + |events| == |ex.orders.heap.free|
    && ex'.accounts.Keys == ex.accounts.Keys
    && forall p :: p in ex.accounts && !AtHand(env, p) ==> ex'.accounts[p] == ex.accounts[p]
  }

  lemma AddsNothing(ex: Exchange, ex': Exchange, env: Env)
    requires ex.orders.heap.Ok() && ex'.orders.heap == ex.orders.heap && ex'.accounts == ex.accounts
    ensures Adds(ex, ex', env, [])
  {
  }

  lemma AddsMore(a: Exchange, b: Exchange, c: Exchange, env: Env, x: seq<Event>, y: seq<Event>)
    requires Adds(a, b, env, x) && Adds(b, c, env, y)
    ensures Adds(a, c, env, x + y)
  {
    hide HeapModel.Ok, EventsOf, AtHand;
  }

  lemma PushAdds(ex: Exchange, env: Env, e: Event)
    requires ex.orders.heap.Ok()
    ensures PushEvent(ex, e).Ok? ==> Adds(ex, PushEvent(ex, e).value, env, [e])
  {
    var heap := ex.orders.heap;
    if !heap.IsFull() {
      PushOk(heap, e);
      var heap' := heap.Push(e);
      assert EventsOf(heap') == EventsOf(heap) + [e] by {
        forall i | 0 <= i < |heap.order|
          ensures heap'.pending[heap'.order[i]] == heap.pending[heap.order[i]]
        {
          assert heap.order[i] in heap.order && heap.free[0] in heap.free;
        }
      }
    }
  }

  lemma CancelAdds(ex: Exchange, env: Env, p: Pubkey, slot: nat, quantity: int)
    requires ex.orders.heap.Ok() && AtHand(env, p)
    ensures CancelFor(ex, p, slot, quantity).Ok? ==> Adds(ex, CancelFor(ex, p, slot, quantity).value, env, [])
  {
    hide CancelOrder, HeapModel.Ok;
  }

  lemma FillAdds(ex: Exchange, env: Env, f: Event)
    requires ex.orders.heap.Ok() && f.Fill? && f.maker in env.remaining
    ensures HandleFill(ex, f).Ok? ==> Adds(ex, HandleFill(ex, f).value, env, [])
  {
    hide ExecuteMaker, AmountsOfFill, HeapModel.Ok;
  }

  lemma OutAdds(ex: Exchange, env: Env, e: Event)
    requires ex.orders.heap.Ok() && e.Out?
    ensures ProcessOut(ex, env, e).Ok? ==> Adds(ex, ProcessOut(ex, env, e).value, env, if AtHand(env, e.owner) then [] else [e])
  {
    PushAdds(ex, env, e);
    if AtHand(env, e.owner) { CancelAdds(ex, env, e.owner, e.ownerSlot, e.quantity); }
    hide PushEvent, CancelFor, Adds;
  }

  lemma SameHeap(a: Exchange, b: Exchange, c: Exchange, env: Env, events: seq<Event>)
    requires Adds(b, c, env, events) && b.orders.heap == a.orders.heap && b.accounts == a.accounts
    ensures Adds(a, c, env, events)
  {
    hide HeapModel.Ok, EventsOf, AtHand;
  }

  lemma EventFields(env: Env, side: Side, item: Item, q: int)
    ensures FillFor(env, side, item, q) == Fill(side, q == item.leaf.quantity, item.leaf.ownerSlot, item.leaf.owner, env.owner,
                                                item.price, item.leaf.pegLimit, q)
    ensures OutOf(side, item.leaf) == Out(side, item.leaf.ownerSlot, item.leaf.owner, item.leaf.quantity)
  {
  }

  /** One action: what it adds, and whether its maker is credited at once. */
  function AddedBy(env: Env, side: Side, a: Action, credited: nat): seq<Event> {
    match a
    case Cancel(_) => []
    case Drop(item) =>
      if AtHand(env, item.leaf.owner) then [] else [Out(side.Invert(), item.leaf.ownerSlot, item.leaf.owner, item.leaf.quantity)]
    case Match(item, q) =>
      if item.leaf.owner in env.remaining && credited < 15 then []
      else [Fill(side, q == item.leaf.quantity, item.leaf.ownerSlot, item.leaf.owner, env.owner, item.price, item.leaf.pegLimit, q)]
  }

  function CreditedBy(env: Env, a: Action, credited: nat): nat {
    if a.Match? && a.item.leaf.owner in env.remaining && credited < 15 then credited + 1 else credited
  }

  lemma WaitingUnfolds(env: Env, side: Side, actions: seq<Action>, credited: nat)
    ensures Waiting(env, side, [], credited) == []
    ensures actions != [] ==>
              Waiting(env, side, actions, credited)
              == AddedBy(env, side, actions[0], credited) + Waiting(env, side, actions[1..], CreditedBy(env, actions[0], credited))
  {
  }

  lemma DropAdds(ex: Exchange, env: Env, side: Side, item: Item, credited: nat)
    requires ex.orders.heap.Ok()
    ensures var r := ApplyAction(ex, env, side, Drop(item), credited);
            r.Ok? ==> Adds(ex, r.value.0, env, AddedBy(env, side, Drop(item), credited)) && r.value.1 == credited
  {
    var ex1, e := ex.Without(side.Invert(), item.comp, item.leaf.key), OutOf(side.Invert(), item.leaf);
    OutAdds(ex1, env, e);
    var r := ProcessOut(ex1, env, e);
    hide ProcessOut, Adds;
    if r.Ok? { SameHeap(ex, ex1, r.value, env, AddedBy(env, side, Drop(item), credited)); }
  }

  lemma CancelActionAdds(ex: Exchange, env: Env, side: Side, item: Item, credited: nat)
    requires ex.orders.heap.Ok() && env.hasAccount
    ensures var r := ApplyAction(ex, env, side, Cancel(item), credited);
            r.Ok? ==> Adds(ex, r.value.0, env, []) && r.value.1 == credited
  {
    var ex1 := ex.Without(side.Invert(), item.comp, item.leaf.key);
    CancelAdds(ex1, env, env.owner, item.leaf.ownerSlot, item.leaf.quantity);
    var r := CancelFor(ex1, env.owner, item.leaf.ownerSlot, item.leaf.quantity);
    hide CancelFor, Adds;
    if r.Ok? { SameHeap(ex, ex1, r.value, env, []); }
  }

  lemma MatchAdds(ex: Exchange, env: Env, side: Side, item: Item, q: int, credited: nat)
    requires ex.orders.heap.Ok()
    ensures var r := ApplyAction(ex, env, side, Match(item, q), credited);
            r.Ok? ==> Adds(ex, r.value.0, env, AddedBy(env, side, Match(item, q), credited))
                      && r.value.1 == CreditedBy(env, Match(item, q), credited)
  {
    var opp, f := side.Invert(), FillFor(env, side, item, q);
    var ex1 := ex.(orders := ex.orders.WithBook(opp, MatchedBook(ex.orders.Book(opp), item, q)));
    EventFields(env, side, item, q);
    PushAdds(ex1, env, f);
    if f.maker in env.remaining { FillAdds(ex1, env, f); }
    hide HandleFill, PushEvent, Adds, FillFor, MatchedBook;
    var r := ApplyAction(ex, env, side, Match(item, q), credited);
    if r.Ok? { SameHeap(ex, ex1, r.value.0, env, AddedBy(env, side, Match(item, q), credited)); }
  }

  lemma {:induction false} ActionsAdd(ex: Exchange, env: Env, side: Side, actions: seq<Action>, credited: nat)
    requires ex.orders.heap.Ok() && forall i :: 0 <= i < |actions| ==> (actions[i].Cancel? ==> env.hasAccount)
    ensures var r := ApplyActions(ex, env, side, actions, credited);
            r.Ok? ==> Adds(ex, r.value.0, env, Waiting(env, side, actions, credited))
    decreases |actions|
  {
    WaitingUnfolds(env, side, actions, credited);
    if actions == [] {
      AddsNothing(ex, ex, env);
    } else {
      hide HeapModel.Ok, Adds, ApplyAction, Waiting, AddedBy, CreditedBy;
      var a, r := actions[0], ApplyAction(ex, env, side, actions[0], credited);
      ActionAdds(ex, env, side, a, credited);
      if r.Ok? {
        HeapStaysOk(ex, r.value.0, env, AddedBy(env, side, a, credited));
        ActionsAdd(r.value.0, env, side, actions[1..], r.value.1);
        var r' := ApplyActions(r.value.0, env, side, actions[1..], r.value.1);
        if r'.Ok? {
          AddsMore(ex, r.value.0, r'.value.0, env, AddedBy(env, side, a, credited), Waiting(env, side, actions[1..], r.value.1));
        }
      }
    }
  }

  lemma HeapStaysOk(ex: Exchange, ex': Exchange, env: Env, events: seq<Event>)
    requires Adds(ex, ex', env, events)
    ensures ex'.orders.heap.Ok()
  {
  }

  lemma ActionAdds(ex: Exchange, env: Env, side: Side, a: Action, credited: nat)
    requires ex.orders.heap.Ok() && (a.Cancel? ==> env.hasAccount)
    ensures var r := ApplyAction(ex, env, side, a, credited);
            r.Ok? ==> Adds(ex, r.value.0, env, AddedBy(env, side, a, credited)) && r.value.1 == CreditedBy(env, a, credited)
  {
    hide HeapModel.Ok, Adds, ApplyAction;
    match a {
      case Drop(item) => DropAdds(ex, env, side, item, credited);
      case Cancel(item) => CancelActionAdds(ex, env, side, item, credited);
      case Match(item, q) => MatchAdds(ex, env, side, item, q, credited);
    }
  }

  // ---------- the whole order ----------

  /** Orders of a side that had to leave, whose owners are not at hand. */
  ghost predicate AreEvicted(env: Env, side: Side, events: seq<Event>) {
    |events| <= 2 && forall e :: e in events ==> e.Out? && e.side == side && !AtHand(env, e.owner)
  }

  lemma SettlingAdds(p: Placed, env: Env, side: Side)
    requires p.ex.orders.heap.Ok()
    ensures SettleTaker(p, env, side).Ok? ==> Adds(p.ex, SettleTaker(p, env, side).value.ex, env, [])
  {
    hide ExecuteTaker, HeapModel.Ok;
  }

  lemma TakingAdds(ex: Exchange, env: Env, o: Order, price: int, w: Walked)
    requires ex.orders.heap.Ok() && forall i :: 0 <= i < |w.actions| ==> (w.actions[i].Cancel? ==> env.hasAccount)
    ensures var r := TakeOrder(ex, env, o, price, w);
            r.Ok? ==> Adds(ex, r.value.ex, env, Waiting(env, o.side, w.actions, 0))
  {
    hide *;
    TakeOrderIs(ex, env, o, price, w);
    var ex0, r := NextSeqNum(ex), ApplyActions(NextSeqNum(ex), env, o.side, w.actions, 0);
    NextIs(ex);
    ActionsAdd(ex0, env, o.side, w.actions, 0);
    if r.Ok? {
      var p := TakenBy(r.value.0, env, o, price, w.actions);
      var added := Waiting(env, o.side, w.actions, 0);
      TakenByFields(r.value.0, env, o, price, w.actions);
      HeapStaysOk(ex0, r.value.0, env, added);
      SettlingAdds(p, env, o.side);
      if SettleTaker(p, env, o.side).Ok? {
        SameHeap(ex, ex0, r.value.0, env, added);
        AddsMore(ex, r.value.0, SettleTaker(p, env, o.side).value.ex, env, added, []);
        assert added + [] == added;
      }
    }
  }

  lemma NextIs(ex: Exchange)
    ensures NextSeqNum(ex).orders == ex.orders && NextSeqNum(ex).accounts == ex.accounts
  {
  }

  function EvictedBy(env: Env, e: Event): seq<Event>
    requires e.Out?
  {
    if AtHand(env, e.owner) then [] else [e]
  }

  lemma EvictionAdds(ex: Exchange, env: Env, side: Side, comp: Component, leaf: LeafNode)
    requires ex.orders.heap.Ok()
    ensures OutOf(side, leaf).Out?
    ensures var r := ProcessOut(ex.Without(side, comp, leaf.key), env, OutOf(side, leaf));
            r.Ok? ==> exists events :: |events| <= 1 && AreEvicted(env, side, events) && Adds(ex, r.value, env, events)
  {
    var ex1, e := ex.Without(side, comp, leaf.key), OutOf(side, leaf);
    OutAdds(ex1, env, e);
    var r := ProcessOut(ex1, env, e);
    hide ProcessOut, Adds;
    if r.Ok? {
      SameHeap(ex, ex1, r.value, env, EvictedBy(env, e));
      assert AreEvicted(env, side, EvictedBy(env, e));
    }
  }

  lemma NoneEvicted(ex: Exchange, env: Env, side: Side)
    requires ex.orders.heap.Ok()
    ensures AreEvicted(env, side, []) && Adds(ex, ex, env, [])
  {
    AddsNothing(ex, ex, env);
  }

  lemma ExpiredAdds(ex: Exchange, env: Env, side: Side, comp: Component)
    requires ex.orders.heap.Ok()
    ensures var r := EvictExpired(ex, env, side, comp);
            r.Ok? ==> exists events :: |events| <= 1 && AreEvicted(env, side, events) && Adds(ex, r.value, env, events)
  {
    hide *;
    EvictExpiredIs(ex, env, side, comp);
    NoneEvicted(ex, env, side);
    var from := ExpiredComponent(ex.orders.Book(side), comp, env.now);
    var x := ExpiredOrder(ex.orders.Book(side).Get(from), env.now);
    if x.Some? { EvictionAdds(ex, env, side, from, x.value); }
    var none: seq<Event> := [];
    assert |none| <= 1;
  }

  lemma WorstAdds(ex: Exchange, env: Env, side: Side, price: int)
    requires ex.orders.heap.Ok()
    ensures var r := EvictWorst(ex, env, side, price);
            r.Ok? ==> exists events :: |events| <= 1 && AreEvicted(env, side, events) && Adds(ex, r.value, env, events)
  {
    hide *;
    EvictWorstIs(ex, env, side, price);
    NoneEvicted(ex, env, side);
    var x := WorstItem(ex.orders.Book(side), side, env.now, env.oracle);
    if x.Some? { EvictionAdds(ex, env, side, x.value.comp, x.value.leaf); }
    var none: seq<Event> := [];
    assert |none| <= 1;
  }

  lemma EnteringAdds(ex: Exchange, env: Env, o: Order, comp: Component, lock: int, key: nat, quantity: int)
    requires ex.orders.heap.Ok() && env.hasAccount
    ensures var r := Enter(ex, env, o, comp, lock, key, quantity); r.Ok? ==> Adds(ex, r.value, env, [])
  {
    hide Posted, BookSideModel.Insert, HeapModel.Ok;
  }

  lemma EvictedTogether(env: Env, side: Side, a: seq<Event>, b: seq<Event>)
    requires AreEvicted(env, side, a) && AreEvicted(env, side, b) && |a| <= 1 && |b| <= 1
    ensures AreEvicted(env, side, a + b)
  {
  }

  lemma PostingAdds(ex: Exchange, env: Env, o: Order, comp: Component, price: int, key: nat, quantity: int)
    requires ex.orders.heap.Ok() && env.hasAccount
    ensures var r := PostOrder(ex, env, o, comp, price, key, quantity);
            r.Ok? ==> exists events :: AreEvicted(env, o.side, events) && Adds(ex, r.value, env, events)
  {
    var r := PostOrder(ex, env, o, comp, price, key, quantity);
    hide EvictExpired, EvictWorst, Enter, LockingPrice, AreEvicted, Adds, HeapModel.Ok;
    if r.Ok? {
      var ex1 := EvictExpired(ex, env, o.side, comp).value;
      ExpiredAdds(ex, env, o.side, comp);
      var a :| |a| <= 1 && AreEvicted(env, o.side, a) && Adds(ex, ex1, env, a);
      HeapStaysOk(ex, ex1, env, a);
      var ex2 := EvictWorst(ex1, env, o.side, price).value;
      WorstAdds(ex1, env, o.side, price);
      var b :| |b| <= 1 && AreEvicted(env, o.side, b) && Adds(ex1, ex2, env, b);
      HeapStaysOk(ex1, ex2, env, b);
      EnteringAdds(ex2, env, o, comp, LockingPrice(o, price), key, quantity);
      hide PostOrder;
      EvictedTogether(env, o.side, a, b);
      AddsMore(ex, ex1, ex2, env, a, b);
      AddsMore(ex, ex2, r.value, env, a + b, []);
      assert a + b + [] == a + b;
    }
  }

  /** A new order leaves to the heap, at its end and in the order in which they happen, the events of accounts that are not at
      hand, and fills beyond the fifteenth that is credited at once; then come orders of its own side that had to make room.
      Accounts that are not at hand are not touched. */
  lemma EventsAreLeft(ex: Exchange, env: Env, o: Order, limit: nat)
    requires Succeeds(ex, env, o, limit) && ex.orders.heap.Ok()
    requires o.params.FixedOrder? || o.params.PeggedOrder? ==> env.hasAccount
    ensures var p := Outcome(ex, env, o, limit);
            exists evicted :: AreEvicted(env, o.side, evicted) && (p.orderId.None? ==> evicted == [])
              && Adds(ex, p.ex, env, Waiting(env, o.side, Deals(ex, env, o, limit), 0) + evicted)
  {
    hide *;
    var (c, w, (price, data), p) :=
      (ex.market.config, WalkFor(ex, env, o, limit), PriceFor(ex, env, o), Outcome(ex, env, o, limit));
    Accepted(ex, env, o, limit);
    Definitions(ex, env, o, limit);
    Stages(ex, env, o, limit);
    OwnCancels(ex, env, o, limit);
    TakingAdds(ex, env, o, price, w);
    NoIdYet(ex, env, o, price, w);
    var taken := TakeOrder(ex, env, o, price, w).value;
    var q := PostQuantity(c, o, price, w.left.base, TakenQuote(w.actions), taken.takerFees);
    var (key, target) := (NewNodeKey(o.side, data, ex.market.seqNum + 1), PostedTo(o, price, w.stop, q));
    PostRestIs(c, taken, env, o, price, key, target, q);
    PostedToFacts(o, price, w.stop, q);
    TargetRests(o);
    var left := Waiting(env, o.side, w.actions, 0);
    HeapStaysOk(ex, taken.ex, env, left);
    if target.Some? {
      PostingAdds(taken.ex, env, o, target.value, price, key, q);
      var evicted :| AreEvicted(env, o.side, evicted) && Adds(taken.ex, p.ex, env, evicted);
      AddsMore(ex, taken.ex, p.ex, env, left, evicted);
    } else {
      NoneEvicted(taken.ex, env, o.side);
      assert left + [] == left;
    }
  }

  lemma TargetRests(o: Order)
    ensures PostTarget(o).Some? <==> o.params.FixedOrder? || o.params.PeggedOrder?
  {
  }

  lemma OwnCancel(ex: Exchange, env: Env, o: Order, a: Action)
    requires IsRightful(ex, env, o, a)
    ensures a.Cancel? ==> env.hasAccount && IsOwn(env, a.item.leaf)
  {
    hide IsTrue, IsAlive;
  }

  // ---------- what the taker is credited ----------

  /** Nothing is given back to the taker. */
  ghost predicate NoneGivenBack(env: Env, actions: seq<Action>) {
    forall i :: 0 <= i < |actions| && IsOwn(env, actions[i].item.leaf) ==> actions[i].Match?
  }

  /** The account has the same rebates, and if nothing is given back it is the same altogether. */
  ghost predicate KeepsRebates(ex: Exchange, ex': Exchange, p: Pubkey, same: bool) {
    && p in ex.accounts && p in ex'.accounts
    && ex'.accounts[p].position.referrerRebates == ex.accounts[p].position.referrerRebates
    && (same ==> ex'.accounts[p] == ex.accounts[p])
  }

  lemma ActionKeepsRebates(ex: Exchange, env: Env, side: Side, a: Action, credited: nat)
    requires env.hasAccount && env.owner in ex.accounts
    requires a.Cancel? ==> IsOwn(env, a.item.leaf)
    ensures var r := ApplyAction(ex, env, side, a, credited);
            r.Ok? ==> KeepsRebates(ex, r.value.0, env.owner, IsOwn(env, a.item.leaf) ==> a.Match?)
  {
    hide ExecuteMaker, AmountsOfFill, MatchedBook, BookSideModel.Remove, HeapModel.Push, MakerFeesCeil;
  }

  lemma {:induction false} ActionsKeepRebates(ex: Exchange, env: Env, side: Side, actions: seq<Action>, credited: nat)
    requires env.hasAccount && env.owner in ex.accounts
    requires forall i :: 0 <= i < |actions| ==> (actions[i].Cancel? ==> IsOwn(env, actions[i].item.leaf))
    ensures var r := ApplyActions(ex, env, side, actions, credited);
            r.Ok? ==> KeepsRebates(ex, r.value.0, env.owner, NoneGivenBack(env, actions))
    decreases |actions|
  {
    if actions != [] {
      ActionKeepsRebates(ex, env, side, actions[0], credited);
      hide ApplyAction, IsOwn;
      var r := ApplyAction(ex, env, side, actions[0], credited);
      if r.Ok? {
        ActionsKeepRebates(r.value.0, env, side, actions[1..], r.value.1);
        assert NoneGivenBack(env, actions) ==> NoneGivenBack(env, actions[1..]) by {
          if NoneGivenBack(env, actions) {
            forall i | 0 <= i < |actions[1..]| && IsOwn(env, actions[1..][i].item.leaf)
              ensures actions[1..][i].Match?
            {
              assert actions[1..][i] == actions[i + 1];
            }
          }
        }
      }
    }
  }

  /** The taker's account after it has taken and before anything is posted: a bid has got the base, an ask the quote less the
      fee, and either what is left for its referrer. */
  ghost predicate IsCredited(ex: Exchange, env: Env, side: Side, taken: Placed, same: bool) {
    && env.owner in ex.accounts && env.owner in taken.ex.accounts
    && var (p, p') := (ex.accounts[env.owner].position, taken.ex.accounts[env.owner].position);
       && p'.referrerRebates == p.referrerRebates + taken.referrerAmount
       && (same ==>
             && taken.ex.accounts[env.owner].slots == ex.accounts[env.owner].slots
             && p' == p.(referrerRebates := p'.referrerRebates,
                         baseFree := p.baseFree + if side.Bid? then taken.takenBase else 0,
                         quoteFree := p.quoteFree + if side.Ask? then taken.takenQuote - taken.takerFees else 0))
  }

  lemma SettlingCredits(ex: Exchange, p: Placed, env: Env, side: Side, same: bool)
    requires env.hasAccount && KeepsRebates(ex, p.ex, env.owner, same)
    ensures SettleTaker(p, env, side).Ok? && IsCredited(ex, env, side, SettleTaker(p, env, side).value, same)
  {
  }

  lemma TakerIsCredited(ex: Exchange, env: Env, o: Order, limit: nat)
    requires Succeeds(ex, env, o, limit) && env.hasAccount && env.owner in ex.accounts
    ensures var taken := TakeOrder(ex, env, o, PriceFor(ex, env, o).0, WalkFor(ex, env, o, limit));
            taken.Ok? && IsCredited(ex, env, o.side, taken.value, NoneGivenBack(env, Deals(ex, env, o, limit)))
  {
    hide *;
    var (price, w) := (PriceFor(ex, env, o).0, WalkFor(ex, env, o, limit));
    Accepted(ex, env, o, limit);
    Definitions(ex, env, o, limit);
    Stages(ex, env, o, limit);
    TakeOrderIs(ex, env, o, price, w);
    NextIs(ex);
    OwnCancels(ex, env, o, limit);
    ActionsKeepRebates(NextSeqNum(ex), env, o.side, w.actions, 0);
    var r := ApplyActions(NextSeqNum(ex), env, o.side, w.actions, 0);
    if r.Ok? {
      var p := TakenBy(r.value.0, env, o, price, w.actions);
      TakenByFields(r.value.0, env, o, price, w.actions);
      SameStart(ex, NextSeqNum(ex), r.value.0, env.owner, NoneGivenBack(env, w.actions));
      SettlingCredits(ex, p, env, o.side, NoneGivenBack(env, w.actions));
    }
  }

  lemma SameStart(ex: Exchange, ex0: Exchange, ex': Exchange, p: Pubkey, same: bool)
    requires KeepsRebates(ex0, ex', p, same) && ex0.accounts == ex.accounts
    ensures KeepsRebates(ex, ex', p, same)
  {
  }

  /** Only orders of its own are cancelled. */
  lemma OwnCancels(ex: Exchange, env: Env, o: Order, limit: nat)
    requires Succeeds(ex, env, o, limit)
    ensures forall i :: 0 <= i < |Deals(ex, env, o, limit)| ==>
              (Deals(ex, env, o, limit)[i].Cancel? ==> env.hasAccount && IsOwn(env, Deals(ex, env, o, limit)[i].item.leaf))
  {
    hide *;
    forall i | 0 <= i < |Deals(ex, env, o, limit)|
      ensures Deals(ex, env, o, limit)[i].Cancel? ==> env.hasAccount && IsOwn(env, Deals(ex, env, o, limit)[i].item.leaf)
    {
      DealIsRightful(ex, env, o, limit, i);
      OwnCancel(ex, env, o, Deals(ex, env, o, limit)[i]);
    }
  }
}
