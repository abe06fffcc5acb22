/** The matching engine at work on the arena-backed books and the linked event heap. */
module Engines {
  import opened Types
  import opened Keys
  import opened Rankings
  import opened Prices
  import opened Markets
  import opened Accounts
  import opened Ledgers
  import opened Trees
  import TreeWalks
  import opened Arenas
  import opened BookSideModels
  import opened BookSideCells
  import opened BookSides
  import opened BookSideIterators
  import opened EventHeaps
  import opened Iterations
  import opened Matching
  import opened Posting
  import opened Exchanges
  import opened ExchangeActions
  import opened ExchangeOrders
  import ExchangePosting
  import opened ExchangeNewOrder
  import opened Deferred
  import opened EngineLoops
  import opened EngineFacts

  // ---------- the deferred changes of a book ----------

  lemma ChangedNext(m: BookSideModel, xs: seq<Change>, i: nat)
    requires i < |xs|
    ensures Changed(m, xs[i..])
         == Changed(if xs[i].key in m.Get(xs[i].comp) then m.WithQuantity(xs[i].comp, xs[i].key, xs[i].quantity) else m, xs[i + 1..])
    ensures xs[|xs|..] == [] && xs[0..] == xs
  {
    assert xs[i..][0] == xs[i] && xs[i..][1..] == xs[i + 1..];
  }

  /** Writes the new quantities into their cells. */
  method ApplyChanges(book: BookSide, changes: seq<(nat, int)>, ghost xs: seq<Change>)
    requires book.Valid() && |changes| == |xs|
    requires forall i :: 0 <= i < |changes| ==> changes[i].1 == xs[i].quantity && HandleOf(book.trees, xs[i].comp, changes[i].0, xs[i].key)
    modifies book`trees, book.nodes
    ensures book.Valid() && book.Model() == Changed(old(book.Model()), xs)
  {
    hide BookSide.Valid, BookSide.Model, HandleOf, Changed;
    if |xs| > 0 { ChangedNext(book.Model(), xs, 0); }
    assert xs[0..] == xs;
    for i := 0 to |changes|
      invariant book.Valid()
      invariant Changed(book.Model(), xs[i..]) == Changed(old(book.Model()), xs)
      invariant forall j :: 0 <= j < |changes| ==> HandleOf(book.trees, xs[j].comp, changes[j].0, xs[j].key)
    {
      ChangedNext(book.Model(), xs, i);
      book.SetQuantity(changes[i].0, changes[i].1, xs[i].comp, xs[i].key);
    }
    NothingChanged(book.Model(), xs[|xs|..]);
  }

  lemma NothingChanged(m: BookSideModel, xs: seq<Change>)
    requires xs == []
    ensures Changed(m, xs) == m
  {
  }

  lemma DeletedNext(m: BookSideModel, xs: seq<Delete>, i: nat)
    requires i < |xs|
    ensures Deleted(m, xs[i..]) == Deleted(m.Remove(xs[i].comp, xs[i].key), xs[i + 1..])
    ensures AllThere(m, [], xs[i..]) ==> xs[i].key in m.Get(xs[i].comp) && AllThere(m.Remove(xs[i].comp, xs[i].key), [], xs[i + 1..])
  {
    assert xs[i..][0] == xs[i] && xs[i..][1..] == xs[i + 1..];
    if AllThere(m, [], xs[i..]) { AllThereNext(m, xs[i..]); }
  }

  lemma NothingDeleted(m: BookSideModel, xs: seq<Delete>)
    requires xs == []
    ensures Deleted(m, xs) == m
  {
  }

  /** Removes the orders; none of them is missing. */
  method ApplyDeletes(book: BookSide, deletes: seq<Delete>)
    requires book.Valid() && AllThere(book.Model(), [], deletes)
    modifies book, book.nodes
    ensures book.Valid() && book.Model() == Deleted(old(book.Model()), deletes)
  {
    hide BookSide.Valid, BookSide.Model, AllThere, Deleted;
    assert deletes[0..] == deletes;
    for i := 0 to |deletes|
      invariant book.Valid()
      invariant AllThere(book.Model(), [], deletes[i..])
      invariant Deleted(book.Model(), deletes[i..]) == Deleted(old(book.Model()), deletes)
    {
      DeletedNext(book.Model(), deletes, i);
      book.KeysAreMatched(deletes[i].comp);
      var removed := book.RemoveByKey(deletes[i].comp, deletes[i].key);
      assert removed.Some?;
    }
    NothingDeleted(book.Model(), deletes[|deletes|..]);
  }

  class Engine {
    const bids: BookSide
    const asks: BookSide
    const heap: EventHeap
    var market: Market
    var accounts: map<Pubkey, Account>

    ghost predicate Valid()
      reads this, bids, bids.nodes, asks, asks.nodes, heap, heap.nodes
    {
      && bids != asks && bids.nodes != asks.nodes
      && bids.side == Bid && asks.side == Ask
      && bids.Valid() && asks.Valid() && heap.Valid()
    }

    ghost function OrdersModel(): Orders
      reads bids, bids.nodes, asks, asks.nodes, heap, heap.nodes
    {
      Orders(bids.Model(), asks.Model(), heap.Model())
    }

    ghost function State(): Exchange
      reads this, bids, bids.nodes, asks, asks.nodes, heap, heap.nodes
    {
      Exchange(market, accounts, OrdersModel())
    }

    constructor (c: Config, bookCapacity: nat, heapCapacity: nat)
      requires 1 <= bookCapacity <= U32_MAX && 1 <= heapCapacity < NO_NODE
      ensures Valid() && State() == NewMarket(c, bookCapacity, heapCapacity)
      ensures fresh(bids) && fresh(bids.nodes) && fresh(asks) && fresh(asks.nodes) && fresh(heap) && fresh(heap.nodes)
    {
      hide BookSide.Valid, BookSide.Model, EventHeap.Valid, EventHeap.Model;
      bids := new BookSide(Bid, bookCapacity);
      asks := new BookSide(Ask, bookCapacity);
      heap := new EventHeap(heapCapacity);
      market := Market(c, 0, 0, 0, 0, 0);
      accounts := map[];
    }

    /** The market as another engine holds it now, in memory of its own. */
    constructor Copy(from: Engine)
      requires from.Valid()
      ensures Valid() && State() == from.State()
      ensures fresh(this) && fresh(bids) && fresh(bids.nodes) && fresh(asks) && fresh(asks.nodes) && fresh(heap) && fresh(heap.nodes)
    {
      hide BookSide.Valid, BookSide.Model, EventHeap.Valid, EventHeap.Model;
      bids := new BookSide.Copy(from.bids);
      asks := new BookSide.Copy(from.asks);
      heap := new EventHeap.Copy(from.heap);
      market, accounts := from.market, from.accounts;
    }

    function Book(side: Side): BookSide { if side.Bid? then bids else asks }

    lemma MarketIs()
      ensures State().market == market && State().accounts == accounts
    {
    }

    /** Leaves an event to the heap. */
    method Push(e: Event) returns (error: Option<Error>)
      requires Valid()
      modifies heap, heap.nodes
      ensures Valid()
      ensures match PushEvent(old(State()), e)
              case Ok(ex) => error == None && State() == ex
              case Err(err) => error == Some(err) && State() == old(State())
    {
      hide BookSide.Valid, BookSide.Model, EventHeap.Valid, EventHeap.Model;
      if heap.IsFull() {
        return Some(HeapFull);
      }
      heap.PushBack(e);
      return None;
    }

    /** Cancels an order in its owner's account. */
    method CancelIn(p: Pubkey, slot: nat, quantity: int) returns (error: Option<Error>)
      modifies this`accounts
      ensures match CancelFor(old(State()), p, slot, quantity)
              case Ok(ex) => error == None && State() == ex
              case Err(err) => error == Some(err) && State() == old(State())
    {
      hide BookSide.Model, EventHeap.Model;
      if p !in accounts {
        return Some(AccountMissing);
      }
      var a := accounts[p];
      if slot >= |a.slots| || a.slots[slot].isFree {
        return Some(AssertionFailed);
      }
      accounts := accounts[p := CancelOrder(market.config, a, slot, quantity)];
      return None;
    }

    method ProcessOutEvent(env: Env, e: Event) returns (error: Option<Error>)
      requires Valid() && e.Out?
      modifies this`accounts, heap, heap.nodes
      ensures Valid()
      ensures match ProcessOut(old(State()), env, e)
              case Ok(ex) => error == None && State() == ex
              case Err(err) => error == Some(err) && State() == old(State())
    {
      hide BookSide.Valid, BookSide.Model, EventHeap.Valid, EventHeap.Model, CancelFor, PushEvent;
      if (env.hasAccount && env.owner == e.owner) || e.owner in env.remaining {
        error := CancelIn(e.owner, e.ownerSlot, e.quantity);
      } else {
        error := Push(e);
      }
    }

    /** Credits the maker of a fill. */
    method CreditMaker(f: Event) returns (error: Option<Error>)
      requires f.Fill?
      modifies this`accounts, this`market
      ensures match HandleFill(old(State()), f)
              case Ok(ex) => error == None && State() == ex
              case Err(err) => error == Some(err) && State() == old(State())
    {
      hide BookSide.Model, EventHeap.Model, ExecuteMaker, AmountsOfFill;
      if f.maker !in accounts {
        return Some(AccountMissing);
      }
      var a := accounts[f.maker];
      if f.makerSlot >= |a.slots| || (f.makerOut && a.slots[f.makerSlot].isFree) {
        return Some(AssertionFailed);
      }
      accounts := accounts[f.maker := ExecuteMaker(market.config, a, f)];
      market := market.(referrerRebatesAccrued := market.referrerRebatesAccrued + AmountsOfFill(market.config, f).makerFees);
      return None;
    }

    method ProcessFillEvent(env: Env, f: Event, processed: nat) returns (error: Option<Error>, processed': nat)
      requires Valid() && f.Fill?
      modifies this`accounts, this`market, heap, heap.nodes
      ensures Valid()
      ensures match ProcessFill(old(State()), env, f, processed)
              case Ok((ex, n)) => error == None && State() == ex && processed' == n
              case Err(err) => error == Some(err)
    {
      hide BookSide.Valid, BookSide.Model, EventHeap.Valid, EventHeap.Model, HandleFill, PushEvent;
      processed' := processed;
      if processed < FILL_EVENT_REMAINING_LIMIT && f.maker in env.remaining {
        if env.hasAccount && env.owner == f.maker {
          return Some(BorrowFailed), processed;
        }
        error := CreditMaker(f);
        processed' := processed + 1;
      } else {
        error := Push(f);
      }
    }

    /** Handles the events of one action; the opposing book is left alone. */
    method HandleAction(env: Env, side: Side, a: Action, processed: nat) returns (error: Option<Error>, processed': nat)
      requires Valid()
      modifies this`accounts, this`market, heap, heap.nodes
      ensures Valid()
      ensures match Eventful(old(State()), env, side, a, processed)
              case Ok((ex, n)) => error == None && State() == ex && processed' == n
              case Err(err) => error == Some(err)
    {
      hide BookSide.Valid, BookSide.Model, EventHeap.Valid, EventHeap.Model, ProcessOut, CancelFor, ProcessFill;
      processed' := processed;
      match a {
        case Drop(item) =>
          error := ProcessOutEvent(env, OutOf(side.Invert(), item.leaf));
        case Cancel(item) =>
          error := CancelIn(env.owner, item.leaf.ownerSlot, item.leaf.quantity);
        case Match(item, q) =>
          error, processed' := ProcessFillEvent(env, FillFor(env, side, item, q), processed);
      }
    }

    /** The matching loop's dealings with one order of the opposing book: go on, or stop. Nothing is done to the book yet. */
    method MatchOne(o: Order, item: Item, handle: nat, s: LoopState, env: Env, t: Taker,
                    ghost k: Setting, ghost items: seq<Item>, ghost done: seq<Action>)
        returns (v: Verdict, s': LoopState, ghost done': seq<Action>)
      requires Valid() && k.env == env && k.side == o.side && k.t == t && market.config == k.ex.market.config
      requires LoopOk(k, Book(o.side.Invert()).trees, items, State(), done, s) && items != [] && items[0] == item
      requires t == TakerOf(o, env.owner, env.hasAccount, t.priceLots)
      requires HandleOf(Book(o.side.Invert()).trees, item.comp, handle, item.leaf.key)
      modifies this`accounts, this`market, heap, heap.nodes
      ensures Valid() && (!v.Fails? ==> market.config == old(market.config))
      ensures match v
              case GoesOn => LoopOk(k, Book(o.side.Invert()).trees, items[1..], State(), done', s')
              case Stops(mayPost) => LoopEnds(k, Book(o.side.Invert()).trees, State(), s', mayPost)
              case Fails(e) => LoopFails(k, e)
    {
      hide *;
      done', s' := done, s;
      var b, c := s.b, market.config;
      SpentIs(b);
      TakerOfIs(o, env, t.priceLots);
      if b.base == 0 || b.quote == 0 {
        LoopRunsOut(k, Book(o.side.Invert()).trees, items, State(), done, s);
        return Stops(true), s, done;
      }
      if !item.state.Valid? {
        LoopSkips(k, Book(o.side.Invert()).trees, items, State(), done, s);
        if b.dropped < DROP_EXPIRED_ORDER_LIMIT {
          IsChangeIs(Drop(item));
          v, s', done' := TakeAction(o, Drop(item), 0, s, b.(dropped := b.dropped + 1), env, t, k, items, done);
          return;
        }
        return GoesOn, s, done;
      }
      LoopStops(k, Book(o.side.Invert()).trees, items, State(), done, s);
      StopAtIs(t, item, b);
      if !o.side.IsPriceWithinLimit(item.price, t.priceLots) {
        return Stops(true), s, done;
      }
      if t.postOnly {
        return Stops(false), s, done;
      }
      if b.limit == 0 {
        return Stops(false), s, done;
      }
      var maxMatchByQuote := TruncDiv(b.quote, item.price);
      if maxMatchByQuote == 0 {
        return Stops(false), s, done;
      }
      var matchBase := Min(Min(b.base, item.leaf.quantity), maxMatchByQuote);
      var matchQuote := matchBase * item.price;
      if env.hasAccount && env.owner == item.leaf.owner {
        match o.selfTradeBehavior {
          case DecrementTake =>
          case CancelProvide =>
            LoopTakes(k, Book(o.side.Invert()).trees, items, State(), done, s);
            ActionAtIs(t, item, b);
            v, s', done' := TakeAction(o, Cancel(item), 0, s, b, env, t, k, items, done);
            return;
          case AbortTransaction =>
            return Fails(WouldSelfTrade), s, done;
        }
      }
      LoopTakes(k, Book(o.side.Invert()).trees, items, State(), done, s);
      ActionAtIs(t, item, b);
      v, s', done' := TakeAction(o, Match(item, matchBase), handle, s,
                                 b.(base := b.base - matchBase, quote := b.quote - matchQuote, limit := b.limit - 1),
                                 env, t, k, items, done);
    }

    /** The next order of the opposing book. */
    method NextItem(iter: BookSideIter, ghost items: seq<Item>) returns (r: Option<(Item, nat)>)
      requires iter.Valid() && iter.HandlesAreRight() && iter.ToCome() == items
      modifies iter.fixedIter, iter.oraclePeggedIter
      ensures iter.Valid() && iter.HandlesAreRight()
      ensures items == [] <==> r.None?
      ensures items != [] ==>
                && r.value.0 == items[0] && iter.ToCome() == items[1..]
                && HandleOf(iter.book.trees, items[0].comp, r.value.1, items[0].leaf.key)
    {
      hide Items, Step, HandleOf, StackHolds, BookSideIterators.Pending;
      ItemsStep(iter.book.side, TreeWalks.Leaves(iter.fixedIter.rest), TreeWalks.Leaves(iter.oraclePeggedIter.rest), iter.now, iter.oracle);
      r := iter.Next();
    }

    /** The matching loop: one order after the other, from the best on. */
    method MatchOrders(env: Env, o: Order, t: Taker, b: Budget, ghost k: Setting)
        returns (error: Option<Error>, r: LoopState, mayPost: bool)
      requires Valid() && k.ex == State() && k.env == env && k.side == o.side && k.t == t
      requires t == TakerOf(o, env.owner, env.hasAccount, t.priceLots) && BudgetOk(b)
      requires var items := ItemsOf(State(), o.side.Invert(), env.now, env.oracle);
               ItemsOk(items) && k.w == Walk(t, items, b)
      modifies this`accounts, this`market, heap, heap.nodes
      ensures Valid()
      ensures if error.Some? then LoopFails(k, error.value)
              else
                && LoopEnds(k, Book(o.side.Invert()).trees, State(), r, mayPost)
                && State().market.config == k.ex.market.config
                && State().orders.Book(o.side.Invert()) == k.ex.orders.Book(o.side.Invert())
    {
      var book := Book(o.side.Invert());
      OtherBook(o.side.Invert());
      hide *;
      MarketIs();
      var iter := StartIter(o.side.Invert(), env);
      ghost var items, done := iter.ToCome(), [];
      r := LoopState(b, 0, 0, 0, [], []);
      mayPost := true;
      LoopStarts(k, Book(o.side.Invert()).trees, items, b);
      StartsAt(iter, o, k, items, r);
      while true
        invariant fresh(iter.fixedIter) && fresh(iter.oraclePeggedIter)
        invariant At(iter, o, k, items, done, r) && market.config == old(market.config)
        invariant book.Model() == old(book.Model())
        decreases |items|
      {
        var v;
        v, r, done := Advance(o, iter, r, env, t, k, items, done);
        if v.Stops? {
          OtherBook(o.side.Invert());
          MarketIs();
          return None, r, v.mayPost;
        }
        if v.Fails? {
          return Some(v.error), r, false;
        }
        items := items[1..];
      }
    }

    /** The loop is about to look at the first of `items`. */
    ghost predicate At(iter: BookSideIter, o: Order, k: Setting, items: seq<Item>, done: seq<Action>, s: LoopState)
      reads this, bids, bids.nodes, asks, asks.nodes, heap, heap.nodes
      reads iter, iter.fixedIter, iter.oraclePeggedIter, iter.book, iter.book.nodes
    {
      && Valid() && market.config == k.ex.market.config
      && iter.Valid() && iter.HandlesAreRight() && iter.ToCome() == items && iter.book == Book(o.side.Invert())
      && LoopOk(k, Book(o.side.Invert()).trees, items, State(), done, s)
    }

    lemma StartsAt(iter: BookSideIter, o: Order, k: Setting, items: seq<Item>, s: LoopState)
      requires Valid() && k.ex == State()
      requires iter.Valid() && iter.HandlesAreRight() && iter.ToCome() == items && iter.book == Book(o.side.Invert())
      requires LoopOk(k, Book(o.side.Invert()).trees, items, State(), [], s)
      ensures At(iter, o, k, items, [], s)
    {
    }

    /** The next order, and what the loop does about it. */
    method Advance(o: Order, iter: BookSideIter, s: LoopState, env: Env, t: Taker,
                   ghost k: Setting, ghost items: seq<Item>, ghost done: seq<Action>)
        returns (v: Verdict, s': LoopState, ghost done': seq<Action>)
      requires At(iter, o, k, items, done, s)
      requires k.env == env && k.side == o.side && k.t == t && t == TakerOf(o, env.owner, env.hasAccount, t.priceLots)
      modifies this`accounts, this`market, heap, heap.nodes, iter.fixedIter, iter.oraclePeggedIter
      ensures Valid() && (!v.Fails? ==> market.config == old(market.config))
      ensures match v
              case GoesOn => items != [] && At(iter, o, k, items[1..], done', s')
              case Stops(mayPost) => LoopEnds(k, Book(o.side.Invert()).trees, State(), s', mayPost)
              case Fails(e) => LoopFails(k, e)
    {
      hide BookSide.Valid, BookSide.Model, EventHeap.Valid, EventHeap.Model, BookSideIter.Valid, BookSideIter.ToCome,
           BookSideIter.HandlesAreRight, LoopOk, LoopEnds, LoopFails, HandleOf, TakerOf;
      var next := NextItem(iter, items);
      if next.None? {
        LoopRunsOut(k, Book(o.side.Invert()).trees, items, State(), done, s);
        return Stops(true), s, done;
      }
      v, s', done' := MatchOne(o, next.value.0, next.value.1, s, env, t, k, items, done);
    }

    /** An iterator over the opposing book. */
    method StartIter(side: Side, env: Env) returns (iter: BookSideIter)
      requires Valid()
      ensures iter.Valid() && iter.HandlesAreRight() && iter.book == Book(side)
      ensures fresh(iter) && fresh(iter.fixedIter) && fresh(iter.oraclePeggedIter)
      ensures iter.ToCome() == ItemsOf(State(), side, env.now, env.oracle)
    {
      hide Items, Ranked, HandleOf, StackHolds, BookSideIterators.Pending, BookSide.Valid, BookSide.Model, BookSideIter.Valid,
           BookSideIter.ToCome, BookSideIter.HandlesAreRight, EventHeap.Valid, EventHeap.Model;
      iter := new BookSideIter(Book(side), env.now, env.oracle);
    }

    /** Carries out one action: its events at once, its change of the book later. */
    method TakeAction(o: Order, a: Action, handle: nat, s: LoopState, b': Budget, env: Env, t: Taker,
                      ghost k: Setting, ghost items: seq<Item>, ghost done: seq<Action>)
        returns (v: Verdict, s': LoopState, ghost done': seq<Action>)
      requires Valid() && k.env == env && k.side == o.side && k.t == t && market.config == k.ex.market.config
      requires LoopOk(k, Book(o.side.Invert()).trees, items, State(), done, s) && items != []
      requires OnTrack(k.w, t, items[1..], b', done + [a])
      requires IsChange(a) ==> HandleOf(Book(o.side.Invert()).trees, a.item.comp, handle, a.item.leaf.key)
      modifies this`accounts, this`market, heap, heap.nodes
      ensures Valid() && (!v.Fails? ==> market.config == old(market.config))
      ensures !v.Stops?
      ensures match v
              case GoesOn => LoopOk(k, Book(o.side.Invert()).trees, items[1..], State(), done', s')
              case Stops(mayPost) => true
              case Fails(e) => LoopFails(k, e)
    {
      hide *;
      done', s' := done, s;
      var c, book := market.config, Book(o.side.Invert());
      LoopGoesOn(k, Book(o.side.Invert()).trees, items, items[1..], State(), done, s, a, b', handle);
      EventfulConfig(State(), env, o.side, a, s.processed);
      IsChangeIs(a);
      MarketIs();
      var error, processed := HandleAction(env, o.side, a, s.processed);
      if error.Some? {
        FailsWith(k, error.value);
        return Fails(error.value), s, done;
      }
      MarketIs();
      done' := done + [a];
      s' := LoopState(b', processed, s.selfQuote + SelfQuoteOf(t, a), s.rebates + RebateOn(c, t, a),
                      if IsChange(a) then s.changes + [(handle, a.item.leaf.quantity - a.quantity)] else s.changes,
                      if IsChange(a) then s.deletes else s.deletes + [DeleteOf(a)]);
      assert book.trees == old(book.trees);
      v := GoesOn;
    }

    // ---------- after the loop ----------

    lemma OtherBook(side: Side)
      ensures State().orders.Book(side) == Book(side).Model()
    {
    }

    /** Brings the opposing book up to date: changes first, then deletes. */
    method ApplyDeferred(side: Side, env: Env, s: LoopState, ghost actions: seq<Action>)
      requires Valid() && Doable(Book(side).Model(), side, env, actions)
      requires ChangesAre(Book(side).trees, s.changes, actions) && s.deletes == Deletes(actions)
      modifies Book(side), Book(side).nodes
      ensures Valid() && State() == WithOther(old(State()), side, BookAfterAll(old(Book(side).Model()), actions))
    {
      hide BookSide.Valid, BookSide.Model, EventHeap.Valid, EventHeap.Model, Doable, BookAfterAll, Deletes, Changes, Changed, Deleted,
           AllThere, HandleOf;
      var book := Book(side);
      NothingMissing(book.Model(), side, env, actions);
      AllThereAfter(book.Model(), Changes(actions), Deletes(actions));
      DeferredIsDirect(book.Model(), side, env, actions);
      ApplyChanges(book, s.changes, Changes(actions));
      ApplyDeletes(book, s.deletes);
    }

    /** Credits the taker's account. */
    method CreditTaker(env: Env, side: Side, r: Receipt, ghost p: Placed) returns (error: Option<Error>)
      requires Valid() && r == ReceiptOf(p) && p.ex == State()
      modifies this`accounts, this`market
      ensures Valid()
      ensures match SettleTaker(p, env, side)
              case Ok(q) => error == None && State() == q.ex && ReceiptOf(q) == r
              case Err(e) => error == Some(e)
      ensures OrdersModel() == old(OrdersModel())
    {
      hide BookSide.Valid, BookSide.Model, EventHeap.Valid, EventHeap.Model, ExecuteTaker;
      if env.hasAccount {
        if env.owner !in accounts {
          return Some(AccountMissing);
        }
        accounts := accounts[env.owner := ExecuteTaker(accounts[env.owner], side, r.takenBase, r.takenQuote, r.takerFees, r.referrerAmount)];
        market := market.(referrerRebatesAccrued := market.referrerRebatesAccrued + r.referrerAmount);
      }
      return None;
    }

    /** Matches an order, settles its taker and brings the opposing book up to date. */
    method TakeIn(env: Env, o: Order, priceLots: int, limit: nat)
        returns (r: Result<Receipt>, left: Budget, mayPost: bool)
      requires Valid() && market.config.Ok() && BookOk(State().orders.Book(o.side.Invert()))
      requires o.maxBaseLots >= 0 && o.maxQuoteLotsIncludingFees >= 0
      modifies this`accounts, this`market, heap, heap.nodes, Book(o.side.Invert()), Book(o.side.Invert()).nodes
      ensures Valid()
      ensures var w := WalkOf(old(State()), env, o, limit, priceLots);
              match TakeOrder(old(State()), env, o, priceLots, w)
              case Ok(p) => r == Ok(ReceiptOf(p)) && State() == p.ex && left == w.left && mayPost == MayPost(w.stop)
              case Err(e) => r == Err(e)
    {
      hide *;
      ghost var was := State();
      MarketIs();
      var error, s;
      ghost var w;
      error, s, mayPost, w := RunLoop(env, o, priceLots, limit);
      left := s.b;
      if error.Some? {
        return Err(error.value), left, mayPost;
      }
      LoopDoneFacts(was, State(), env, o, priceLots, w, s, mayPost, Book(o.side.Invert()).trees);
      r := FinishTake(env, o, priceLots, limit, s, mayPost, was, w);
    }

    /** After the loop: the taker is credited, then the opposing book is brought up to date. */
    method FinishTake(env: Env, o: Order, priceLots: int, limit: nat, s: LoopState, mayPost: bool, ghost was: Exchange, ghost w: Walked)
        returns (r: Result<Receipt>)
      requires Valid() && was.market.config.Ok() && BookOk(was.orders.Book(o.side.Invert()))
      requires o.maxBaseLots >= 0 && o.maxQuoteLotsIncludingFees >= 0
      requires w == WalkOf(was, env, o, limit, priceLots)
      requires LoopDone(was, State(), env, o, priceLots, w, s, mayPost, Book(o.side.Invert()).trees)
      modifies this`accounts, this`market, Book(o.side.Invert()), Book(o.side.Invert()).nodes
      ensures Valid()
      ensures match TakeOrder(was, env, o, priceLots, w)
              case Ok(p) => r == Ok(ReceiptOf(p)) && State() == p.ex
              case Err(e) => r == Err(e)
    {
      hide *;
      var opp := o.side.Invert();
      ghost var mid, m := State(), Book(opp).Model();
      OtherBook(opp);
      MarketIs();
      LoopDoneFacts(was, mid, env, o, priceLots, w, s, mayPost, Book(opp).trees);
      var receipt := TakenReceipt(market.config, o, s);
      ReceiptIs(mid, env, o, priceLots, limit, was, w, s);
      SettleIgnoresBooks(mid, env, o, priceLots, w.actions, opp, BookAfterAll(m, w.actions));
      var error := CreditTaker(env, o.side, receipt, TakenBy(mid, env, o, priceLots, w.actions));
      if error.Some? {
        return Err(error.value);
      }
      OtherBook(opp);
      ApplyDeferred(opp, env, s, w.actions);
      r := Ok(receipt);
    }

    /** Gives out the arrival number and runs the matching loop. */
    method RunLoop(env: Env, o: Order, priceLots: int, limit: nat)
        returns (error: Option<Error>, s: LoopState, mayPost: bool, ghost w: Walked)
      requires Valid() && market.config.Ok() && BookOk(State().orders.Book(o.side.Invert()))
      requires o.maxBaseLots >= 0 && o.maxQuoteLotsIncludingFees >= 0
      modifies this`accounts, this`market, heap, heap.nodes
      ensures Valid() && w == WalkOf(old(State()), env, o, limit, priceLots)
      ensures error.Some? ==> TakeOrder(old(State()), env, o, priceLots, w) == Err(error.value)
      ensures error.None? ==> LoopDone(old(State()), State(), env, o, priceLots, w, s, mayPost, Book(o.side.Invert()).trees)
    {
      hide *;
      ghost var was := State();
      var t, b;
      ghost var k;
      t, b, k := BeginLoop(env, o, priceLots, limit);
      w := k.w;
      SameBook(was, State(), o.side.Invert());
      error, s, mayPost := MatchOrders(env, o, t, b, k);
      if error.Some? {
        LoopFailed(k, was, o, priceLots, error.value);
        return;
      }
      LoopEnded(k, was, State(), o, priceLots, s, mayPost, Book(o.side.Invert()).trees);
    }

    /** Before the loop: the arrival number is given out. */
    method BeginLoop(env: Env, o: Order, priceLots: int, limit: nat) returns (t: Taker, b: Budget, ghost k: Setting)
      requires Valid() && market.config.Ok() && BookOk(State().orders.Book(o.side.Invert()))
      requires o.maxBaseLots >= 0 && o.maxQuoteLotsIncludingFees >= 0
      modifies this`market
      ensures Valid() && market.config == old(market.config) && State() == NextSeqNum(old(State()))
      ensures t == TakerOf(o, env.owner, env.hasAccount, priceLots) && t.priceLots == priceLots && BudgetOk(b)
      ensures k == Setting(State(), env, o.side, t, WalkOf(old(State()), env, o, limit, priceLots))
      ensures var items := ItemsOf(State(), o.side.Invert(), env.now, env.oracle); ItemsOk(items) && k.w == Walk(t, items, b)
      ensures Doable(old(State()).orders.Book(o.side.Invert()), o.side.Invert(), env, k.w.actions)
    {
      hide *;
      ghost var was := State();
      MarketIs();
      LoopReady(was, env, o, limit, priceLots);
      t, b := TakerOf(o, env.owner, env.hasAccount, priceLots), StartBudget(market.config, o, limit);
      CountUp();
      k := Setting(State(), env, o.side, t, WalkOf(was, env, o, limit, priceLots));
      SameItems(was, State(), o.side.Invert(), env.now, env.oracle);
    }

    /** Gives out the next arrival number. */
    method CountUp()
      requires Valid()
      modifies this`market
      ensures Valid() && State() == NextSeqNum(old(State())) && market == old(market).(seqNum := old(market).seqNum + 1)
    {
      hide BookSide.Valid, BookSide.Model, EventHeap.Valid, EventHeap.Model;
      market := market.(seqNum := market.seqNum + 1);
    }

    // ---------- posting ----------

    /** Drops one expired order, if there is one. */
    method EvictExpiredIn(env: Env, side: Side, comp: Component) returns (error: Option<Error>)
      requires Valid()
      modifies this`accounts, heap, heap.nodes, Book(side), Book(side).nodes
      ensures Valid()
      ensures match EvictExpired(old(State()), env, side, comp)
              case Ok(ex) => error == None && State() == ex
              case Err(e) => error == Some(e)
    {
      hide BookSide.Valid, BookSide.Model, EventHeap.Valid, EventHeap.Model, ExpiredOrder, ExpiredComponent, ProcessOut;
      var n := Book(side).RemoveOneExpired(comp, env.now);
      if n.Some? {
        error := ProcessOutEvent(env, OutOf(side, n.value));
      } else {
        error := None;
      }
    }

    /** Takes the worst order off a side. */
    method DropWorst(env: Env, side: Side) returns (worst: Option<(LeafNode, int)>)
      requires Valid()
      modifies Book(side), Book(side).nodes
      ensures Valid()
      ensures match WorstItem(old(State()).orders.Book(side), side, env.now, env.oracle)
              case None => worst == None && State() == old(State())
              case Some(item) =>
                worst == Some((item.leaf, item.price)) && State() == old(State()).Without(side, item.comp, item.leaf.key)
    {
      hide BookSide.Valid, BookSide.Model, EventHeap.Valid, EventHeap.Model, WorstItem;
      worst := Book(side).RemoveWorst(env.now, env.oracle);
    }

    lemma FullIs(side: Side)
      requires Valid()
      ensures Book(side).IsFull() == State().orders.Book(side).IsFull()
    {
      hide BookSide.Valid, BookSide.Model, BookSide.IsFull, BookSideModel.IsFull, EventHeap.Valid, EventHeap.Model;
      Book(side).IsFullIsModel();
    }

    /** Drops the worst order if the side is full; the new order must be better. */
    method EvictWorstIn(env: Env, side: Side, priceLots: int) returns (error: Option<Error>)
      requires Valid()
      modifies this`accounts, heap, heap.nodes, Book(side), Book(side).nodes
      ensures Valid()
      ensures match EvictWorst(old(State()), env, side, priceLots)
              case Ok(ex) => error == None && State() == ex
              case Err(e) => error == Some(e)
    {
      hide *;
      FullIs(side);
      ExchangePosting.EvictWorstIs(State(), env, side, priceLots);
      if !Book(side).IsFull() {
        return None;
      }
      var worst := DropWorst(env, side);
      if worst.None? || !side.IsPriceBetter(priceLots, worst.value.1) {
        return Some(SomeError);
      }
      error := ProcessOutEvent(env, OutOf(side, worst.value.0));
    }

    /** Enters the order on the book and in its owner's account, whose fees are already locked. */
    method EnterIn(env: Env, o: Order, comp: Component, lock: int, key: nat, quantity: int, ghost ex: Exchange, ghost fees: int)
        returns (error: Option<Error>)
      requires Valid() && env.owner in ex.accounts && State() == LockIn(ex, env.owner, fees) && key < KEY_SIZE
      requires fees == PostedFees(ex.market.config, o.side, LeafFor(env, o, 0, key, quantity), lock)
      modifies this`accounts, Book(o.side), Book(o.side).nodes
      ensures Valid()
      ensures match Enter(ex, env, o, comp, lock, key, quantity)
              case Ok(ex') => error == None && State() == ex'
              case Err(e) => error == Some(e)
    {
      hide BookSide.Valid, BookSide.Model, EventHeap.Valid, EventHeap.Model, AddOrder, BookSideModel.Insert, MakerFeesCeil;
      var a := accounts[env.owner];
      LockedSlots(ex.accounts[env.owner], fees);
      var slot := NextOrderSlot(a);
      if slot.None? {
        return Some(OpenOrdersFull);
      }
      var leaf := LeafFor(env, o, slot.value, key, quantity);
      var r := Book(o.side).InsertLeaf(comp, leaf);
      if r.Err? {
        return Some(r.error);
      }
      accounts := accounts[env.owner := AddOrder(a, o.side, comp, leaf, lock)];
      return None;
    }

    /** Posts the order: lock its fees, make room, enter it. */
    method PostIn(env: Env, o: Order, comp: Component, priceLots: int, key: nat, quantity: int) returns (error: Option<Error>)
      requires Valid() && env.owner in accounts && key < KEY_SIZE
      modifies this`accounts, heap, heap.nodes, Book(o.side), Book(o.side).nodes
      ensures Valid()
      ensures match PostOrder(old(State()), env, o, comp, priceLots, key, quantity)
              case Ok(ex) => error == None && State() == ex
              case Err(e) => error == Some(e)
    {
      hide *;
      ghost var was := State();
      var lock, owner := LockingPrice(o, priceLots), env.owner;
      MarketIs();
      var fees := PostedFees(market.config, o.side, LeafFor(env, o, 0, key, quantity), lock);
      Lock(owner, fees);
      EvictExpiredAfterLock(was, owner, fees, env, o.side, comp);
      PostOrderIs(was, env, o, comp, priceLots, key, quantity);
      error := EvictExpiredIn(env, o.side, comp);
      var r1 := EvictExpired(was, env, o.side, comp);
      LockedResult(r1, owner, fees);
      if error.Some? {
        return;
      }
      EvictWorstAfterLock(r1.value, owner, fees, env, o.side, priceLots);
      error := EvictWorstIn(env, o.side, priceLots);
      var r2 := EvictWorst(r1.value, env, o.side, priceLots);
      LockedResult(r2, owner, fees);
      if error.Some? {
        return;
      }
      MarketIs();
      LockedMarket(r2.value, owner, fees);
      error := EnterIn(env, o, comp, lock, key, quantity, r2.value, fees);
    }

    /** Locks maker fees in an account. */
    method Lock(owner: Pubkey, fees: int)
      requires Valid() && owner in accounts
      modifies this`accounts
      ensures Valid() && owner in old(State()).accounts && State() == LockIn(old(State()), owner, fees)
    {
      hide BookSide.Valid, BookSide.Model, EventHeap.Valid, EventHeap.Model, LockFees;
      accounts := accounts[owner := LockFees(accounts[owner], fees)];
    }

    // ---------- a new order ----------

    /** The price of the first valid order on a side. */
    method BestPriceOf(side: Side, env: Env) returns (best: Option<int>)
      requires Valid()
      ensures best == BestPrice(ItemsOf(State(), side, env.now, env.oracle))
    {
      hide *;
      var iter := StartIter(side, env);
      ghost var items := iter.ToCome();
      while true
        invariant iter.Valid() && iter.HandlesAreRight() && iter.ToCome() == items
        invariant fresh(iter.fixedIter) && fresh(iter.oraclePeggedIter)
        invariant BestPrice(items) == old(BestPrice(ItemsOf(State(), side, env.now, env.oracle)))
        decreases |items|
      {
        var next := NextItem(iter, items);
        if next.None? {
          NoBest();
          return None;
        }
        NextBest(items);
        if next.value.0.state.Valid? {
          return Some(next.value.0.price);
        }
        items := items[1..];
      }
    }

    /** Both prices of an order. */
    method PriceOf(o: Order, env: Env) returns (r: Result<(int, int)>)
      requires Valid()
      ensures r == OrderPrice(o, env.oracle, ItemsOf(State(), o.side.Invert(), env.now, env.oracle))
    {
      hide BestPrice, ItemsOf, PriceWithBest, BookSide.Valid, BookSide.Model, EventHeap.Valid, EventHeap.Model, Slides;
      var best := None;
      if Slides(o) {
        best := BestPriceOf(o.side.Invert(), env);
      } else {
        OthersDoNotSlide(o, env.oracle, BestPrice(ItemsOf(State(), o.side.Invert(), env.now, env.oracle)));
      }
      r := PriceWithBest(o, env.oracle, best);
    }

    /** A new order whose price is known. */
    method OrderIn(env: Env, o: Order, limit: nat, priceLots: int, priceData: int) returns (r: Result<Receipt>)
      requires Valid() && OrderOk(o) && (PostTarget(o).Some? ==> env.owner in accounts)
      requires State().market.config.Ok() && 0 <= State().market.seqNum < U64_MAX && BookOk(State().orders.Book(o.side.Invert()))
      requires LockingPrice(o, priceLots) >= 1 && IsU64(priceData)
      modifies this`accounts, this`market, heap, heap.nodes, bids, bids.nodes, asks, asks.nodes
      ensures Valid()
      ensures match OrderAt(old(State()), env, o, limit, priceLots, priceData)
              case Ok(p) => r == Ok(ReceiptOf(p)) && State() == p.ex
              case Err(e) => r == Err(e)
    {
      hide *;
      ghost var was := State();
      var c, seqNum := market.config, market.seqNum + 1;
      BooksAre(o.side);
      MarketIs();
      OrderOkIs(o);
      SeqNumInRange(seqNum - 1);
      OrderAtIs(was, env, o, limit, priceLots, priceData);
      ghost var w := WalkOf(was, env, o, limit, priceLots);
      TakeOrderKeepsKeys(was, env, o, priceLots, w);
      LeftIs(was, env, o, limit, priceLots);
      var taken, left, mayPost := TakeIn(env, o, priceLots, limit);
      if taken.Err? {
        return Err(taken.error);
      }
      MarketIs();
      assert State().accounts.Keys == was.accounts.Keys;
      var key := NewNodeKey(o.side, priceData, seqNum);
      KeyInRange(o.side, priceData, seqNum);
      ghost var p := TakeOrder(was, env, o, priceLots, w).value;
      ReceiptFields(p);
      var quantity := PostQuantity(c, o, priceLots, left.base, OrderMaxQuote(c, o) - left.quote, taken.value.takerFees);
      if IsFillOrKill(o) && left.base > 0 {
        return Err(WouldExecutePartially);
      }
      PostedToIs(o, priceLots, w.stop, quantity);
      if !mayPost || quantity <= 0 || (PegLimit(o) != -1 && o.side.IsPriceBetter(priceLots, PegLimit(o))) || PostTarget(o).None? {
        PostRestIs(c, p, env, o, priceLots, key, None, quantity);
        return taken;
      }
      r := RestIn(env, o, priceLots, key, PostTarget(o).value, quantity, taken.value, p);
    }

    /** Posts what is left of the order. */
    method RestIn(env: Env, o: Order, priceLots: int, key: nat, comp: Component, quantity: int, taken: Receipt, ghost p: Placed)
        returns (r: Result<Receipt>)
      requires Valid() && market.config.Ok() && env.owner in accounts && key < KEY_SIZE
      requires p.ex == State() && ReceiptOf(p) == taken
      modifies this`accounts, heap, heap.nodes, Book(o.side), Book(o.side).nodes
      ensures Valid()
      ensures match PostRest(old(market.config), p, env, o, priceLots, key, Some(comp), quantity)
              case Ok(q) => r == Ok(ReceiptOf(q)) && State() == q.ex
              case Err(e) => r == Err(e)
    {
      hide *;
      var c, price := market.config, LockingPrice(o, priceLots);
      LotSizes(c);
      PostRestSteps(c, p, env, o, priceLots, key, comp, quantity);
      if quantity * price > MaxQuoteLots(c) {
        return Err(InvalidPostAmount);
      }
      var error := PostIn(env, o, comp, priceLots, key, quantity);
      if error.Some? {
        return Err(error.value);
      }
      var quote := quantity * price * c.quoteLotSize;
      r := Ok(taken.(orderId := Some(key), postedBase := quantity * c.baseLotSize, postedQuote := quote,
                     makerFees := if o.side.Bid? then MakerFeesCeil(c, quote) else 0));
    }

    lemma BooksAre(side: Side)
      ensures Book(side) == bids || Book(side) == asks
      ensures Book(side.Invert()) == bids || Book(side.Invert()) == asks
      ensures State().orders.Book(side.Invert()) == Book(side.Invert()).Model()
    {
    }

    /** A new order, from its price to the order posted. */
    method NewOrder(env: Env, o: Order, limit: nat) returns (r: Result<Receipt>)
      requires Valid() && OrderOk(o) && (PostTarget(o).Some? ==> env.owner in accounts)
      requires State().market.config.Ok() && State().market.seqNum >= 0 && BookOk(State().orders.Book(o.side.Invert()))
      requires PegLimit(o) == -1 || PegLimit(o) >= 1
      modifies this`accounts, this`market, heap, heap.nodes, bids, bids.nodes, asks, asks.nodes
      ensures Valid()
      ensures match Exchanges.NewOrder(old(State()), env, o, limit)
              case Ok(p) => r == Ok(ReceiptOf(p)) && State() == p.ex
              case Err(e) => r == Err(e)
    {
      hide *;
      ghost var was := State();
      MarketIs();
      NewOrderIs(was, env, o, limit);
      var price := PriceOf(o, env);
      if price.Err? {
        return Err(price.error);
      }
      if market.seqNum >= U64_MAX {
        return Err(SeqNumOverflow);
      }
      MarketIs();
      LotSizes(market.config);
      if o.maxBaseLots > MaxBaseLots(market.config) || OrderMaxQuote(market.config, o) > MaxQuoteLots(market.config) {
        return Err(InvalidInputLotsSize);
      }
      PriceFacts(o, env.oracle, ItemsOf(was, o.side.Invert(), env.now, env.oracle));
      r := OrderIn(env, o, limit, price.value.0, price.value.1);
    }
  }

  lemma KeyInRange(side: Side, priceData: int, seqNum: int)
    requires IsU64(priceData) && IsU64(seqNum)
    ensures NewNodeKey(side, priceData, seqNum) < KEY_SIZE
  {
    KeyRoundTrip(side, priceData, seqNum);
  }

  lemma LotSizes(c: Config)
    requires c.Ok()
    ensures c.quoteLotSize > 0 && c.baseLotSize > 0
  {
  }

  lemma ReceiptFields(p: Placed)
    ensures ReceiptOf(p).takerFees == p.takerFees
  {
  }

  lemma PostedToIs(o: Order, priceLots: int, stop: Stop, quantity: int)
    ensures PostedTo(o, priceLots, stop, quantity) ==
            if !MayPost(stop) || quantity <= 0 || (PegLimit(o) != -1 && o.side.IsPriceBetter(priceLots, PegLimit(o))) then None
            else PostTarget(o)
  {
  }

  lemma PostRestSteps(c: Config, p: Placed, env: Env, o: Order, priceLots: int, key: nat, comp: Component, quantity: int)
    requires c.Ok()
    ensures var r, price := PostRest(c, p, env, o, priceLots, key, Some(comp), quantity), LockingPrice(o, priceLots);
            var e := PostOrder(p.ex, env, o, comp, priceLots, key, quantity);
            && (quantity * price > MaxQuoteLots(c) ==> r == Err(InvalidPostAmount))
            && (quantity * price <= MaxQuoteLots(c) && e.Err? ==> r == Err(e.error))
            && (quantity * price <= MaxQuoteLots(c) && e.Ok? ==>
                  && r.Ok? && r.value.ex == e.value
                  && ReceiptOf(r.value) == ReceiptOf(p).(orderId := Some(key), postedBase := quantity * c.baseLotSize,
                       postedQuote := quantity * price * c.quoteLotSize,
                       makerFees := if o.side.Bid? then MakerFeesCeil(c, quantity * price * c.quoteLotSize) else 0))
  {
    hide PostOrder, MakerFeesCeil, MaxQuoteLots, LockingPrice;
  }

  lemma NoBest()
    ensures BestPrice([]) == None
  {
  }

  lemma LockedSlots(a: Account, fees: int)
    ensures LockFees(a, fees).slots == a.slots && NextOrderSlot(LockFees(a, fees)) == NextOrderSlot(a)
  {
  }

  lemma LockedMarket(ex: Exchange, owner: Pubkey, fees: int)
    requires owner in ex.accounts
    ensures LockIn(ex, owner, fees).market == ex.market
  {
  }

  lemma LockedResult(r: Result<Exchange>, owner: Pubkey, fees: int)
    requires r.Ok? ==> owner in r.value.accounts
    ensures r.Err? ==> LockInResult(r, owner, fees) == Err(r.error)
    ensures r.Ok? ==> LockInResult(r, owner, fees) == Ok(LockIn(r.value, owner, fees))
  {
  }

  lemma PostOrderIs(ex: Exchange, env: Env, o: Order, comp: Component, priceLots: int, key: nat, quantity: int)
    ensures var r, r1 := PostOrder(ex, env, o, comp, priceLots, key, quantity), EvictExpired(ex, env, o.side, comp);
            && (r1.Err? ==> r == Err(r1.error))
            && (r1.Ok? ==>
                  var r2 := EvictWorst(r1.value, env, o.side, priceLots);
                  && (r2.Err? ==> r == Err(r2.error))
                  && (r2.Ok? ==> r == Enter(r2.value, env, o, comp, LockingPrice(o, priceLots), key, quantity)))
  {
    hide EvictExpired, EvictWorst, Enter;
  }

  lemma TakerPrice(o: Order, env: Env, priceLots: int)
    ensures TakerOf(o, env.owner, env.hasAccount, priceLots).priceLots == priceLots
  {
  }

  lemma SameItems(ex: Exchange, ex': Exchange, side: Side, now: int, oracle: Option<int>)
    requires ex' == NextSeqNum(ex)
    ensures ItemsOf(ex', side, now, oracle) == ItemsOf(ex, side, now, oracle) && ex'.orders == ex.orders
    ensures ex'.market.config == ex.market.config
  {
  }

  lemma SameBook(ex: Exchange, ex': Exchange, side: Side)
    requires ex' == NextSeqNum(ex)
    ensures ex'.orders.Book(side) == ex.orders.Book(side) && ex'.market.config == ex.market.config
  {
  }

  lemma LoopFailed(k: Setting, was: Exchange, o: Order, priceLots: int, e: Error)
    requires LoopFails(k, e) && k.ex == NextSeqNum(was) && k.side == o.side
    ensures TakeOrder(was, k.env, o, priceLots, k.w) == Err(e)
  {
    TakeOrderIs(was, k.env, o, priceLots, k.w);
    hide TakeOrder, ApplyActions, NextSeqNum;
  }

  /** What is true when the loop has ended without an error: the book is untouched, what is to become of it is listed, and the
      rest of the order's taking is to credit the taker. */
  ghost predicate LoopDone(was: Exchange, mid: Exchange, env: Env, o: Order, priceLots: int, w: Walked, s: LoopState, mayPost: bool,
                           trees: Pair<Option<Tree>>) {
    var t, opp := TakerOf(o, env.owner, env.hasAccount, priceLots), o.side.Invert();
    var m := mid.orders.Book(opp);
    && mid.market.config == was.market.config
    && Doable(m, opp, env, w.actions)
    && s.b == w.left && mayPost == MayPost(w.stop)
    && s.selfQuote == SelfQuote(t, w.actions) && s.rebates == RebatesOf(was.market.config, t, w.actions)
    && ChangesAre(trees, s.changes, w.actions) && s.deletes == Deletes(w.actions)
    && TakeOrder(was, env, o, priceLots, w)
       == SettleTaker(TakenBy(WithOther(mid, opp, BookAfterAll(m, w.actions)), env, o, priceLots, w.actions), env, o.side)
  }

  lemma LoopDoneFacts(was: Exchange, mid: Exchange, env: Env, o: Order, priceLots: int, w: Walked, s: LoopState, mayPost: bool,
                      trees: Pair<Option<Tree>>)
    requires LoopDone(was, mid, env, o, priceLots, w, s, mayPost, trees)
    ensures var t, opp := TakerOf(o, env.owner, env.hasAccount, priceLots), o.side.Invert();
            var m := mid.orders.Book(opp);
            && mid.market.config == was.market.config
            && Doable(m, opp, env, w.actions)
            && s.b == w.left && mayPost == MayPost(w.stop)
            && s.selfQuote == SelfQuote(t, w.actions) && s.rebates == RebatesOf(was.market.config, t, w.actions)
            && ChangesAre(trees, s.changes, w.actions) && s.deletes == Deletes(w.actions)
            && TakeOrder(was, env, o, priceLots, w)
               == SettleTaker(TakenBy(WithOther(mid, opp, BookAfterAll(m, w.actions)), env, o, priceLots, w.actions), env, o.side)
  {
    hide TakeOrder, ChangesAre, Deletes, SelfQuote, RebatesOf, BookAfterAll, SettleTaker, TakenBy, TakerOf, Doable, WithOther;
  }

  lemma LoopEnded(k: Setting, was: Exchange, mid: Exchange, o: Order, priceLots: int, s: LoopState, mayPost: bool, trees: Pair<Option<Tree>>)
    requires LoopEnds(k, trees, mid, s, mayPost) && k.ex == NextSeqNum(was) && k.side == o.side
    requires k.t == TakerOf(o, k.env.owner, k.env.hasAccount, priceLots)
    requires var m := was.orders.Book(o.side.Invert()); mid.orders.Book(o.side.Invert()) == m && Doable(m, o.side.Invert(), k.env, k.w.actions)
    requires mid.market.config == was.market.config
    ensures LoopDone(was, mid, k.env, o, priceLots, k.w, s, mayPost, trees)
  {
    TakeOrderIs(was, k.env, o, priceLots, k.w);
    hide TakeOrder, ApplyActions, ChangesAre, Deletes, SelfQuote, RebatesOf, BookAfterAll, SettleTaker, TakenBy, TakerOf, Doable;
  }

  /** What the loop starts from. */
  lemma LoopReady(was: Exchange, env: Env, o: Order, limit: nat, priceLots: int)
    requires was.market.config.Ok() && BookOk(was.orders.Book(o.side.Invert()))
    requires o.maxBaseLots >= 0 && o.maxQuoteLotsIncludingFees >= 0
    ensures var opp, t := o.side.Invert(), TakerOf(o, env.owner, env.hasAccount, priceLots);
            var items, b, w := ItemsOf(was, opp, env.now, env.oracle), StartBudget(was.market.config, o, limit),
                               WalkOf(was, env, o, limit, priceLots);
            && BudgetOk(b) && ItemsOk(items) && (forall i :: 0 <= i < |items| ==> items[i].price >= 1)
            && w == Walk(t, items, b) && Doable(was.orders.Book(opp), opp, env, w.actions)
            && t.priceLots == priceLots
  {
    hide *;
    var t, b := TakerOf(o, env.owner, env.hasAccount, priceLots), StartBudget(was.market.config, o, limit);
    WalkOfIs(was, env, o, limit, priceLots);
    StartIsOk(was.market.config, o, limit);
    TakerFields(o, env, priceLots);
    TakerPrice(o, env, priceLots);
    WalkIsDoable(was.orders.Book(o.side.Invert()), o.side.Invert(), t, env, b);
  }

  lemma ReceiptIs(mid: Exchange, env: Env, o: Order, priceLots: int, limit: nat, was: Exchange, w: Walked, s: LoopState)
    requires was.market.config.Ok() && BookOk(was.orders.Book(o.side.Invert()))
    requires o.maxBaseLots >= 0 && o.maxQuoteLotsIncludingFees >= 0 && mid.market.config == was.market.config
    requires w == WalkOf(was, env, o, limit, priceLots) && s.b == w.left
    requires s.selfQuote == SelfQuote(TakerOf(o, env.owner, env.hasAccount, priceLots), w.actions)
    requires s.rebates == RebatesOf(was.market.config, TakerOf(o, env.owner, env.hasAccount, priceLots), w.actions)
    ensures ReceiptOf(TakenBy(mid, env, o, priceLots, w.actions)) == TakenReceipt(was.market.config, o, s)
    ensures TakenBy(mid, env, o, priceLots, w.actions).ex == mid
  {
    LeftIs(was, env, o, limit, priceLots);
    hide WalkOf, BookOk, TakenBase, TakenQuote, SelfQuote, RebatesOf, TakerFees, ReferrerAmount, OrderMaxQuote, TakerOf, Config.Ok;
  }

  /** What is left of the budget tells what was taken. */
  lemma LeftIs(was: Exchange, env: Env, o: Order, limit: nat, priceLots: int)
    requires was.market.config.Ok() && BookOk(was.orders.Book(o.side.Invert()))
    requires o.maxBaseLots >= 0 && o.maxQuoteLotsIncludingFees >= 0
    ensures var w := WalkOf(was, env, o, limit, priceLots);
            && w.left.base == o.maxBaseLots - TakenBase(w.actions)
            && w.left.quote == OrderMaxQuote(was.market.config, o) - TakenQuote(w.actions)
  {
    hide *;
    WalkOfIs(was, env, o, limit, priceLots);
    StartIsOk(was.market.config, o, limit);
    WalkTotals(TakerOf(o, env.owner, env.hasAccount, priceLots), ItemsOf(was, o.side.Invert(), env.now, env.oracle),
               StartBudget(was.market.config, o, limit));
  }

  lemma SettleIgnoresBooks(mid: Exchange, env: Env, o: Order, priceLots: int, actions: seq<Action>, opp: Side, m: BookSideModel)
    ensures var r, q := SettleTaker(TakenBy(mid, env, o, priceLots, actions), env, o.side),
                        SettleTaker(TakenBy(WithOther(mid, opp, m), env, o, priceLots, actions), env, o.side);
            && (r.Err? <==> q.Err?) && (r.Err? ==> r.error == q.error)
            && (r.Ok? ==> q.value.ex == WithOther(r.value.ex, opp, m) && ReceiptOf(q.value) == ReceiptOf(r.value))
  {
    hide ExecuteTaker, TakerFees, ReferrerAmount, RebatesOf, SelfQuote, TakenBase, TakenQuote;
  }

  /** What the taker pays and gets. */
  function TakenReceipt(c: Config, o: Order, s: LoopState): Receipt
    requires c.Ok()
  {
    var base, quote := o.maxBaseLots - s.b.base, OrderMaxQuote(c, o) - s.b.quote;
    var fees := TakerFees(c, quote, s.selfQuote);
    Receipt(None, base * c.baseLotSize, quote * c.quoteLotSize, fees, ReferrerAmount(c, quote, s.selfQuote, s.rebates), 0, 0, 0)
  }

  datatype Verdict = GoesOn | Stops(mayPost: bool) | Fails(error: Error)

  lemma SpentIs(b: Budget)
    ensures NothingLeft(b) <==> b.base == 0 || b.quote == 0
  {
  }

  lemma IsChangeIs(a: Action)
    ensures IsChange(a) <==> a.Match? && a.quantity != a.item.leaf.quantity
  {
  }

  lemma TakerOfIs(o: Order, env: Env, priceLots: int)
    ensures var t := TakerOf(o, env.owner, env.hasAccount, priceLots);
            && t.side == o.side && t.priceLots == priceLots && t.selfTradeBehavior == o.selfTradeBehavior
            && forall leaf: LeafNode :: t.IsSelf(leaf) <==> env.hasAccount && env.owner == leaf.owner
  {
  }

  lemma StopAtIs(t: Taker, item: Item, b: Budget)
    requires item.price >= 1
    ensures StopAt(t, item, b) ==
            if !t.side.IsPriceWithinLimit(item.price, t.priceLots) then Some(PriceLimit)
            else if t.postOnly then Some(PostOnlyBlocked)
            else if b.limit == 0 then Some(MatchLimit)
            else if TruncDiv(b.quote, item.price) == 0 then Some(BadPrice)
            else if t.IsSelf(item.leaf) && t.selfTradeBehavior.AbortTransaction? then Some(SelfTrade)
            else None
  {
  }

  lemma ActionAtIs(t: Taker, item: Item, b: Budget)
    requires item.price >= 1 && b.limit > 0
    ensures t.IsSelf(item.leaf) && t.selfTradeBehavior.CancelProvide? ==>
              ActionAt(t, item, b) == Cancel(item) && BudgetAfter(t, item, b) == b && !IsChange(Cancel(item))
    ensures !(t.IsSelf(item.leaf) && t.selfTradeBehavior.CancelProvide?) ==>
              var q := Min(Min(b.base, item.leaf.quantity), TruncDiv(b.quote, item.price));
              && ActionAt(t, item, b) == Match(item, q)
              && BudgetAfter(t, item, b) == b.(base := b.base - q, quote := b.quote - q * item.price, limit := b.limit - 1)
  {
  }

  lemma EventfulConfig(ex: Exchange, env: Env, side: Side, a: Action, processed: nat)
    ensures var r := Eventful(ex, env, side, a, processed); r.Ok? ==> r.value.0.market.config == ex.market.config
  {
  }

  lemma FailsWith(k: Setting, e: Error)
    requires ApplyActions(k.ex, k.env, k.side, k.w.actions, 0) == Err(e)
    ensures LoopFails(k, e)
  {
    hide ApplyActions;
  }
}
