/** Why a new order is refused: each error has a cause that could be seen before. */
module OrderRefusals {
  import opened Types
  import opened Prices
  import opened Markets
  import opened Accounts
  import opened EventHeaps
  import opened BookSideModels
  import opened Ledgers
  import opened Matching
  import opened MatchingLaws
  import opened MatchingTerms
  import opened Posting
  import opened Exchanges
  import opened ExchangeInvariants
  import opened ExchangeSteps
  import opened ExchangeActions
  import opened ExchangePosting
  import opened ExchangeOrders
  import opened ExchangeNewOrder
  import opened ExchangeSpending
  import opened OrderLaws
  import opened InstructionOrders
  import opened OrderTerms
  import opened OrderOutcomes
  import opened PostingOutcomes
  import opened EventOutcomes

  predicate FitsI64(x: int) { -0x8000_0000_0000_0000 <= x <= 0x7FFF_FFFF_FFFF_FFFF }

  /** The price can be represented; a pegged one needs an oracle price, and its offsets must be representable too. */
  predicate IsPossible(o: Order, oracle: Option<int>, price: int) {
    && 1 <= price && FitsI64(price)
    && (o.params.PeggedOrder? ==> oracle.Some? && FitsI64(oracle.value + o.params.priceOffsetLots) && FitsI64(price - oracle.value))
  }

  /** An order has a price if and only if the one that it should have is possible. */
  lemma PricedExactlyWhen(o: Order, oracle: Option<int>, opposing: seq<Item>)
    ensures OrderPrice(o, oracle, opposing).Ok? <==>
              exists price :: IsPriceFor(o, oracle, opposing, price) && IsPossible(o, oracle, price)
    ensures OrderPrice(o, oracle, opposing).Err? ==>
              OrderPrice(o, oracle, opposing).error in {OraclePegInvalidOracleState, InvalidPriceLots, ArithmeticOverflow}
  {
    BestIsFirst(opposing);
    var r := OrderPrice(o, oracle, opposing);
    if r.Ok? {
      PriceIsRight(o, oracle, opposing);
      assert IsPriceFor(o, oracle, opposing, r.value.0) && IsPossible(o, oracle, r.value.0);
    }
  }

  // ---------- matching ----------

  lemma ActionRefused(ex: Exchange, env: Env, side: Side, a: Action, credited: nat)
    ensures var r := ApplyAction(ex, env, side, a, credited);
            && (r == Err(HeapFull) ==> ex.orders.heap.free == [] && |AddedBy(env, side, a, credited)| == 1)
            && (r == Err(BorrowFailed) ==> a.Match? && IsOwn(env, a.item.leaf) && env.owner in env.remaining)
            && (r.Err? ==> r.error in {HeapFull, BorrowFailed, AccountMissing, AssertionFailed})
  {
    hide CancelOrder, ExecuteMaker, AmountsOfFill, MatchedBook, BookSideModel.Remove;
  }

  /** The heap is full only if it has too few free slots for the events that are left to it; an account is borrowed twice only
      if an own order is matched whose account was passed along. */
  lemma {:induction false} ActionsRefused(ex: Exchange, env: Env, side: Side, actions: seq<Action>, credited: nat)
    requires ex.orders.heap.Ok() && forall i :: 0 <= i < |actions| ==> (actions[i].Cancel? ==> env.hasAccount)
    ensures var r := ApplyActions(ex, env, side, actions, credited);
            && (r == Err(HeapFull) ==> |ex.orders.heap.free| < |Waiting(env, side, actions, credited)|)
            && (r == Err(BorrowFailed) ==>
                  env.owner in env.remaining && exists a :: a in actions && a.Match? && IsOwn(env, a.item.leaf))
            && (r.Err? ==> r.error in {HeapFull, BorrowFailed, AccountMissing, AssertionFailed})
    decreases |actions|
  {
    if actions != [] {
      WaitingUnfolds(env, side, actions, credited);
      var a, r := actions[0], ApplyAction(ex, env, side, actions[0], credited);
      ActionRefused(ex, env, side, a, credited);
      ActionAdds(ex, env, side, a, credited);
      hide HeapModel.Ok, ApplyAction, Waiting, AddedBy, CreditedBy, IsOwn;
      if r.Ok? {
        AddedSlots(ex, r.value.0, env, AddedBy(env, side, a, credited));
        ActionsRefused(r.value.0, env, side, actions[1..], r.value.1);
        assert forall b :: b in actions[1..] ==> b in actions;
      } else {
        assert a in actions;
      }
    }
  }

  lemma AddedSlots(ex: Exchange, ex': Exchange, env: Env, events: seq<Event>)
    requires Adds(ex, ex', env, events)
    ensures ex'.orders.heap.Ok() && |ex'.orders.heap.free| + |events| == |ex.orders.heap.free|
  {
  }

  // ---------- posting ----------

  /** An eviction fails for want of a slot on the heap, if the accounts are in order. */
  lemma OutRefused(ex: Exchange, env: Env, e: Event)
    requires e.Out?
    ensures var r := ProcessOut(ex, env, e);
            && (r == Err(HeapFull) ==> ex.orders.heap.free == [])
            && (r.Err? ==> r.error in {HeapFull, AccountMissing, AssertionFailed})
  {
    hide CancelOrder;
  }

  lemma SameFree(ex: Exchange, side: Side, comp: Component, key: nat)
    ensures ex.Without(side, comp, key).orders.heap == ex.orders.heap
  {
  }

  /** Few cells are left on the order's own side. */
  predicate IsCrowded(m: BookSideModel) { m.capacity - m.UsedCells() <= 2 }

  lemma FullIsCrowded(m: BookSideModel)
    ensures m.IsFull() ==> IsCrowded(m)
  {
  }

  lemma LessCrowded(m: BookSideModel, comp: Component, key: nat)
    ensures IsCrowded(m.Remove(comp, key)) ==> IsCrowded(m)
  {
    assert |m.fixed - {key}| <= |m.fixed| && |m.pegged - {key}| <= |m.pegged|;
  }

  lemma ExpiredRefused(ex: Exchange, env: Env, side: Side, comp: Component)
    ensures var r := EvictExpired(ex, env, side, comp);
            && (r == Err(HeapFull) ==> ex.orders.heap.free == [])
            && (r.Err? ==> r.error in {HeapFull, AccountMissing, AssertionFailed})
            && (r.Ok? && IsCrowded(r.value.orders.Book(side)) ==> IsCrowded(ex.orders.Book(side)))
  {
    hide *;
    EvictExpiredIs(ex, env, side, comp);
    var m := ex.orders.Book(side);
    var from := ExpiredComponent(m, comp, env.now);
    var x := ExpiredOrder(m.Get(from), env.now);
    if x.Some? {
      SameFree(ex, side, from, x.value.key);
      OutRefused(ex.Without(side, from, x.value.key), env, OutOf(side, x.value));
      OutKeepsSide(ex.Without(side, from, x.value.key), env, OutOf(side, x.value), side);
      WithoutBook(ex, side, from, x.value.key);
      LessCrowded(m, from, x.value.key);
    }
  }

  lemma OutKeepsSide(ex: Exchange, env: Env, e: Event, side: Side)
    requires e.Out?
    ensures ProcessOut(ex, env, e).Ok? ==> ProcessOut(ex, env, e).value.orders.Book(side) == ex.orders.Book(side)
  {
    OutKeepsBooks(ex, env, e);
    hide ProcessOut;
  }

  lemma WorstRefused(ex: Exchange, env: Env, side: Side, price: int)
    ensures var r := EvictWorst(ex, env, side, price);
            && (r == Err(HeapFull) ==> ex.orders.heap.free == [])
            && (r == Err(SomeError) ==> IsCrowded(ex.orders.Book(side)))
            && (r.Err? ==> r.error in {HeapFull, SomeError, AccountMissing, AssertionFailed})
            && (r.Ok? && IsCrowded(r.value.orders.Book(side)) ==> IsCrowded(ex.orders.Book(side)))
  {
    hide *;
    EvictWorstIs(ex, env, side, price);
    var m := ex.orders.Book(side);
    FullIsCrowded(m);
    var x := WorstItem(m, side, env.now, env.oracle);
    if x.Some? {
      EventFields(env, side, x.value, 0);
      SameFree(ex, side, x.value.comp, x.value.leaf.key);
      OutRefused(ex.Without(side, x.value.comp, x.value.leaf.key), env, OutOf(side, x.value.leaf));
      OutKeepsSide(ex.Without(side, x.value.comp, x.value.leaf.key), env, OutOf(side, x.value.leaf), side);
      WithoutBook(ex, side, x.value.comp, x.value.leaf.key);
      LessCrowded(m, x.value.comp, x.value.leaf.key);
    }
  }

  predicate AllInUse(slots: seq<OpenOrder>) { forall s :: 0 <= s < |slots| ==> !slots[s].isFree }

  lemma EnterRefused(ex: Exchange, env: Env, o: Order, comp: Component, lock: int, key: nat, quantity: int)
    requires BookOk(ex.orders.Book(o.side)) && env.owner in ex.accounts
    ensures var r := Enter(ex, env, o, comp, lock, key, quantity);
            && (r == Err(OpenOrdersFull) ==> AllInUse(ex.accounts[env.owner].slots))
            && (r == Err(SomeError) ==> IsCrowded(ex.orders.Book(o.side)))
            && (r.Err? ==> r.error in {OpenOrdersFull, SomeError})
  {
    EnterIs(ex, env, o, comp, lock, key, quantity);
    EnterWhenNotFull(ex, env, o, comp, lock, key, quantity);
    FullIsCrowded(ex.orders.Book(o.side));
    SlotsAreUsed(ex.accounts[env.owner]);
    hide IsCrowded, BookOk, BookSideModel.IsFull, AllInUse, BookSideModel.Insert, Posted, LeafFor;
  }

  lemma SlotsAreUsed(a: Account)
    ensures NextOrderSlot(a).None? ==> AllInUse(a.slots)
  {
  }

  lemma InUseBefore(accounts: map<Pubkey, Account>, accounts': map<Pubkey, Account>, p: Pubkey)
    requires SlotsShrink(accounts, accounts') && p in accounts && p in accounts' && |accounts[p].slots| == |accounts'[p].slots|
    ensures AllInUse(accounts'[p].slots) ==> AllInUse(accounts[p].slots)
  {
    if AllInUse(accounts'[p].slots) {
      forall s | 0 <= s < |accounts[p].slots| ensures !accounts[p].slots[s].isFree { assert InUse(accounts', p, s); }
    }
  }

  lemma OwnSlots(ex: Exchange, claims: map<ClaimId, Claim>, ex': Exchange, claims': map<ClaimId, Claim>, p: Pubkey,
                 dq: int, db: int, dq': int, db': int)
    requires Good(ex, claims, dq, db) && Good(ex', claims', dq', db') && SameFrame(ex, ex') && p in ex.accounts
    ensures p in ex'.accounts && (AllInUse(ex'.accounts[p].slots) ==> AllInUse(ex.accounts[p].slots))
  {
    hide *;
    SameFrameIs(ex, ex');
    assert p in ex'.accounts.Keys;
    SlotCount(ex, claims, p, dq, db);
    SlotCount(ex', claims', p, dq', db');
    InUseBefore(ex.accounts, ex'.accounts, p);
  }

  lemma PostOrderIs(ex: Exchange, env: Env, o: Order, comp: Component, price: int, key: nat, quantity: int)
    ensures var r, r1 := PostOrder(ex, env, o, comp, price, key, quantity), EvictExpired(ex, env, o.side, comp);
            && (r1.Err? ==> r == Err(r1.error))
            && (r1.Ok? ==>
                  var r2 := EvictWorst(r1.value, env, o.side, price);
                  && (r2.Err? ==> r == Err(r2.error))
                  && (r2.Ok? ==> r == Enter(r2.value, env, o, comp, LockingPrice(o, price), key, quantity)))
  {
    hide EvictExpired, EvictWorst, Enter, LockingPrice;
  }

  predicate PostingRefused(ex: Exchange, p: Pubkey, side: Side, e: Error)
    requires p in ex.accounts
  {
    && (e == HeapFull ==> |ex.orders.heap.free| < 2)
    && (e == OpenOrdersFull ==> AllInUse(ex.accounts[p].slots))
    && (e == SomeError ==> IsCrowded(ex.orders.Book(side)))
    && e in {HeapFull, OpenOrdersFull, SomeError, AccountMissing, AssertionFailed}
  }

  lemma PostRefused(ex: Exchange, claims: map<ClaimId, Claim>, env: Env, o: Order, comp: Component, price: int, key: nat,
                    quantity: int, dq: int, db: int)
    requires Good(ex, claims, dq, db) && env.owner in ex.accounts
    ensures var r := PostOrder(ex, env, o, comp, price, key, quantity); r.Err? ==> PostingRefused(ex, env.owner, o.side, r.error)
  {
    hide *;
    PostOrderIs(ex, env, o, comp, price, key, quantity);
    GoodParts(ex, claims, dq, db);
    ExpiredRefused(ex, env, o.side, comp);
    ExpiredAdds(ex, env, o.side, comp);
    var r := PostOrder(ex, env, o, comp, price, key, quantity);
    var claims1 := ExpiredStep(ex, claims, env, o.side, comp, dq, db);
    var r1 := EvictExpired(ex, env, o.side, comp);
    if r1.Ok? {
      var ex1 := r1.value;
      GoodParts(ex1, claims1, dq, db);
      OwnSlots(ex, claims, ex1, claims1, env.owner, dq, db, dq, db);
      var events :| |events| <= 1 && AreEvicted(env, o.side, events) && Adds(ex, ex1, env, events);
      AddedSlots(ex, ex1, env, events);
      WorstRefused(ex1, env, o.side, price);
      var claims2 := WorstStep(ex1, claims1, env, o.side, price, dq, db);
      var r2 := EvictWorst(ex1, env, o.side, price);
      if r2.Ok? {
        GoodParts(r2.value, claims2, dq, db);
        OwnSlots(ex1, claims1, r2.value, claims2, env.owner, dq, db, dq, db);
        BookOf(r2.value.orders, o.side);
        EnterRefused(r2.value, env, o, comp, LockingPrice(o, price), key, quantity);
      }
    }
    if r.Err? { MakeRefused(ex, env.owner, o.side, r.error); }
  }

  lemma MakeRefused(ex: Exchange, p: Pubkey, side: Side, e: Error)
    requires p in ex.accounts
    requires e == HeapFull ==> |ex.orders.heap.free| < 2
    requires e == OpenOrdersFull ==> AllInUse(ex.accounts[p].slots)
    requires e == SomeError ==> IsCrowded(ex.orders.Book(side))
    requires e in {HeapFull, OpenOrdersFull, SomeError, AccountMissing, AssertionFailed}
    ensures PostingRefused(ex, p, side, e)
  {
  }

  // ---------- the whole order ----------

  /** An own order that the order would match next. */
  ghost predicate WouldMatchOwn(env: Env, o: Order, items: seq<Item>, w: Walked) {
    exists k :: 0 <= k < |items| && items[k].state.Valid? && IsOwn(env, items[k].leaf) && Accepts(o, env.oracle, items[k].price)
                && TakenBase(w.actions) < o.maxBaseLots
  }

  /** What must be so for an order to be refused with this error. */
  ghost predicate IsCause(ex: Exchange, env: Env, o: Order, limit: nat, e: Error)
    requires ex.market.config.Ok() && BookOk(ex.orders.Book(o.side.Invert()))
  {
    var (c, items, w, price) := (ex.market.config, Opposing(ex, env, o), WalkFor(ex, env, o, limit), PriceFor(ex, env, o).0);
    var rests := o.params.FixedOrder? || o.params.PeggedOrder?;
    match e
    case OraclePegInvalidOracleState | InvalidPriceLots | ArithmeticOverflow =>
      forall price :: IsPriceFor(o, env.oracle, items, price) ==> !IsPossible(o, env.oracle, price)
    case SeqNumOverflow => ex.market.seqNum >= 0xFFFF_FFFF_FFFF_FFFF
    case InvalidInputLotsSize =>
      || o.maxBaseLots * c.baseLotSize > 0x7FFF_FFFF_FFFF_FFFF
      || exists quote :: IsQuoteToTake(c, o, quote) && quote * c.quoteLotSize > 0x7FFF_FFFF_FFFF_FFFF
    case WouldSelfTrade => o.selfTradeBehavior.AbortTransaction? && MayTake(o) && WouldMatchOwn(env, o, items, w)
    case WouldExecutePartially => o.params.FillOrKill? && TakenBase(w.actions) < o.maxBaseLots
    case BorrowFailed => env.owner in env.remaining && exists a :: a in w.actions && a.Match? && IsOwn(env, a.item.leaf)
    case HeapFull => |ex.orders.heap.free| < |Waiting(env, o.side, w.actions, 0)| + (if rests then 2 else 0)
    case InvalidPostAmount =>
      rests && (o.maxBaseLots - TakenBase(w.actions)) * LockPrice(o, price) * c.quoteLotSize > 0x7FFF_FFFF_FFFF_FFFF
    case OpenOrdersFull => rests && env.owner in ex.accounts && AllInUse(ex.accounts[env.owner].slots)
    case SomeError => rests && IsCrowded(ex.orders.Book(o.side))
    case _ => false
  }

  lemma TooLarge(c: Config, o: Order)
    requires c.Ok() && o.maxQuoteLotsIncludingFees >= 0
    ensures o.maxBaseLots > MaxBaseLots(c) ==> o.maxBaseLots * c.baseLotSize > 0x7FFF_FFFF_FFFF_FFFF
    ensures OrderMaxQuote(c, o) > MaxQuoteLots(c) ==> OrderMaxQuote(c, o) * c.quoteLotSize > 0x7FFF_FFFF_FFFF_FFFF
  {
    hide OrderMaxQuote;
    TooMany(o.maxBaseLots, c.baseLotSize);
    TooMany(OrderMaxQuote(c, o), c.quoteLotSize);
  }

  lemma TooMany(lots: int, lotSize: int)
    requires lotSize >= 1
    ensures lots > I64_MAX / lotSize ==> lots * lotSize > I64_MAX
  {
    var m := I64_MAX / lotSize;
    assert (m + 1) * lotSize > I64_MAX;
    if lots > m { MulOrder(m + 1, lots, lotSize); }
  }

  /** What refuses an order once it has a price. */
  lemma TakingRefused(ex: Exchange, claims: map<ClaimId, Claim>, env: Env, o: Order, limit: nat)
    requires Good(ex, claims, 0, 0) && OrderOk(o) && OrderPrice(o, env.oracle, Opposing(ex, env, o)).Ok?
    requires ex.market.config.Ok() && BookOk(ex.orders.Book(o.side.Invert()))
    ensures var r := TakeOrder(ex, env, o, PriceFor(ex, env, o).0, WalkFor(ex, env, o, limit));
            r.Err? && OrderError(r.error) ==> IsCause(ex, env, o, limit, r.error)
  {
    hide *;
    var (opp, price, w) := (o.side.Invert(), PriceFor(ex, env, o).0, WalkFor(ex, env, o, limit));
    var (items, t, b) := (Opposing(ex, env, o), TakerFor(ex, env, o), StartBudget(ex.market.config, o, limit));
    GoodParts(ex, claims, 0, 0);
    OrderOkIs(o);
    ForIs(ex, env, o, limit);
    TermsAre(ex.market.config, o, env.owner, env.hasAccount, price, limit);
    StartIsOk(ex.market.config, o, limit);
    WalkOfIs(ex, env, o, limit, price);
    WalkTotals(t, items, b);
    WalkAborts(t, items, b);
    PriceIsRight(o, env.oracle, items);
    CancelsAreOwn(t, env, items, w.actions);
    TakeOrderIs(ex, env, o, price, w);
    NextIs(ex);
    ActionsRefused(NextSeqNum(ex), env, o.side, w.actions, 0);
    SettlingRefused(ex, env, o, price, w);
    NotOurs();
    var r := TakeOrder(ex, env, o, price, w);
    if r.Err? && OrderError(r.error) {
      if r == Err(WouldSelfTrade) { AbortMeans(ex, env, o, items, w, Seen(t, items, b)); }
      TakingCause(ex, env, o, limit, r.error);
    }
  }

  lemma ForIs(ex: Exchange, env: Env, o: Order, limit: nat)
    requires ex.market.config.Ok() && BookOk(ex.orders.Book(o.side.Invert()))
    ensures Opposing(ex, env, o) == ItemsOf(ex, o.side.Invert(), env.now, env.oracle)
    ensures WalkFor(ex, env, o, limit) == WalkOf(ex, env, o, limit, PriceFor(ex, env, o).0)
    ensures var r := OrderPrice(o, env.oracle, Opposing(ex, env, o)); r.Ok? ==> PriceFor(ex, env, o) == r.value
    ensures TakerFor(ex, env, o)
         == Taker(o.side, env.owner, env.hasAccount, PriceFor(ex, env, o).0, !MayTake(o), o.selfTradeBehavior)
  {
    hide WalkOf, BookOk, OrderPrice;
  }

  lemma CancelsAreOwn(t: Taker, env: Env, items: seq<Item>, actions: seq<Action>)
    requires ActionsOk(t, items, actions) && t.hasAccount == env.hasAccount
    ensures forall i :: 0 <= i < |actions| ==> (actions[i].Cancel? ==> env.hasAccount)
  {
    forall i | 0 <= i < |actions| ensures actions[i].Cancel? ==> env.hasAccount { assert ActionOk(t, items, actions[i]); }
  }

  lemma SettlingRefused(ex: Exchange, env: Env, o: Order, price: int, w: Walked)
    ensures var r := ApplyActions(NextSeqNum(ex), env, o.side, w.actions, 0);
            r.Ok? ==> var s := SettleTaker(TakenBy(r.value.0, env, o, price, w.actions), env, o.side);
                      s.Err? ==> s.error == AccountMissing
  {
    hide ApplyActions, ExecuteTaker, TakenBy;
  }

  lemma NotOurs()
    ensures !OrderError(AccountMissing) && !OrderError(AssertionFailed)
  {
  }

  lemma AbortMeans(ex: Exchange, env: Env, o: Order, items: seq<Item>, w: Walked, n: nat)
    requires var t := TakerFor(ex, env, o);
             && n < |items| && items[n].state.Valid? && t.side.IsPriceWithinLimit(items[n].price, t.priceLots) && !t.postOnly
             && t.IsSelf(items[n].leaf) && t.selfTradeBehavior.AbortTransaction?
    requires w.left.base > 0 && w.left.base == o.maxBaseLots - TakenBase(w.actions)
    requires IsPriceFor(o, env.oracle, items, PriceFor(ex, env, o).0)
    ensures o.selfTradeBehavior.AbortTransaction? && MayTake(o) && WouldMatchOwn(env, o, items, w)
  {
    hide PriceFor, TakenBase;
  }

  /** The causes that taking can have, put together. */
  lemma TakingCause(ex: Exchange, env: Env, o: Order, limit: nat, e: Error)
    requires ex.market.config.Ok() && BookOk(ex.orders.Book(o.side.Invert()))
    requires e in {WouldSelfTrade, HeapFull, BorrowFailed}
    requires var w := WalkFor(ex, env, o, limit);
             && (e == WouldSelfTrade ==>
                   o.selfTradeBehavior.AbortTransaction? && MayTake(o) && WouldMatchOwn(env, o, Opposing(ex, env, o), w))
             && (e == HeapFull ==> |ex.orders.heap.free| < |Waiting(env, o.side, w.actions, 0)|)
             && (e == BorrowFailed ==>
                   env.owner in env.remaining && exists a :: a in w.actions && a.Match? && IsOwn(env, a.item.leaf))
    ensures IsCause(ex, env, o, limit, e)
  {
    hide BookOk, WalkFor, Opposing, PriceFor, Waiting, WouldMatchOwn, IsOwn, MayTake;
  }

  lemma ErrorIsOrders(r: Result<Placed>, ex: Exchange, claims': map<ClaimId, Claim>, env: Env, side: Side)
    requires OrderLeaves(r, ex, claims', env, side, 0, 0) && r.Err?
    ensures OrderError(r.error)
  {
  }

  lemma PriceCause(ex: Exchange, env: Env, o: Order, limit: nat, e: Error)
    requires ex.market.config.Ok() && BookOk(ex.orders.Book(o.side.Invert()))
    requires e in {OraclePegInvalidOracleState, InvalidPriceLots, ArithmeticOverflow}
    requires forall price :: IsPriceFor(o, env.oracle, Opposing(ex, env, o), price) ==> !IsPossible(o, env.oracle, price)
    ensures IsCause(ex, env, o, limit, e)
  {
    hide *;
    CauseIs(ex, env, o, limit);
  }

  lemma SizeCause(ex: Exchange, env: Env, o: Order, limit: nat)
    requires ex.market.config.Ok() && BookOk(ex.orders.Book(o.side.Invert())) && o.maxQuoteLotsIncludingFees >= 0
    requires var c := ex.market.config; o.maxBaseLots > MaxBaseLots(c) || OrderMaxQuote(c, o) > MaxQuoteLots(c)
    ensures IsCause(ex, env, o, limit, InvalidInputLotsSize)
  {
    hide *;
    var c := ex.market.config;
    TermsAre(c, o, env.owner, env.hasAccount, 0, limit);
    StartQuote(c, o, limit);
    TooLarge(c, o);
    CauseIs(ex, env, o, limit);
    assert IsQuoteToTake(c, o, OrderMaxQuote(c, o));
  }

  /** What the causes of these errors are. */
  lemma CauseIs(ex: Exchange, env: Env, o: Order, limit: nat)
    requires ex.market.config.Ok() && BookOk(ex.orders.Book(o.side.Invert()))
    ensures var c, items, w := ex.market.config, Opposing(ex, env, o), WalkFor(ex, env, o, limit);
            && (forall e :: e in {OraclePegInvalidOracleState, InvalidPriceLots, ArithmeticOverflow} ==>
                  (IsCause(ex, env, o, limit, e) <==>
                     forall price :: IsPriceFor(o, env.oracle, items, price) ==> !IsPossible(o, env.oracle, price)))
            && (IsCause(ex, env, o, limit, SeqNumOverflow) <==> ex.market.seqNum >= U64_MAX)
            && (IsCause(ex, env, o, limit, InvalidInputLotsSize) <==>
                  || o.maxBaseLots * c.baseLotSize > 0x7FFF_FFFF_FFFF_FFFF
                  || exists quote :: IsQuoteToTake(c, o, quote) && quote * c.quoteLotSize > 0x7FFF_FFFF_FFFF_FFFF)
            && (IsCause(ex, env, o, limit, WouldExecutePartially) <==>
                  o.params.FillOrKill? && TakenBase(w.actions) < o.maxBaseLots)
  {
    hide BookOk, WalkFor, Opposing, PriceFor, IsPriceFor, IsPossible, TakenBase, IsQuoteToTake, LockPrice, Waiting, AllInUse, IsCrowded,
         WouldMatchOwn, MayTake, IsOwn;
  }

  lemma StartQuote(c: Config, o: Order, limit: nat)
    requires c.Ok()
    ensures StartBudget(c, o, limit).quote == OrderMaxQuote(c, o)
  {
  }

  /** Posting, once the order has taken what it may. */
  lemma RestRefused(ex: Exchange, claims: map<ClaimId, Claim>, env: Env, o: Order, limit: nat, claims': map<ClaimId, Claim>,
                    taken: Placed, dq: int, db: int, key: nat)
    requires ex.market.config.Ok() && BookOk(ex.orders.Book(o.side.Invert())) && OrderOk(o)
    requires Good(ex, claims, 0, 0) && Good(taken.ex, claims', dq, db) && SameFrame(NextSeqNum(ex), taken.ex)
    requires taken.ex.orders.Book(o.side) == ex.orders.Book(o.side)
    requires Adds(ex, taken.ex, env, Waiting(env, o.side, WalkFor(ex, env, o, limit).actions, 0))
    requires env.owner in ex.accounts || (!o.params.FixedOrder? && !o.params.PeggedOrder?)
    requires LockingPrice(o, PriceFor(ex, env, o).0) >= 1
    requires WalkFor(ex, env, o, limit).left.base == o.maxBaseLots - TakenBase(WalkFor(ex, env, o, limit).actions)
    ensures var c, price, w := ex.market.config, PriceFor(ex, env, o).0, WalkFor(ex, env, o, limit);
            var q := PostQuantity(c, o, price, w.left.base, TakenQuote(w.actions), taken.takerFees);
            var r := PostRest(c, taken, env, o, price, key, PostedTo(o, price, w.stop, q), q);
            r.Err? && OrderError(r.error) ==> IsCause(ex, env, o, limit, r.error)
  {
    hide *;
    var c, price, w := ex.market.config, PriceFor(ex, env, o).0, WalkFor(ex, env, o, limit);
    var q := PostQuantity(c, o, price, w.left.base, TakenQuote(w.actions), taken.takerFees);
    var target := PostedTo(o, price, w.stop, q);
    TargetIs(o, price, w.stop, q);
    RestsIs(o);
    LockPriceIs(o, price);
    NotOurs();
    PostRestErr(c, taken, env, o, price, key, target, q);
    QuantityAtMost(c, o, price, w.left.base, TakenQuote(w.actions), taken.takerFees);
    var r := PostRest(c, taken, env, o, price, key, target, q);
    if target.Some? {
      NextKeeps(ex, claims);
      OwnSlots(NextSeqNum(ex), claims, taken.ex, claims', env.owner, 0, 0, dq, db);
      AddedSlots(ex, taken.ex, env, Waiting(env, o.side, w.actions, 0));
      PostRefused(taken.ex, claims', env, o, target.value, price, key, q, dq, db);
      if r == Err(InvalidPostAmount) { TooMuchToPost(c, q, w.left.base, LockingPrice(o, price)); }
      if r.Err? && OrderError(r.error) { PostingCause(ex, taken.ex, env, o, limit, r.error); }
    }
  }

  lemma NextKeeps(ex: Exchange, claims: map<ClaimId, Claim>)
    requires Good(ex, claims, 0, 0)
    ensures Good(NextSeqNum(ex), claims, 0, 0) && NextSeqNum(ex).accounts == ex.accounts
  {
    NextSeqNumKeeps(ex, claims, 0, 0);
    hide Good;
  }

  lemma RestsIs(o: Order)
    ensures MayRest(o) <==> o.params.FixedOrder? || o.params.PeggedOrder?
  {
  }

  lemma PostRestErr(c: Config, p: Placed, env: Env, o: Order, price: int, key: nat, target: Option<Component>, q: int)
    requires c.Ok()
    ensures var r := PostRest(c, p, env, o, price, key, target, q);
            && (target.None? ==> r.Ok?)
            && (target.Some? && r.Err? ==>
                  || (r.error == InvalidPostAmount && q * LockingPrice(o, price) > MaxQuoteLots(c))
                  || PostOrder(p.ex, env, o, target.value, price, key, q) == Err(r.error))
  {
    hide PostOrder, LockingPrice, MaxQuoteLots, MakerFeesCeil;
  }

  lemma QuantityAtMost(c: Config, o: Order, price: int, base: int, takenQuote: int, takerFees: int)
    requires c.Ok() && LockingPrice(o, price) >= 1
    ensures PostQuantity(c, o, price, base, takenQuote, takerFees) <= base
  {
    hide MakerFeesCeil, TruncDiv;
  }

  lemma TooMuchToPost(c: Config, q: int, base: int, lock: int)
    requires c.Ok() && q <= base && lock >= 1
    ensures q * lock > MaxQuoteLots(c) ==> base * lock * c.quoteLotSize > I64_MAX
  {
    MulOrder(q, base, lock);
    TooMany(base * lock, c.quoteLotSize);
  }

  lemma PostingCause(ex: Exchange, ex1: Exchange, env: Env, o: Order, limit: nat, e: Error)
    requires ex.market.config.Ok() && BookOk(ex.orders.Book(o.side.Invert())) && MayRest(o) && OrderError(e)
    requires env.owner in ex.accounts && env.owner in ex1.accounts && ex1.orders.Book(o.side) == ex.orders.Book(o.side)
    requires AllInUse(ex1.accounts[env.owner].slots) ==> AllInUse(ex.accounts[env.owner].slots)
    requires var w := WalkFor(ex, env, o, limit);
             |ex1.orders.heap.free| + |Waiting(env, o.side, w.actions, 0)| == |ex.orders.heap.free|
    requires var c, price, w := ex.market.config, PriceFor(ex, env, o).0, WalkFor(ex, env, o, limit);
             || PostingRefused(ex1, env.owner, o.side, e)
             || (e == InvalidPostAmount
                 && (o.maxBaseLots - TakenBase(w.actions)) * LockPrice(o, price) * c.quoteLotSize > I64_MAX)
    ensures IsCause(ex, env, o, limit, e)
  {
    hide BookOk, WalkFor, Opposing, PriceFor, Waiting, AllInUse, IsCrowded, LockPrice, TakenBase;
  }

  /** An order that is refused before it takes anything. */
  lemma EarlyCause(ex: Exchange, env: Env, o: Order, limit: nat, e: Error)
    requires ex.market.config.Ok() && BookOk(ex.orders.Book(o.side.Invert())) && o.maxQuoteLotsIncludingFees >= 0
    requires var c, price := ex.market.config, OrderPrice(o, env.oracle, Opposing(ex, env, o));
             if price.Err? then e == price.error
             else if ex.market.seqNum >= U64_MAX then e == SeqNumOverflow
             else e == InvalidInputLotsSize && (o.maxBaseLots > MaxBaseLots(c) || OrderMaxQuote(c, o) > MaxQuoteLots(c))
    ensures IsCause(ex, env, o, limit, e)
  {
    hide *;
    PricedExactlyWhen(o, env.oracle, Opposing(ex, env, o));
    CauseIs(ex, env, o, limit);
    if OrderPrice(o, env.oracle, Opposing(ex, env, o)).Err? {
      PriceCause(ex, env, o, limit, e);
    } else if ex.market.seqNum < U64_MAX {
      SizeCause(ex, env, o, limit);
    }
  }

  /** Every order that is refused is refused for a cause. */
  lemma RefusedForACause(ex: Exchange, claims: map<ClaimId, Claim>, env: Env, o: Order, limit: nat)
    requires Good(ex, claims, 0, 0) && SignerOk(ex, env) && OrderOk(o)
    requires o.params.FixedOrder? || o.params.PeggedOrder? ==> env.hasAccount
    requires ex.market.config.Ok() && ex.market.seqNum >= 0 && BookOk(ex.orders.Book(o.side.Invert()))
    requires PegLimit(o) == -1 || PegLimit(o) >= 1
    ensures var r := NewOrder(ex, env, o, limit); r.Err? ==> IsCause(ex, env, o, limit, r.error)
  {
    hide *;
    OrderOkIs(o);
    SignerIs(ex, env);
    TargetRests(o);
    ForIs(ex, env, o, limit);
    NewOrderIs(ex, env, o, limit);
    var kept := NewOrderKeeps(ex, claims, env, o, limit, 0, 0);
    PricedExactlyWhen(o, env.oracle, Opposing(ex, env, o));
    var r, c := NewOrder(ex, env, o, limit), ex.market.config;
    if r.Err? {
      ErrorIsOrders(r, ex, kept, env, o.side);
      LotSizes(c);
      if OrderPrice(o, env.oracle, Opposing(ex, env, o)).Err? || ex.market.seqNum >= U64_MAX || o.maxBaseLots > MaxBaseLots(c)
         || OrderMaxQuote(c, o) > MaxQuoteLots(c) {
        EarlyCause(ex, env, o, limit, r.error);
      } else {
        OrderAtRefused(ex, claims, env, o, limit);
      }
    }
  }

  lemma LotSizes(c: Config)
    requires c.Ok()
    ensures c.baseLotSize > 0 && c.quoteLotSize > 0
  {
  }

  lemma OrderAtRefused(ex: Exchange, claims: map<ClaimId, Claim>, env: Env, o: Order, limit: nat)
    requires Good(ex, claims, 0, 0) && SignerOk(ex, env) && OrderOk(o)
    requires o.params.FixedOrder? || o.params.PeggedOrder? ==> env.hasAccount
    requires ex.market.config.Ok() && 0 <= ex.market.seqNum < U64_MAX && BookOk(ex.orders.Book(o.side.Invert()))
    requires OrderPrice(o, env.oracle, Opposing(ex, env, o)).Ok?
    requires LockingPrice(o, PriceFor(ex, env, o).0) >= 1 && IsU64(PriceFor(ex, env, o).1)
    ensures var r := OrderAt(ex, env, o, limit, PriceFor(ex, env, o).0, PriceFor(ex, env, o).1);
            r.Err? && OrderError(r.error) ==> IsCause(ex, env, o, limit, r.error)
  {
    hide *;
    var ((price, data), w, c) := (PriceFor(ex, env, o), WalkFor(ex, env, o, limit), ex.market.config);
    var (items, t, b) := (Opposing(ex, env, o), TakerFor(ex, env, o), StartBudget(ex.market.config, o, limit));
    OrderOkIs(o);
    SignerIs(ex, env);
    SeqNumInRange(ex.market.seqNum);
    ForIs(ex, env, o, limit);
    OrderAtIs(ex, env, o, limit, price, data);
    TakingRefused(ex, claims, env, o, limit);
    GoodParts(ex, claims, 0, 0);
    TermsAre(c, o, env.owner, env.hasAccount, price, limit);
    StartIsOk(c, o, limit);
    WalkOfIs(ex, env, o, limit, price);
    WalkTotals(t, items, b);
    LeftIsOk(w);
    CancelsAreOwn(t, env, items, w.actions);
    FillOrKillIs(o);
    var taken := TakeOrder(ex, env, o, price, w);
    if taken.Ok? {
      var claims' := TakeStep(ex, claims, env, o, limit, price, 0, 0);
      TakingAdds(ex, env, o, price, w);
      MatchingChangesBooks(ex, env, o, limit, price);
      RestRefused(ex, claims, env, o, limit, claims', taken.value, TakerQuote(taken.value, env, o.side),
                  TakerBase(taken.value, env, o.side), NewNodeKey(o.side, data, ex.market.seqNum + 1));
      CauseIs(ex, env, o, limit);
    }
  }

  // ---------- and the other way around ----------

  /** An order that is accepted has a possible price and an arrival number, and none of its sizes is too large. */
  lemma AcceptedOnlyIf(ex: Exchange, env: Env, o: Order, limit: nat)
    requires Succeeds(ex, env, o, limit)
    ensures var (c, price, p) := (ex.market.config, PriceFor(ex, env, o).0, Outcome(ex, env, o, limit));
            && IsPriceFor(o, env.oracle, Opposing(ex, env, o), price) && IsPossible(o, env.oracle, price)
            && ex.market.seqNum < 0xFFFF_FFFF_FFFF_FFFF && o.maxBaseLots * c.baseLotSize <= 0x7FFF_FFFF_FFFF_FFFF
            && (exists quote :: IsQuoteToTake(c, o, quote) && quote * c.quoteLotSize <= 0x7FFF_FFFF_FFFF_FFFF)
            && (p.orderId.Some? ==> p.postedQuote <= 0x7FFF_FFFF_FFFF_FFFF)
  {
    hide *;
    var (c, w, (price, data), p) :=
      (ex.market.config, WalkFor(ex, env, o, limit), PriceFor(ex, env, o), Outcome(ex, env, o, limit));
    Accepted(ex, env, o, limit);
    Stages(ex, env, o, limit);
    LotSizes(c);
    NotTooMany(o.maxBaseLots, c.baseLotSize);
    NotTooMany(OrderMaxQuote(c, o), c.quoteLotSize);
    SizesAre(c);
    TermsAre(c, o, env.owner, env.hasAccount, price, limit);
    StartQuote(c, o, limit);
    PricedIs(o, env.oracle, Opposing(ex, env, o));
    NoIdYet(ex, env, o, price, w);
    var taken := TakeOrder(ex, env, o, price, w).value;
    var q := PostQuantity(c, o, price, w.left.base, TakenQuote(w.actions), taken.takerFees);
    PostRestFits(c, taken, env, o, price, NewNodeKey(o.side, data, ex.market.seqNum + 1), PostedTo(o, price, w.stop, q), q);
  }

  lemma PricedIs(o: Order, oracle: Option<int>, opposing: seq<Item>)
    ensures var r := OrderPrice(o, oracle, opposing);
            r.Ok? ==> IsPriceFor(o, oracle, opposing, r.value.0) && IsPossible(o, oracle, r.value.0)
  {
    if OrderPrice(o, oracle, opposing).Ok? { PriceIsRight(o, oracle, opposing); }
    hide IsPriceFor, BestPrice;
  }

  lemma SizesAre(c: Config)
    requires c.Ok() && c.baseLotSize > 0 && c.quoteLotSize > 0
    ensures MaxBaseLots(c) == I64_MAX / c.baseLotSize && MaxQuoteLots(c) == I64_MAX / c.quoteLotSize
    ensures I64_MAX == 0x7FFF_FFFF_FFFF_FFFF && U64_MAX == 0xFFFF_FFFF_FFFF_FFFF
  {
  }

  lemma NotTooMany(lots: int, lotSize: int)
    requires lotSize >= 1
    ensures lots <= I64_MAX / lotSize ==> lots * lotSize <= I64_MAX
  {
    var m := I64_MAX / lotSize;
    assert m * lotSize <= I64_MAX;
    if lots <= m { MulOrder(lots, m, lotSize); }
  }

  lemma PostRestFits(c: Config, p: Placed, env: Env, o: Order, price: int, key: nat, target: Option<Component>, q: int)
    requires c.Ok()
    ensures var r := PostRest(c, p, env, o, price, key, target, q);
            r.Ok? && p.orderId.None? && r.value.orderId.Some? ==> r.value.postedQuote <= 0x7FFF_FFFF_FFFF_FFFF
  {
    NotTooMany(q * LockingPrice(o, price), c.quoteLotSize);
    hide PostOrder, LockingPrice, MakerFeesCeil;
  }
}
