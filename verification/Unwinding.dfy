/** No funds can get stuck: from every state that instructions can reach, instructions lead to a market that may be closed. */
module Unwindings {
  import opened Types
  import opened Markets
  import opened Accounts
  import opened Sums
  import opened Ledgers
  import opened Solvency
  import opened BookSideModels
  import opened EventHeaps
  import opened Exchanges
  import opened ExchangeInvariants
  import opened ExchangeSteps
  import opened ExchangeActions
  import opened Instructions
  import opened InstructionFunds
  import opened InstructionOrders
  import opened InstructionEvents
  import opened EventsCommute
  import opened Runs

  const AllOrders: Filter := Filter(None, None)

  function Everyone(ps: seq<Pubkey>): (s: set<Pubkey>)
    ensures forall p :: p in s <==> p in ps
  {
    set p | p in ps
  }

  function CancelAlls(ps: seq<Pubkey>): seq<Instruction> {
    if ps == [] then [] else [CancelAllOrdersIx(ps[0], AllOrders, U8_MAX)] + CancelAlls(ps[1..])
  }

  function Consumes(remaining: set<Pubkey>, n: nat): seq<Instruction> {
    if n == 0 then [] else [ConsumeEventsIx(remaining, MAX_EVENTS_CONSUME, [])] + Consumes(remaining, n - 1)
  }

  function Settles(ps: seq<Pubkey>): seq<Instruction> {
    if ps == [] then [] else [SettleFundsIx(ps[0], false)] + Settles(ps[1..])
  }

  /** Every account cancels its orders, all events are consumed, every account is settled, and the fees are swept. */
  function Unwinding(ps: seq<Pubkey>, events: nat): seq<Instruction> {
    CancelAlls(ps) + Consumes(Everyone(ps), events) + Settles(ps) + [SweepFeesIx]
  }

  lemma {:induction false} RunConcat(ex: Exchange, a: seq<Instruction>, b: seq<Instruction>)
    ensures Run(ex, a + b) == Run(Run(ex, a), b)
    decreases |a|
  {
    hide Execute;
    if a == [] {
      assert a + b == b;
    } else {
      assert (a + b)[0] == a[0] && (a + b)[1..] == a[1..] + b;
      RunConcat(Execute(ex, a[0]), a[1..], b);
    }
  }

  lemma RunNone(ex: Exchange)
    ensures Run(ex, []) == ex
  {
  }

  lemma RunCons(ex: Exchange, i: Instruction, rest: seq<Instruction>)
    ensures Run(ex, [i] + rest) == Run(Execute(ex, i), rest)
  {
    hide Execute;
    assert ([i] + rest)[0] == i && ([i] + rest)[1..] == rest;
  }

  // ---------- cancelling ----------

  /** The account's orders on the books all sit in slots from `n` on. */
  ghost predicate RestFrom(ex: Exchange, p: Pubkey, n: nat) {
    forall side, comp, key :: key in ex.orders.Book(side).Get(comp) ==>
      ex.orders.Book(side).Get(comp)[key].owner != p || ex.orders.Book(side).Get(comp)[key].ownerSlot >= n
  }

  ghost predicate NoOrdersOf(ex: Exchange, p: Pubkey) {
    forall side, comp, key :: key in ex.orders.Book(side).Get(comp) ==> ex.orders.Book(side).Get(comp)[key].owner != p
  }

  /** Orders are only taken off the books; the events and the set of accounts stay. */
  ghost predicate OrdersLeave(ex: Exchange, ex': Exchange) {
    && ex'.orders.heap == ex.orders.heap && ex'.accounts.Keys == ex.accounts.Keys
    && forall side, comp, key :: key in ex'.orders.Book(side).Get(comp) ==>
         key in ex.orders.Book(side).Get(comp) && ex'.orders.Book(side).Get(comp)[key] == ex.orders.Book(side).Get(comp)[key]
  }

  lemma OrdersLeaveTransitive(a: Exchange, b: Exchange, c: Exchange)
    requires OrdersLeave(a, b) && OrdersLeave(b, c)
    ensures OrdersLeave(a, c)
    ensures forall p :: NoOrdersOf(b, p) ==> NoOrdersOf(c, p)
  {
    hide Orders.Book, BookSideModel.Get;
  }

  lemma NothingLeaves(ex: Exchange)
    ensures OrdersLeave(ex, ex)
  {
  }

  /** The slot of a resting order names it. */
  lemma RestsInSlot(ex: Exchange, claims: map<ClaimId, Claim>, side: Side, comp: Component, key: nat)
    requires Tally(ex.orders, claims) && Tagged(ex.accounts, claims) && key in ex.orders.Book(side).Get(comp)
    ensures var leaf := ex.orders.Book(side).Get(comp)[key];
            && leaf.owner in ex.accounts && leaf.ownerSlot < |ex.accounts[leaf.owner].slots|
            && var oo := ex.accounts[leaf.owner].slots[leaf.ownerSlot];
               !oo.isFree && oo.side == side && oo.comp == comp && oo.id == key
  {
    var i := OnBook(side, comp, key);
    assert i in claims && Backed(ex.orders, i, claims[i]);
    LeafClaimFields(side, comp, ex.orders.Book(side).Get(comp)[key]);
    hide Tally, LeafClaim;
    assert TagOk(ex.accounts, i, claims[i]);
  }

  /** A slot that names no order on the books holds none of them. */
  lemma SlotIsBare(ex: Exchange, claims: map<ClaimId, Claim>, p: Pubkey, s: nat)
    requires Tally(ex.orders, claims) && Tagged(ex.accounts, claims) && RestFrom(ex, p, s)
    requires p in ex.accounts && s < |ex.accounts[p].slots|
    requires var oo := ex.accounts[p].slots[s]; oo.isFree || oo.id !in ex.orders.Book(oo.side).Get(oo.comp)
    ensures RestFrom(ex, p, s + 1)
  {
    hide Tally, Tagged, Orders.Book, BookSideModel.Get;
    forall side, comp, key | key in ex.orders.Book(side).Get(comp)
      ensures ex.orders.Book(side).Get(comp)[key].owner != p || ex.orders.Book(side).Get(comp)[key].ownerSlot >= s + 1
    {
      RestsInSlot(ex, claims, side, comp, key);
    }
  }

  lemma WithoutGet(ex: Exchange, side: Side, comp: Component, key: nat, s: Side, c: Component)
    ensures ex.Without(side, comp, key).orders.Book(s).Get(c)
         == if s == side && c == comp then ex.orders.Book(s).Get(c) - {key} else ex.orders.Book(s).Get(c)
    ensures ex.Without(side, comp, key).orders.heap == ex.orders.heap
  {
  }

  /** Once the order in a slot is taken off the book, the account's other orders sit in other slots. */
  lemma SlotIsCleared(ex: Exchange, claims: map<ClaimId, Claim>, p: Pubkey, s: nat, ex': Exchange)
    requires Tally(ex.orders, claims) && Tagged(ex.accounts, claims) && RestFrom(ex, p, s)
    requires p in ex.accounts && s < |ex.accounts[p].slots|
    requires var oo := ex.accounts[p].slots[s]; ex'.orders == ex.Without(oo.side, oo.comp, oo.id).orders
    requires ex'.accounts.Keys == ex.accounts.Keys
    ensures RestFrom(ex', p, s + 1) && OrdersLeave(ex, ex')
  {
    var oo := ex.accounts[p].slots[s];
    WithoutGet(ex, oo.side, oo.comp, oo.id, Bid, Fixed);
    hide Tally, Tagged, Orders.Book, BookSideModel.Get, Exchange.Without;
    forall side, comp, key | key in ex'.orders.Book(side).Get(comp)
      ensures key in ex.orders.Book(side).Get(comp)
      ensures ex'.orders.Book(side).Get(comp)[key] == ex.orders.Book(side).Get(comp)[key]
      ensures ex'.orders.Book(side).Get(comp)[key].owner != p || ex'.orders.Book(side).Get(comp)[key].ownerSlot >= s + 1
    {
      WithoutGet(ex, oo.side, oo.comp, oo.id, side, comp);
      RestsInSlot(ex, claims, side, comp, key);
    }
  }

  lemma TakesAll(oo: OpenOrder)
    ensures AllOrders.Takes(oo) <==> !oo.isFree
  {
  }

  /** Cancelling all orders from slot `i` on clears these slots, if the limit is high enough. */
  lemma {:induction false} CancelAllClears(ex: Exchange, claims: map<ClaimId, Claim>, p: Pubkey, i: nat, limit: nat)
      returns (claims': map<ClaimId, Claim>)
    requires Good(ex, claims, 0, 0) && p in ex.accounts && i <= MAX_OPEN_ORDERS <= i + limit && RestFrom(ex, p, i)
    ensures var r := CancelAllFrom(ex, p, AllOrders, i, limit);
            r.Ok? && Good(r.value.0, claims', 0, 0) && OrdersLeave(ex, r.value.0) && RestFrom(r.value.0, p, MAX_OPEN_ORDERS)
    decreases MAX_OPEN_ORDERS - i
  {
    hide *;
    NothingLeaves(ex);
    SlotCount(ex, claims, p, 0, 0);
    CancelAllSteps(ex, p, AllOrders, i, limit);
    GoodParts(ex, claims, 0, 0);
    claims' := claims;
    if i < MAX_OPEN_ORDERS {
      var oo := ex.accounts[p].slots[i];
      TakesAll(oo);
      if oo.isFree {
        SlotIsBare(ex, claims, p, i);
        claims' := CancelAllClears(ex, claims, p, i + 1, limit);
      } else {
        InUseIs(ex.accounts, p, i);
        claims' := CancelAtKeeps(ex, claims, p, i);
        var r := CancelAt(ex, p, oo.side, oo.comp, oo.id);
        if r.Err? {
          SlotIsBare(ex, claims, p, i);
          claims' := CancelAllClears(ex, claims, p, i + 1, limit - 1);
        } else {
          SameConfig(ex, r.value.0);
          SlotIsCleared(ex, claims, p, i, r.value.0);
          assert p in r.value.0.accounts.Keys;
          claims' := CancelAllClears(r.value.0, claims', p, i + 1, limit - 1);
          OrdersLeaveTransitive(ex, r.value.0, CancelAllFrom(r.value.0, p, AllOrders, i + 1, limit - 1).value.0);
        }
      }
    }
  }

  lemma RestFromStart(ex: Exchange, p: Pubkey)
    ensures RestFrom(ex, p, 0)
  {
  }

  lemma LimitIsEnough()
    ensures MAX_OPEN_ORDERS <= U8_MAX
  {
  }

  /** An account has no slots beyond the last. */
  lemma NoneRest(ex: Exchange, claims: map<ClaimId, Claim>, p: Pubkey)
    requires Good(ex, claims, 0, 0) && (p in ex.accounts ==> RestFrom(ex, p, MAX_OPEN_ORDERS))
    ensures NoOrdersOf(ex, p)
  {
    GoodParts(ex, claims, 0, 0);
    if p in ex.accounts { SlotCount(ex, claims, p, 0, 0); }
    hide Good, Inv, Tally, Tagged, Orders.Book, BookSideModel.Get;
    forall side, comp, key | key in ex.orders.Book(side).Get(comp)
      ensures ex.orders.Book(side).Get(comp)[key].owner != p
    {
      RestsInSlot(ex, claims, side, comp, key);
    }
  }

  lemma AccountCancels(ex: Exchange, p: Pubkey)
    requires Healthy(ex)
    ensures var ex' := Execute(ex, CancelAllOrdersIx(p, AllOrders, U8_MAX));
            Healthy(ex') && OrdersLeave(ex, ex') && NoOrdersOf(ex', p)
  {
    hide *;
    var claims := SomeClaims(ex);
    var i := CancelAllOrdersIx(p, AllOrders, U8_MAX);
    GoodCanTrade(ex, claims, 0, 0);
    OutcomeIs(ex, i);
    ExecuteIs(ex, i);
    NothingLeaves(ex);
    RestFromStart(ex, p);
    LimitIsEnough();
    if p in ex.accounts { claims := CancelAllClears(ex, claims, p, 0, U8_MAX); }
    NoneRest(Execute(ex, i), claims, p);
    IsHealthy(Execute(ex, i), claims);
  }

  lemma {:induction false} AllCancel(ex: Exchange, ps: seq<Pubkey>)
    requires Healthy(ex)
    ensures var ex' := Run(ex, CancelAlls(ps));
            Healthy(ex') && OrdersLeave(ex, ex') && forall p :: p in ps ==> NoOrdersOf(ex', p)
    decreases |ps|
  {
    hide Run, Execute, Healthy, OrdersLeave, NoOrdersOf;
    if ps == [] {
      RunNone(ex);
      NothingLeaves(ex);
    } else {
      var i := CancelAllOrdersIx(ps[0], AllOrders, U8_MAX);
      RunCons(ex, i, CancelAlls(ps[1..]));
      AccountCancels(ex, ps[0]);
      AllCancel(Execute(ex, i), ps[1..]);
      OrdersLeaveTransitive(ex, Execute(ex, i), Run(ex, CancelAlls(ps)));
    }
  }

  // ---------- consuming ----------

  lemma {:induction false} AllHandled(heap: HeapModel, remaining: set<Pubkey>, slots: seq<nat>)
    requires forall s :: s in slots ==> s in heap.pending && heap.pending[s].For() in remaining
    ensures Handled(heap, remaining, slots) == slots
  {
    if slots != [] {
      assert slots[0] in slots && forall s :: s in slots[1..] ==> s in slots;
      AllHandled(heap, remaining, slots[1..]);
    }
  }

  lemma {:induction false} LeftIsShorter(order: seq<nat>, gone: seq<nat>)
    ensures |Left(order, gone)| <= |order|
    ensures order != [] && order[0] in gone ==> |Left(order, gone)| < |order|
  {
    if order != [] { LeftIsShorter(order[1..], gone); }
  }

  /** The slots picked when none are given. */
  function FirstEvents(heap: HeapModel): seq<nat> { heap.order[..Min(MAX_EVENTS_CONSUME, |heap.order|)] }

  lemma FirstPicked(heap: HeapModel)
    requires heap.Ok()
    ensures var picked := FirstEvents(heap);
            && Pick(heap, [] + heap.order, [], Min(MAX_EVENTS_CONSUME, MAX_EVENTS_CONSUME)) == Ok(picked)
            && Picked(heap, picked) && (heap.order != [] ==> picked != [] && picked[0] == heap.order[0])
  {
    hide Pick, Picked, HeapModel.Ok;
    NonePicked(heap);
    assert [] + heap.order == heap.order[0..] && heap.order[..0] == [];
    PickInOrder(heap, 0, MAX_EVENTS_CONSUME);
    PickOk(heap, heap.order, [], MAX_EVENTS_CONSUME);
  }

  lemma NonePicked(heap: HeapModel)
    ensures Picked(heap, [])
  {
  }

  lemma ConsumeIs(ex: Exchange, remaining: set<Pubkey>, picked: seq<nat>)
    requires Pick(ex.orders.heap, [] + ex.orders.heap.order, [], Min(MAX_EVENTS_CONSUME, MAX_EVENTS_CONSUME)) == Ok(picked)
    ensures ConsumeEvents(ex, remaining, MAX_EVENTS_CONSUME, []) == ConsumeSlots(ex, remaining, picked)
  {
    hide ConsumeSlots, Pick;
  }

  lemma HeadIsGone(order: seq<nat>, gone: seq<nat>)
    requires order != [] && gone != [] && gone[0] == order[0]
    ensures order[0] in gone
  {
  }

  /** Consuming with all accounts passed along takes events off the heap as long as there are any. */
  lemma EventsConsumed(ex: Exchange, remaining: set<Pubkey>)
    requires Healthy(ex) && ex.accounts.Keys <= remaining
    ensures var ex' := Execute(ex, ConsumeEventsIx(remaining, MAX_EVENTS_CONSUME, []));
            && Healthy(ex') && ex'.accounts.Keys == ex.accounts.Keys
            && ex'.orders.bids == ex.orders.bids && ex'.orders.asks == ex.orders.asks
            && |ex'.orders.heap.order| <= |ex.orders.heap.order|
            && (ex.orders.heap.order != [] ==> |ex'.orders.heap.order| < |ex.orders.heap.order|)
  {
    hide *;
    var claims := SomeClaims(ex);
    var i, heap := ConsumeEventsIx(remaining, MAX_EVENTS_CONSUME, []), ex.orders.heap;
    GoodCanTrade(ex, claims, 0, 0);
    GoodParts(ex, claims, 0, 0);
    OutcomeIs(ex, i);
    ExecuteIs(ex, i);
    FirstPicked(heap);
    var picked := FirstEvents(heap);
    ConsumeIs(ex, remaining, picked);
    PickedIsPending(heap, picked);
    PendingIsApart(ex, claims);
    forall s | s in picked ensures heap.pending[s].For() in remaining { assert heap.pending[s].For() in ex.accounts.Keys; }
    AllHandled(heap, remaining, picked);
    claims := ConsumeKeeps(ex, claims, remaining, picked);
    SameConfig(ex, Execute(ex, i));
    LeftIsShorter(heap.order, picked);
    if heap.order != [] { HeadIsGone(heap.order, picked); }
    IsHealthy(Execute(ex, i), claims);
  }

  lemma PickedIsPending(heap: HeapModel, slots: seq<nat>)
    requires Picked(heap, slots)
    ensures forall s :: s in slots ==> s in heap.pending
  {
  }

  lemma {:induction false} AllConsumed(ex: Exchange, remaining: set<Pubkey>, n: nat)
    requires Healthy(ex) && ex.accounts.Keys <= remaining && |ex.orders.heap.order| <= n
    ensures var ex' := Run(ex, Consumes(remaining, n));
            && Healthy(ex') && ex'.accounts.Keys == ex.accounts.Keys
            && ex'.orders.bids == ex.orders.bids && ex'.orders.asks == ex.orders.asks && ex'.orders.heap.order == []
    decreases n
  {
    hide Run, Execute, Healthy;
    if n == 0 {
      RunNone(ex);
    } else {
      var i := ConsumeEventsIx(remaining, MAX_EVENTS_CONSUME, []);
      RunCons(ex, i, Consumes(remaining, n - 1));
      EventsConsumed(ex, remaining);
      AllConsumed(Execute(ex, i), remaining, n - 1);
    }
  }

  // ---------- settling ----------

  predicate Drained(a: Account) { a.position.IsEmpty() }

  /** Books and heap are empty, so nothing is claimed. */
  lemma NothingClaimed(ex: Exchange, claims: map<ClaimId, Claim>)
    requires Tally(ex.orders, claims) && ex.orders.heap.Ok() && ex.orders.heap.order == []
    requires forall side, comp, key :: key !in ex.orders.Book(side).Get(comp)
    ensures claims == map[]
  {
    hide Orders.Book, BookSideModel.Get, Backed;
    if claims != map[] {
      var i :| i in claims;
      NotBacked(ex.orders, i, claims[i]);
    }
  }

  lemma NotBacked(o: Orders, i: ClaimId, x: Claim)
    requires o.heap.Ok() && o.heap.order == []
    requires forall side, comp, key :: key !in o.Book(side).Get(comp)
    ensures !Backed(o, i, x)
  {
    hide Orders.Book, BookSideModel.Get, NoDuplicates;
    if i.InHeap? { assert i.slot in o.heap.pending <==> i.slot in o.heap.order; }
  }

  /** Without claims settling leaves nothing in the account. */
  lemma NothingStays(c: Config, p: Pubkey, a: Account, claims: map<ClaimId, Claim>)
    requires AccountOk(c, p, a, claims) && claims == map[]
    ensures a.position.bidsBaseLots == 0 && a.position.asksBaseLots == 0 && a.position.bidsQuoteLots == 0
    ensures a.position.lockedMakerFees == RoundOff(c, a.position)
  {
    SumOfNone(claims, WeightOf(c, BidBase(p)));
    SumOfNone(claims, WeightOf(c, AskBase(p)));
    SumOfNone(claims, WeightOf(c, BidQuote(p)));
  }

  lemma SettledIsDrained(ex: Exchange, p: Pubkey)
    requires p in ex.accounts
    requires var a := ex.accounts[p].position;
             a.bidsBaseLots == 0 && a.asksBaseLots == 0 && a.bidsQuoteLots == 0 && a.lockedMakerFees == RoundOff(ex.market.config, a)
    ensures SettleFunds(ex, p, false).Ok?
    ensures var ex' := SettleFunds(ex, p, false).value.0;
            && ex'.orders == ex.orders && ex'.accounts.Keys == ex.accounts.Keys && p in ex'.accounts && Drained(ex'.accounts[p])
            && forall q :: q in ex.accounts && q != p ==> q in ex'.accounts && ex'.accounts[q] == ex.accounts[q]
  {
    hide RoundOff;
  }

  /** The account is drained, and those that were drained stay so. */
  ghost predicate Drains(ex: Exchange, ex': Exchange, ps: seq<Pubkey>) {
    && ex'.orders == ex.orders && ex'.accounts.Keys == ex.accounts.Keys
    && forall p :: p in ex'.accounts && (p in ps || (p in ex.accounts && Drained(ex.accounts[p]))) ==> Drained(ex'.accounts[p])
  }

  lemma AccountSettles(ex: Exchange, p: Pubkey)
    requires Good(ex, map[], 0, 0)
    ensures var ex' := Execute(ex, SettleFundsIx(p, false)); Good(ex', map[], 0, 0) && Drains(ex, ex', [p])
  {
    hide Good, CanTrade, Execute, Outcome, SettleFunds, Drained, RoundOff, AccountOk, Inv;
    var i := SettleFundsIx(p, false);
    GoodCanTrade(ex, map[], 0, 0);
    OutcomeIs(ex, i);
    ExecuteIs(ex, i);
    if p in ex.accounts {
      SettleKeeps(ex, map[], p, false);
      OwnerFacts(ex, map[], p, 0, 0);
      NothingStays(ex.market.config, p, ex.accounts[p], map[]);
      SettledIsDrained(ex, p);
    } else {
      SettleNeedsAccount(ex, p, false);
    }
  }

  lemma DrainsMore(a: Exchange, b: Exchange, c: Exchange, ps: seq<Pubkey>)
    requires ps != [] && Drains(a, b, [ps[0]]) && Drains(b, c, ps[1..])
    ensures Drains(a, c, ps)
  {
    hide Drained;
    forall p | p in c.accounts && (p in ps || (p in a.accounts && Drained(a.accounts[p])))
      ensures Drained(c.accounts[p])
    {
      assert p in c.accounts.Keys && p in b.accounts.Keys && p in a.accounts.Keys;
      assert p in ps ==> p in [ps[0]] || p in ps[1..];
    }
  }

  lemma {:induction false} AllSettle(ex: Exchange, ps: seq<Pubkey>)
    requires Good(ex, map[], 0, 0)
    ensures var ex' := Run(ex, Settles(ps)); Good(ex', map[], 0, 0) && Drains(ex, ex', ps)
    decreases |ps|
  {
    hide Run, Execute, Good, Drained;
    if ps == [] {
      RunNone(ex);
    } else {
      var i := SettleFundsIx(ps[0], false);
      RunCons(ex, i, Settles(ps[1..]));
      AccountSettles(ex, ps[0]);
      AllSettle(Execute(ex, i), ps[1..]);
      DrainsMore(ex, Execute(ex, i), Run(ex, Settles(ps)), ps);
    }
  }

  // ---------- sweeping ----------

  lemma SweepIs(ex: Exchange)
    ensures var ex' := Execute(ex, SweepFeesIx);
            ex' == SweepFees(ex).0 && ex'.accounts == ex.accounts && ex'.orders == ex.orders && ex'.market.feesAvailable == 0
  {
  }

  lemma DrainedMeans(l: Ledger)
    requires l.claims == map[] && l.market.feesAvailable == 0 && forall p :: p in l.accounts ==> Drained(l.accounts[p])
    ensures NothingOwed(l)
  {
  }

  ghost predicate AllEmpty(ex: Exchange) { forall p :: p in ex.accounts ==> Drained(ex.accounts[p]) }

  lemma EmptyMayLeave(ex: Exchange)
    requires AllEmpty(ex)
    ensures forall p :: p in ex.accounts ==> CloseAccount(ex, p).Ok?
  {
  }

  lemma SweptMayClose(ex: Exchange)
    requires Good(ex, map[], 0, 0) && AllEmpty(ex)
    ensures var ex' := Run(ex, [SweepFeesIx]); Healthy(ex') && MayClose(ex') && AllEmpty(ex')
  {
    hide Run, Execute, Good, Drained, MayClose, SweepFees, NothingOwed;
    var ex' := Execute(ex, SweepFeesIx);
    assert [SweepFeesIx] + [] == [SweepFeesIx];
    RunCons(ex, SweepFeesIx, []);
    RunNone(ex');
    SweepIs(ex);
    SweepKeeps(ex, map[]);
    DrainedMeans(Ledger(ex'.market, ex'.accounts, map[]));
    EmptyMarketIsEmpty(ex', map[]);
    IsHealthy(ex', map[]);
  }

  // ---------- all of it ----------

  lemma BooksAreBare(ex: Exchange, ps: seq<Pubkey>)
    requires Healthy(ex) && (forall p :: p in ex.accounts ==> p in ps) && forall p :: p in ps ==> NoOrdersOf(ex, p)
    ensures forall side, comp, key :: key !in ex.orders.Book(side).Get(comp)
  {
    hide Good, Inv, Tally, Tagged, Orders.Book, BookSideModel.Get;
    var claims := SomeClaims(ex);
    GoodParts(ex, claims, 0, 0);
    forall side, comp, key
      ensures key !in ex.orders.Book(side).Get(comp)
    {
      if key in ex.orders.Book(side).Get(comp) { RestsInSlot(ex, claims, side, comp, key); }
    }
  }

  lemma SameBooksBare(ex: Exchange, ex': Exchange)
    requires ex'.orders.bids == ex.orders.bids && ex'.orders.asks == ex.orders.asks
    requires forall side, comp, key :: key !in ex.orders.Book(side).Get(comp)
    ensures forall side, comp, key :: key !in ex'.orders.Book(side).Get(comp)
  {
    assert forall side :: ex'.orders.Book(side) == ex.orders.Book(side);
    hide Orders.Book, BookSideModel.Get;
  }

  /** No funds can get stuck. Whatever happened before: once every account has cancelled its orders, the events are consumed, the
      accounts settled and the fees swept, the vaults are empty and the market may be closed, as may every account. */
  lemma FundsAreNeverStuck(ex: Exchange, ps: seq<Pubkey>, events: nat)
    requires Healthy(ex) && (forall p :: p in ex.accounts ==> p in ps) && |ex.orders.heap.order| <= events
    ensures var ex' := Run(ex, Unwinding(ps, events));
            && Healthy(ex') && MayClose(ex') && ex'.accounts.Keys == ex.accounts.Keys
            && forall p :: p in ex'.accounts ==> CloseAccount(ex', p).Ok?
  {
    hide *;
    var remaining := Everyone(ps);
    UnwindingRuns(ex, ps, events);
    AllCancel(ex, ps);
    var ex1 := Run(ex, CancelAlls(ps));
    LeavesHeap(ex, ex1);
    assert forall p :: p in ex1.accounts ==> p in ex1.accounts.Keys;
    BooksAreBare(ex1, ps);
    AllConsumed(ex1, remaining, events);
    var ex2 := Run(ex1, Consumes(remaining, events));
    SameBooksBare(ex1, ex2);
    var claims := SomeClaims(ex2);
    GoodParts(ex2, claims, 0, 0);
    NothingClaimed(ex2, claims);
    AllSettle(ex2, ps);
    var ex3 := Run(ex2, Settles(ps));
    AllDrained(ex2, ex3, ps);
    SweptMayClose(ex3);
    SweptKeys(ex3);
    EmptyMayLeave(Run(ex3, [SweepFeesIx]));
  }

  lemma UnwindingRuns(ex: Exchange, ps: seq<Pubkey>, events: nat)
    ensures Run(ex, Unwinding(ps, events))
         == Run(Run(Run(Run(ex, CancelAlls(ps)), Consumes(Everyone(ps), events)), Settles(ps)), [SweepFeesIx])
  {
    hide Run, CancelAlls, Consumes, Settles;
    var a, b, c := CancelAlls(ps), Consumes(Everyone(ps), events), Settles(ps);
    RunConcat(ex, a + b + c, [SweepFeesIx]);
    RunConcat(ex, a + b, c);
    RunConcat(ex, a, b);
  }

  lemma LeavesHeap(ex: Exchange, ex': Exchange)
    requires OrdersLeave(ex, ex')
    ensures ex'.orders.heap == ex.orders.heap && ex'.accounts.Keys == ex.accounts.Keys
  {
  }

  lemma AllDrained(ex: Exchange, ex': Exchange, ps: seq<Pubkey>)
    requires Drains(ex, ex', ps) && forall p :: p in ex.accounts ==> p in ps
    ensures AllEmpty(ex') && ex'.accounts.Keys == ex.accounts.Keys
  {
    hide Drained;
    assert forall p :: p in ex'.accounts ==> p in ex.accounts.Keys;
  }

  lemma SweptKeys(ex: Exchange)
    ensures Run(ex, [SweepFeesIx]).accounts == ex.accounts
  {
    hide Execute;
    RunCons(ex, SweepFeesIx, []);
    RunNone(Execute(ex, SweepFeesIx));
    assert [SweepFeesIx] + [] == [SweepFeesIx];
    SweepIs(ex);
  }
}
