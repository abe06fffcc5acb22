/** Whole runs: the invariant holds in every state that instructions can reach, and what follows from it. */
module Runs {
  import opened Types
  import opened Prices
  import opened Markets
  import opened Accounts
  import opened Sums
  import opened Ledgers
  import opened Solvency
  import opened BookSideModels
  import opened EventHeaps
  import opened Exchanges
  import opened ExchangeInvariants
  import opened ExchangeSteps
  import opened Instructions
  import opened InstructionFunds
  import opened InstructionOrders
  import opened InstructionBatch
  import opened InstructionEdits
  import opened InstructionEvents
  import opened EventsCommute

  datatype Instruction =
    | PlaceOrderIx(env: Env, wallet: Wallet, order: Order, limit: nat)
    | PlaceTakeOrderIx(env: Env, wallet: Wallet, order: Order, limit: nat)
    | CancelAllAndPlaceOrdersIx(env: Env, wallet: Wallet, cancel: bool, orders: seq<Order>, limit: nat)
    | EditOrderIx(env: Env, wallet: Wallet, clientId: nat, expectedCancelSize: int, order: Order, limit: nat)
    | CancelOrderIx(account: Pubkey, id: nat)
    | CancelAllOrdersIx(account: Pubkey, filter: Filter, limit: nat)
    | ConsumeEventsIx(remaining: set<Pubkey>, limit: nat, slots: seq<nat>)
    | SettleFundsIx(account: Pubkey, hasReferrer: bool)
    | DepositIx(account: Pubkey, base: nat, quote: nat)
    | RefillIx(account: Pubkey, base: nat, quote: nat)
    | SweepFeesIx
    | OpenAccountIx(account: Pubkey)
    | CloseAccountIx(account: Pubkey)

  ghost function Outcome(ex: Exchange, i: Instruction): Result<Exchange> {
    match i
    case PlaceOrderIx(env, wallet, o, limit) => if CanTrade(ex) then PlaceOrder(ex, env, wallet, o, limit) else Err(AccountMissing)
    case PlaceTakeOrderIx(env, wallet, o, limit) =>
      if CanTrade(ex) then PlaceTakeOrder(ex, env, wallet, o, limit) else Err(AccountMissing)
    case CancelAllAndPlaceOrdersIx(env, wallet, cancel, orders, limit) =>
      CancelAllAndPlaceOrders(ex, env, wallet, cancel, orders, limit)
    case EditOrderIx(env, wallet, id, expected, o, limit) => EditOrder(ex, env, wallet, id, expected, o, limit)
    case CancelOrderIx(p, id) => CancelOrderById(ex, p, id)
    case CancelAllOrdersIx(p, filter, limit) =>
      if p !in ex.accounts then Err(AccountMissing)
      else
        var (ex', _) :- CancelAllFrom(ex, p, filter, 0, limit);
        Ok(ex')
    case ConsumeEventsIx(remaining, limit, slots) => ConsumeEvents(ex, remaining, limit, slots)
    case SettleFundsIx(p, hasReferrer) => var (ex', _) :- SettleFunds(ex, p, hasReferrer); Ok(ex')
    case DepositIx(p, base, quote) => Deposit(ex, p, base, quote)
    case RefillIx(p, base, quote) => Refill(ex, p, base, quote)
    case SweepFeesIx => Ok(SweepFees(ex).0)
    case OpenAccountIx(p) => OpenAccount(ex, p)
    case CloseAccountIx(p) => CloseAccount(ex, p)
  }

  /** On an error the state stays as it was. */
  ghost function Execute(ex: Exchange, i: Instruction): Exchange {
    if Outcome(ex, i).Ok? then Outcome(ex, i).value else ex
  }

  ghost function Run(ex: Exchange, instructions: seq<Instruction>): Exchange
    decreases |instructions|
  {
    if instructions == [] then ex else Run(Execute(ex, instructions[0]), instructions[1..])
  }

  ghost predicate Healthy(ex: Exchange) { exists claims :: Good(ex, claims, 0, 0) }

  lemma IsHealthy(ex: Exchange, claims: map<ClaimId, Claim>)
    requires Good(ex, claims, 0, 0)
    ensures Healthy(ex)
  {
    hide Good;
  }

  lemma NewMarketIsHealthy(c: Config, bookCapacity: nat, heapCapacity: nat)
    requires c.Ok()
    ensures Healthy(NewMarket(c, bookCapacity, heapCapacity))
  {
    var ex := NewMarket(c, bookCapacity, heapCapacity);
    EmptyLedger(c);
    hide Inv;
    assert Good(ex, map[], 0, 0);
  }

  lemma ExecuteIs(ex: Exchange, i: Instruction)
    ensures Execute(ex, i) == if Outcome(ex, i).Ok? then Outcome(ex, i).value else ex
  {
  }

  /** What each instruction comes to. */
  lemma OutcomeIs(ex: Exchange, i: Instruction)
    requires CanTrade(ex)
    ensures i.PlaceOrderIx? ==> Outcome(ex, i) == PlaceOrder(ex, i.env, i.wallet, i.order, i.limit)
    ensures i.PlaceTakeOrderIx? ==> Outcome(ex, i) == PlaceTakeOrder(ex, i.env, i.wallet, i.order, i.limit)
    ensures i.CancelAllAndPlaceOrdersIx? ==>
              Outcome(ex, i) == CancelAllAndPlaceOrders(ex, i.env, i.wallet, i.cancel, i.orders, i.limit)
    ensures i.EditOrderIx? ==>
              Outcome(ex, i) == EditOrder(ex, i.env, i.wallet, i.clientId, i.expectedCancelSize, i.order, i.limit)
    ensures i.CancelOrderIx? ==> Outcome(ex, i) == CancelOrderById(ex, i.account, i.id)
    ensures i.CancelAllOrdersIx? ==>
              var r := CancelAllFrom(ex, i.account, i.filter, 0, i.limit);
              Outcome(ex, i)
              == if i.account !in ex.accounts then Err(AccountMissing) else if r.Ok? then Ok(r.value.0) else Err(r.error)
    ensures i.ConsumeEventsIx? ==> Outcome(ex, i) == ConsumeEvents(ex, i.remaining, i.limit, i.slots)
    ensures i.SettleFundsIx? ==>
              var r := SettleFunds(ex, i.account, i.hasReferrer);
              Outcome(ex, i) == if r.Ok? then Ok(r.value.0) else Err(r.error)
    ensures i.DepositIx? ==> Outcome(ex, i) == Deposit(ex, i.account, i.base, i.quote)
    ensures i.RefillIx? ==> Outcome(ex, i) == Refill(ex, i.account, i.base, i.quote)
    ensures i.SweepFeesIx? ==> Outcome(ex, i) == Ok(SweepFees(ex).0)
    ensures i.OpenAccountIx? ==> Outcome(ex, i) == OpenAccount(ex, i.account)
    ensures i.CloseAccountIx? ==> Outcome(ex, i) == CloseAccount(ex, i.account)
  {
    hide CanTrade, PlaceOrder, PlaceTakeOrder, CancelAllAndPlaceOrders, CancelOrderById, CancelAllFrom, SettleFunds, Deposit,
         SweepFees, OpenAccount, CloseAccount, ConsumeEvents, EditOrder, Refill;
  }

  /** Every instruction keeps the invariant. */
  lemma ExecuteKeeps(ex: Exchange, claims: map<ClaimId, Claim>, i: Instruction) returns (claims': map<ClaimId, Claim>)
    requires Good(ex, claims, 0, 0)
    ensures Good(Execute(ex, i), claims', 0, 0)
  {
    hide *;
    GoodCanTrade(ex, claims, 0, 0);
    OutcomeIs(ex, i);
    ExecuteIs(ex, i);
    claims' := claims;
    match i {
      case PlaceOrderIx(env, wallet, o, limit) =>
        if Outcome(ex, i).Ok? { claims' := PlaceOrderKeeps(ex, claims, env, wallet, o, limit); }
      case PlaceTakeOrderIx(env, wallet, o, limit) =>
        if Outcome(ex, i).Ok? { claims' := PlaceTakeOrderKeeps(ex, claims, env, wallet, o, limit); }
      case CancelAllAndPlaceOrdersIx(env, wallet, cancel, orders, limit) =>
        if Outcome(ex, i).Ok? {
          BatchNeedsAccount(ex, env, wallet, cancel, orders, limit);
          claims' := CancelAllAndPlaceKeeps(ex, claims, env, wallet, cancel, orders, limit);
        }
      case EditOrderIx(env, wallet, id, expected, o, limit) =>
        if Outcome(ex, i).Ok? { claims' := EditKeeps(ex, claims, env, wallet, id, expected, o, limit); }
      case CancelOrderIx(p, id) =>
        if Outcome(ex, i).Ok? { claims' := CancelByIdKeeps(ex, claims, p, id); }
      case CancelAllOrdersIx(p, filter, limit) =>
        if p in ex.accounts { claims' := CancelAllKeeps(ex, claims, p, filter, 0, limit); }
      case ConsumeEventsIx(remaining, limit, slots) =>
        if Outcome(ex, i).Ok? { claims' := ConsumeEventsKeeps(ex, claims, remaining, limit, slots); }
      case SettleFundsIx(p, hasReferrer) =>
        SettleNeedsAccount(ex, p, hasReferrer);
        if p in ex.accounts { SettleKeeps(ex, claims, p, hasReferrer); }
      case DepositIx(p, base, quote) =>
        DepositNeedsAccount(ex, p, base, quote);
        if p in ex.accounts { DepositKeeps(ex, claims, p, base, quote); }
      case RefillIx(p, base, quote) =>
        if Outcome(ex, i).Ok? { RefillKeeps(ex, claims, p, base, quote); }
      case SweepFeesIx =>
        SweepKeeps(ex, claims);
      case OpenAccountIx(p) =>
        OpenKeepsGood(ex, claims, p);
      case CloseAccountIx(p) =>
        CloseKeepsGood(ex, claims, p);
    }
  }

  lemma BatchNeedsAccount(ex: Exchange, env: Env, wallet: Wallet, cancel: bool, orders: seq<Order>, limit: nat)
    requires CancelAllAndPlaceOrders(ex, env, wallet, cancel, orders, limit).Ok?
    ensures env.hasAccount && env.owner in ex.accounts
  {
  }

  lemma SettleNeedsAccount(ex: Exchange, p: Pubkey, hasReferrer: bool)
    ensures p !in ex.accounts ==> SettleFunds(ex, p, hasReferrer).Err?
  {
  }

  lemma DepositNeedsAccount(ex: Exchange, p: Pubkey, base: nat, quote: nat)
    ensures p !in ex.accounts ==> Deposit(ex, p, base, quote).Err?
  {
  }

  /** Consuming events handles at most eight of them, and no more than asked for. */
  lemma ConsumeEventsKeeps(ex: Exchange, claims: map<ClaimId, Claim>, remaining: set<Pubkey>, limit: nat, slots: seq<nat>)
      returns (claims': map<ClaimId, Claim>)
    requires Good(ex, claims, 0, 0)
    ensures var r := ConsumeEvents(ex, remaining, limit, slots);
            && (r.Err? ==> r.error == BadSlotIndex)
            && (r.Ok? ==>
                  && Good(r.value, claims', 0, 0) && SameFrame(ex, r.value)
                  && r.value.orders.heap.pending.Keys <= ex.orders.heap.pending.Keys
                  && |ex.orders.heap.pending| - |r.value.orders.heap.pending| <= Min(limit, MAX_EVENTS_CONSUME))
  {
    hide Good, SameFrame, ConsumeSlots;
    var heap := ex.orders.heap;
    claims' := claims;
    PickOk(heap, slots + heap.order, [], Min(limit, MAX_EVENTS_CONSUME));
    var picked := Pick(heap, slots + heap.order, [], Min(limit, MAX_EVENTS_CONSUME));
    if picked.Ok? {
      claims' := ConsumeKeeps(ex, claims, remaining, picked.value);
      hide Picked;
      var handled := Handled(heap, remaining, picked.value);
      HandledIsShort(heap, remaining, picked.value);
      AtMost(heap.pending, handled);
      assert Members(handled) == set x | x in handled;
    }
  }

  lemma {:induction false} HandledIsShort(heap: HeapModel, remaining: set<Pubkey>, slots: seq<nat>)
    ensures |Handled(heap, remaining, slots)| <= |slots|
  {
    if slots != [] { HandledIsShort(heap, remaining, slots[1..]); }
  }

  lemma {:induction false} MembersAtMost(s: seq<nat>)
    ensures |Members(s)| <= |s|
  {
    if s != [] {
      MembersAtMost(s[1..]);
      assert Members(s) == Members(s[1..]) + {s[0]};
    }
  }

  lemma AtMost(m: map<nat, Event>, s: seq<nat>)
    ensures (m - Members(s)).Keys <= m.Keys && |m| - |m - Members(s)| <= |s|
  {
    MembersAtMost(s);
    hide Members;
    var a, x := m.Keys, Members(s);
    assert (m - x).Keys == a - x;
    assert |a| == |a - x| + |a * x| by { assert a == (a - x) + (a * x); }
    assert |a * x| <= |x| by { assert x == (x - a) + (a * x); }
    assert |m.Keys| == |m| && |(m - x).Keys| == |m - x|;
  }

  /** The invariant holds after every run of instructions, whatever they are. */
  lemma {:induction false} AlwaysHealthy(ex: Exchange, instructions: seq<Instruction>)
    requires Healthy(ex)
    ensures Healthy(Run(ex, instructions))
    decreases |instructions|
  {
    hide Good, Execute;
    if instructions != [] {
      var claims :| Good(ex, claims, 0, 0);
      var claims' := ExecuteKeeps(ex, claims, instructions[0]);
      AlwaysHealthy(Execute(ex, instructions[0]), instructions[1..]);
    }
  }

  // ---------- what it means ----------

  /** The totals of the pending fills, by event. */
  function PendingQuoteOf(c: Config, e: Event): int { if e.Fill? then PendingQuote(c, ClaimOfFill(e)) else 0 }

  function PendingBaseOf(c: Config, e: Event): int { if e.Fill? then PendingBase(c, ClaimOfFill(e)) else 0 }

  function PendingQuoteOfFn(c: Config): Event -> int { e => PendingQuoteOf(c, e) }

  function PendingBaseOfFn(c: Config): Event -> int { e => PendingBaseOf(c, e) }

  /** The claims are those of resting orders and of the events. */
  ghost predicate EventsAre(claims: map<ClaimId, Claim>, pending: map<nat, Event>) {
    && (forall i :: i in claims ==> (i.OnBook? && claims[i].kind.Resting?) || (i.InHeap? && i.slot in pending))
    && (forall s :: s in pending ==> InHeap(s) in claims && EventClaim(pending[s], claims[InHeap(s)]))
  }

  lemma FewerEvents(claims: map<ClaimId, Claim>, pending: map<nat, Event>, s: nat)
    requires EventsAre(claims, pending) && s in pending
    ensures InHeap(s) in claims && EventClaim(pending[s], claims[InHeap(s)])
    ensures EventsAre(claims - {InHeap(s)}, pending - {s})
  {
    hide EventClaim;
  }

  /** A total over claims to which resting orders add nothing is a total over events. */
  lemma {:induction false} TotalByEvent(claims: map<ClaimId, Claim>, pending: map<nat, Event>, f: Claim -> int, g: Event -> int)
    requires EventsAre(claims, pending)
    requires forall x: Claim :: x.kind.Resting? ==> f(x) == 0
    requires forall e, x :: EventClaim(e, x) ==> g(e) == f(x)
    ensures Sum(claims, f) == Sum(pending, g)
    decreases |pending|
  {
    hide EventClaim;
    if pending == map[] {
      SumZero(claims, f);
    } else {
      hide EventsAre;
      var s :| s in pending;
      FewerEvents(claims, pending, s);
      SumRemove(pending, s, g);
      SumRemove(claims, InHeap(s), f);
      TotalByEvent(claims - {InHeap(s)}, pending - {s}, f, g);
    }
  }

  lemma PendingByEvent(c: Config, claims: map<ClaimId, Claim>, pending: map<nat, Event>)
    requires EventsAre(claims, pending)
    ensures TotalPendingQuote(c, claims) == Sum(pending, PendingQuoteOfFn(c))
    ensures TotalPendingBase(c, claims) == Sum(pending, PendingBaseOfFn(c))
  {
    forall e, x | EventClaim(e, x)
      ensures PendingQuoteOf(c, e) == PendingQuote(c, x) && PendingBaseOf(c, e) == PendingBase(c, x)
    {
      SamePending(c, e, x);
    }
    hide EventsAre, PendingQuoteOf, PendingBaseOf, EventClaim;
    TotalByEvent(claims, pending, PendingQuoteFn(c), PendingQuoteOfFn(c));
    TotalByEvent(claims, pending, PendingBaseFn(c), PendingBaseOfFn(c));
  }

  lemma SamePending(c: Config, e: Event, x: Claim)
    requires EventClaim(e, x)
    ensures PendingQuoteOf(c, e) == PendingQuote(c, x) && PendingBaseOf(c, e) == PendingBase(c, x)
  {
    hide ClaimOfFill, Rebate, Quote;
  }

  lemma ClaimsByEvent(ex: Exchange, claims: map<ClaimId, Claim>)
    requires Tally(ex.orders, claims)
    ensures EventsAre(claims, ex.orders.heap.pending)
  {
    RestingHolds(ex.orders, claims);
    forall i | i in claims
      ensures (i.OnBook? && claims[i].kind.Resting?) || (i.InHeap? && i.slot in ex.orders.heap.pending)
    {
      assert Backed(ex.orders, i, claims[i]);
    }
    forall s | s in ex.orders.heap.pending
      ensures InHeap(s) in claims && EventClaim(ex.orders.heap.pending[s], claims[InHeap(s)])
    {
      PendingClaim(ex.orders, claims, s);
    }
  }

  /** Quote and base conservation, in terms of what accounts, books and heap show: the vault's quote is the accounts' free
      quote, locked fees and rebates, what their bids lock, the fees to be swept, and the pending fills; the vault's base is
      the accounts' free base, what their asks lock, and the pending fills. */
  lemma Conserved(ex: Exchange)
    requires Healthy(ex)
    ensures var c, m, pending := ex.market.config, ex.market, ex.orders.heap.pending;
            && m.quoteDepositTotal == T(HeldQuote, ex.accounts) + TotalLockedQuote(c, ex.accounts) + m.feesAvailable
                                      + Sum(pending, PendingQuoteOfFn(c))
            && m.baseDepositTotal == T(HeldBase, ex.accounts) + TotalLockedBase(c, ex.accounts) + Sum(pending, PendingBaseOfFn(c))
            && m.referrerRebatesAccrued == T(Rebates, ex.accounts)
  {
    hide *;
    var claims := SomeClaims(ex);
    GoodParts(ex, claims, 0, 0);
    Conservation(Ledger(ex.market, ex.accounts, claims));
    ClaimsByEvent(ex, claims);
    PendingByEvent(ex.market.config, claims, ex.orders.heap.pending);
  }

  lemma SomeClaims(ex: Exchange) returns (claims: map<ClaimId, Claim>)
    requires Healthy(ex)
    ensures Good(ex, claims, 0, 0)
  {
    claims :| Good(ex, claims, 0, 0);
  }

  /** Whatever can be withdrawn is in the vaults, and nothing that is counted without a sign is below zero. */
  lemma AlwaysSolvent(ex: Exchange)
    requires Healthy(ex)
    ensures forall p :: p in ex.accounts ==>
              var a := ex.accounts[p].position;
              && a.quoteFree + a.lockedMakerFees + a.referrerRebates + ex.market.feesAvailable <= ex.market.quoteDepositTotal
              && a.baseFree <= ex.market.baseDepositTotal
              && a.referrerRebates <= ex.market.referrerRebatesAccrued
              && a.quoteFree >= 0 && a.baseFree >= 0 && a.lockedMakerFees >= 0 && a.referrerRebates >= 0
              && a.bidsBaseLots >= 0 && a.asksBaseLots >= 0 && a.bidsQuoteLots >= 0
    ensures 0 <= ex.market.feesAvailable <= ex.market.quoteDepositTotal && 0 <= ex.market.baseDepositTotal
  {
    hide *;
    var claims := SomeClaims(ex);
    GoodParts(ex, claims, 0, 0);
    var l := Ledger(ex.market, ex.accounts, claims);
    Solvent(l, 0, 0);
    forall p | p in ex.accounts
      ensures ex.accounts[p].position.quoteFree >= 0 && ex.accounts[p].position.baseFree >= 0
      ensures ex.accounts[p].position.referrerRebates >= 0
    {
      OwnerOk(l, p, 0, 0);
      FreeFunds(l, p);
    }
  }

  lemma FreeFunds(l: Ledger, p: Pubkey)
    requires p in l.accounts && AccountOk(l.market.config, p, l.accounts[p], l.claims)
    ensures var a := l.accounts[p].position; a.quoteFree >= 0 && a.baseFree >= 0 && a.referrerRebates >= 0
  {
  }

  /** The order sits in a slot of its owner, which names it and the price at which it locked funds. */
  ghost predicate HasItsSlot(ex: Exchange, side: Side, comp: Component, key: nat)
    requires key in ex.orders.Book(side).Get(comp)
  {
    var x := ex.orders.Book(side).Get(comp)[key];
    && InUse(ex.accounts, x.owner, x.ownerSlot)
    && SlotNames(ex.accounts[x.owner].slots[x.ownerSlot], side, comp, key, x)
  }

  predicate SlotNames(oo: OpenOrder, side: Side, comp: Component, key: nat, x: LeafNode) {
    oo.id == key && oo.side == side && oo.comp == comp && (side.Bid? ==> oo.lockedPrice == LockOf(comp, x))
  }

  predicate OtherSlot(x: LeafNode, y: LeafNode) { x.owner != y.owner || x.ownerSlot != y.ownerSlot }

  /** A resting order sits in a slot of its owner that names it; different orders sit in different slots and have different
      arrival numbers, so no two orders tie. */
  lemma OrdersAndSlots(ex: Exchange, side: Side, comp: Component, key: nat, side': Side, comp': Component, key': nat)
    requires Healthy(ex) && key in ex.orders.Book(side).Get(comp) && key' in ex.orders.Book(side').Get(comp')
    requires side != side' || comp != comp' || key != key'
    ensures HasItsSlot(ex, side, comp, key) && SeqNumOf(side, key) <= ex.market.seqNum
    ensures OtherSlot(ex.orders.Book(side).Get(comp)[key], ex.orders.Book(side').Get(comp')[key'])
    ensures SeqNumOf(side, key) != SeqNumOf(side', key')
  {
    hide *;
    var claims := SomeClaims(ex);
    GoodParts(ex, claims, 0, 0);
    InvParts(Ledger(ex.market, ex.accounts, claims), 0, 0);
    RestingSlot(ex, claims, side, comp, key);
    RestingSlot(ex, claims, side', comp', key');
    SlotsDiffer(ex, claims, OnBook(side, comp, key), OnBook(side', comp', key'));
    OtherSlotIs(ex.orders.Book(side).Get(comp)[key], ex.orders.Book(side').Get(comp')[key']);
  }

  lemma OtherSlotIs(x: LeafNode, y: LeafNode)
    ensures OtherSlot(x, y) <==> x.owner != y.owner || x.ownerSlot != y.ownerSlot
  {
  }

  lemma RestingSlot(ex: Exchange, claims: map<ClaimId, Claim>, side: Side, comp: Component, key: nat)
    requires Tally(ex.orders, claims) && Tagged(ex.accounts, claims) && key in ex.orders.Book(side).Get(comp)
    requires ClaimsOk(ex.accounts, claims)
    ensures HasItsSlot(ex, side, comp, key)
    ensures var i, x := OnBook(side, comp, key), ex.orders.Book(side).Get(comp)[key];
            && i in claims && claims[i].owner == x.owner && claims[i].slot == x.ownerSlot && claims[i].HoldsSlot()
            && InUse(ex.accounts, x.owner, x.ownerSlot)
            && SlotSeqNum(ex.accounts, x.owner, x.ownerSlot) == SeqNumOf(side, key)
  {
    var i := OnBook(side, comp, key);
    assert i in claims && Backed(ex.orders, i, claims[i]);
    assert TagOk(ex.accounts, i, claims[i]);
    assert ClaimOk(ex.accounts, claims[i]);
  }

  lemma SlotsDiffer(ex: Exchange, claims: map<ClaimId, Claim>, i: ClaimId, j: ClaimId)
    requires Exclusive(claims) && SeqsOk(ex.accounts, ex.market.seqNum)
    requires i in claims && j in claims && i != j && claims[i].HoldsSlot() && claims[j].HoldsSlot()
    ensures claims[i].owner != claims[j].owner || claims[i].slot != claims[j].slot
    ensures InUse(ex.accounts, claims[i].owner, claims[i].slot) ==>
              SlotSeqNum(ex.accounts, claims[i].owner, claims[i].slot) <= ex.market.seqNum
    ensures InUse(ex.accounts, claims[i].owner, claims[i].slot) && InUse(ex.accounts, claims[j].owner, claims[j].slot) ==>
              SlotSeqNum(ex.accounts, claims[i].owner, claims[i].slot) != SlotSeqNum(ex.accounts, claims[j].owner, claims[j].slot)
  {
  }

  /** A pending event that ends an order points at a slot in use, on its side. */
  lemma EventsAndSlots(ex: Exchange, slot: nat)
    requires Healthy(ex) && slot in ex.orders.heap.pending
    ensures var e := ex.orders.heap.pending[slot];
            && e.For() in ex.accounts
            && (e.Out? ==> InUse(ex.accounts, e.owner, e.ownerSlot) && ex.accounts[e.owner].slots[e.ownerSlot].side == e.side)
            && (e.Fill? && e.makerOut ==>
                  InUse(ex.accounts, e.maker, e.makerSlot) && ex.accounts[e.maker].slots[e.makerSlot].side == MakerSide(e))
  {
    hide *;
    var claims := SomeClaims(ex);
    GoodParts(ex, claims, 0, 0);
    InvParts(Ledger(ex.market, ex.accounts, claims), 0, 0);
    EventSlot(ex.orders, ex.accounts, claims, slot);
  }

  lemma EventSlot(o: Orders, accounts: map<Pubkey, Account>, claims: map<ClaimId, Claim>, slot: nat)
    requires Tally(o, claims) && ClaimsOk(accounts, claims) && slot in o.heap.pending
    ensures var e := o.heap.pending[slot];
            && e.For() in accounts
            && (e.Out? ==> InUse(accounts, e.owner, e.ownerSlot) && accounts[e.owner].slots[e.ownerSlot].side == e.side)
            && (e.Fill? && e.makerOut ==>
                  InUse(accounts, e.maker, e.makerSlot) && accounts[e.maker].slots[e.makerSlot].side == MakerSide(e))
  {
    PendingClaim(o, claims, slot);
    hide Tally;
    assert ClaimOk(accounts, claims[InHeap(slot)]);
  }

  /** No slot is shared: neither by two pending events that end orders, nor by such an event and a resting order. So a slot is
      never used anew while something still refers to it. */
  lemma SlotsNotShared(ex: Exchange, side: Side, comp: Component, key: nat, s: nat)
    requires Healthy(ex) && key in ex.orders.Book(side).Get(comp) && s in ex.orders.heap.pending
    ensures Apart(ex.orders.heap.pending)
    ensures var leaf, e := ex.orders.Book(side).Get(comp)[key], ex.orders.heap.pending[s];
            EndsOrder(e) ==> leaf.owner != e.For() || leaf.ownerSlot != SlotOf(e)
  {
    hide *;
    var claims := SomeClaims(ex);
    PendingIsApart(ex, claims);
    GoodParts(ex, claims, 0, 0);
    InvParts(Ledger(ex.market, ex.accounts, claims), 0, 0);
    RestingSlot(ex, claims, side, comp, key);
    PendingSlot(ex.orders, claims, s);
    if EndsOrder(ex.orders.heap.pending[s]) {
      SlotsDiffer(ex, claims, OnBook(side, comp, key), InHeap(s));
    }
  }

  lemma PendingSlot(o: Orders, claims: map<ClaimId, Claim>, s: nat)
    requires Tally(o, claims) && s in o.heap.pending
    ensures var e := o.heap.pending[s];
            InHeap(s) in claims && claims[InHeap(s)].owner == e.For() && claims[InHeap(s)].slot == SlotOf(e)
            && (EndsOrder(e) ==> claims[InHeap(s)].HoldsSlot())
  {
    PendingClaim(o, claims, s);
  }

  // ---------- positions against books and heap ----------

  /** A pending event as a claim; what an order taken off the book locks is told by its slot. */
  function EventAsClaim(accounts: map<Pubkey, Account>, e: Event): Claim {
    if e.Fill? then ClaimOfFill(e)
    else
      var slots := if e.owner in accounts then accounts[e.owner].slots else [];
      var lock := if e.side.Bid? && e.ownerSlot < |slots| then slots[e.ownerSlot].lockedPrice else 0;
      Claim(e.owner, e.ownerSlot, e.side, e.quantity, lock, TakenOff)
  }

  function LeafWeight(c: Config, w: Weight, side: Side, comp: Component): LeafNode -> int {
    leaf => W(c, w, LeafClaim(side, comp, leaf))
  }

  function EventWeight(c: Config, w: Weight, accounts: map<Pubkey, Account>): Event -> int {
    e => W(c, w, EventAsClaim(accounts, e))
  }

  ghost function BookTotal(c: Config, w: Weight, side: Side, m: BookSideModel): int {
    Sum(m.fixed, LeafWeight(c, w, side, Fixed)) + Sum(m.pegged, LeafWeight(c, w, side, OraclePegged))
  }

  /** The total of a weight over all resting orders and all pending events. */
  ghost function OrdersTotal(c: Config, w: Weight, accounts: map<Pubkey, Account>, o: Orders): int {
    BookTotal(c, w, Bid, o.bids) + BookTotal(c, w, Ask, o.asks) + Sum(o.heap.pending, EventWeight(c, w, accounts))
  }

  /** Each claim of the heap is the one its event tells. */
  ghost predicate EventsTell(accounts: map<Pubkey, Account>, o: Orders, claims: map<ClaimId, Claim>) {
    forall s :: s in o.heap.pending && InHeap(s) in claims ==> claims[InHeap(s)] == EventAsClaim(accounts, o.heap.pending[s])
  }

  lemma EventsDoTell(ex: Exchange, claims: map<ClaimId, Claim>)
    requires Tally(ex.orders, claims) && ClaimsOk(ex.accounts, claims)
    ensures EventsTell(ex.accounts, ex.orders, claims)
  {
    forall s | s in ex.orders.heap.pending && InHeap(s) in claims
      ensures claims[InHeap(s)] == EventAsClaim(ex.accounts, ex.orders.heap.pending[s])
    {
      PendingClaim(ex.orders, claims, s);
      assert ClaimOk(ex.accounts, claims[InHeap(s)]);
    }
  }

  lemma BookLess(c: Config, w: Weight, o: Orders, side: Side, comp: Component, key: nat)
    requires key in o.Book(side).Get(comp)
    ensures var o' := o.WithBook(side, o.Book(side).Remove(comp, key));
            BookTotal(c, w, Bid, o.bids) + BookTotal(c, w, Ask, o.asks)
            == BookTotal(c, w, Bid, o'.bids) + BookTotal(c, w, Ask, o'.asks)
               + W(c, w, LeafClaim(side, comp, o.Book(side).Get(comp)[key]))
  {
    SumRemove(o.Book(side).Get(comp), key, LeafWeight(c, w, side, comp));
    hide W, LeafClaim;
  }

  function OrderCount(o: Orders): nat { |o.bids.fixed| + |o.bids.pegged| + |o.asks.fixed| + |o.asks.pegged| }

  lemma FewerOrders(o: Orders, side: Side, comp: Component, key: nat)
    requires key in o.Book(side).Get(comp)
    ensures OrderCount(o.WithBook(side, o.Book(side).Remove(comp, key))) < OrderCount(o)
    ensures o.WithBook(side, o.Book(side).Remove(comp, key)).heap == o.heap
  {
  }

  /** The total over claims is the total over orders and events. */
  lemma {:induction false} TotalByOrders(c: Config, w: Weight, accounts: map<Pubkey, Account>, o: Orders, claims: map<ClaimId, Claim>)
    requires Tally(o, claims) && EventsTell(accounts, o, claims)
    ensures S(c, w, claims) == OrdersTotal(c, w, accounts, o)
    decreases OrderCount(o)
  {
    hide *;
    if side, comp, key :| key in o.Book(side).Get(comp) {
      var i := OnBook(side, comp, key);
      var o' := o.WithBook(side, o.Book(side).Remove(comp, key));
      RemoveDiffers(o, side, comp, key);
      Retally(o, o', claims, side, comp, key, None);
      DropClaim(c, claims, i);
      BookLess(c, w, o, side, comp, key);
      FewerOrders(o, side, comp, key);
      RemovedClaims(accounts, o, o', claims, i);
      TotalByOrders(c, w, accounts, o', claims - {i});
      OrdersTotalIs(c, w, accounts, o);
      OrdersTotalIs(c, w, accounts, o');
    } else {
      OnlyEvents(c, w, accounts, o, claims);
    }
  }

  lemma OrdersTotalIs(c: Config, w: Weight, accounts: map<Pubkey, Account>, o: Orders)
    ensures OrdersTotal(c, w, accounts, o)
         == BookTotal(c, w, Bid, o.bids) + BookTotal(c, w, Ask, o.asks) + Sum(o.heap.pending, EventWeight(c, w, accounts))
  {
  }

  lemma RemovedClaims(accounts: map<Pubkey, Account>, o: Orders, o': Orders, claims: map<ClaimId, Claim>, i: ClaimId)
    requires EventsTell(accounts, o, claims) && o'.heap == o.heap
    ensures EventsTell(accounts, o', claims - {i})
    ensures ReplacedClaim(claims, i, LeafClaimOpt(Bid, Fixed, None)) == claims - {i}
    ensures forall side, comp :: LeafClaimOpt(side, comp, None) == None
  {
  }

  lemma OnlyEvents(c: Config, w: Weight, accounts: map<Pubkey, Account>, o: Orders, claims: map<ClaimId, Claim>)
    requires Tally(o, claims) && EventsTell(accounts, o, claims)
    requires forall side, comp, key :: key !in o.Book(side).Get(comp)
    ensures S(c, w, claims) == OrdersTotal(c, w, accounts, o)
  {
    hide W;
    assert o.Book(Bid).Get(Fixed) == map[] && o.Book(Bid).Get(OraclePegged) == map[];
    assert o.Book(Ask).Get(Fixed) == map[] && o.Book(Ask).Get(OraclePegged) == map[];
    forall i | i in claims
      ensures i.InHeap? && i.slot in o.heap.pending
    {
      assert Backed(o, i, claims[i]);
    }
    SumOfEvents(c, w, accounts, claims, o.heap.pending);
  }

  lemma {:induction false} SumOfEvents(c: Config, w: Weight, accounts: map<Pubkey, Account>, claims: map<ClaimId, Claim>, pending: map<nat, Event>)
    requires forall i :: i in claims ==> i.InHeap? && i.slot in pending
    requires forall s :: s in pending ==> InHeap(s) in claims && claims[InHeap(s)] == EventAsClaim(accounts, pending[s])
    ensures S(c, w, claims) == Sum(pending, EventWeight(c, w, accounts))
    decreases |pending|
  {
    hide W, EventAsClaim;
    if pending == map[] {
      assert claims == map[];
    } else {
      var s :| s in pending;
      SumRemove(pending, s, EventWeight(c, w, accounts));
      SumRemove(claims, InHeap(s), WeightOf(c, w));
      SumOfEvents(c, w, accounts, claims - {InHeap(s)}, pending - {s});
    }
  }

  /** The positions say exactly what the account's resting orders, its pending fills and its pending out events come to, each
      at the price at which it locked funds, and enough maker fees are locked for all of them. */
  lemma PositionsTell(ex: Exchange, p: Pubkey)
    requires Healthy(ex) && p in ex.accounts
    ensures var c, a := ex.market.config, ex.accounts[p].position;
            && a.bidsBaseLots == OrdersTotal(c, BidBase(p), ex.accounts, ex.orders)
            && a.asksBaseLots == OrdersTotal(c, AskBase(p), ex.accounts, ex.orders)
            && a.bidsQuoteLots == OrdersTotal(c, BidQuote(p), ex.accounts, ex.orders)
            && a.lockedMakerFees >= OrdersTotal(c, BidFee(p), ex.accounts, ex.orders) >= 0
  {
    hide *;
    var c := ex.market.config;
    var claims := SomeClaims(ex);
    GoodParts(ex, claims, 0, 0);
    var l := Ledger(ex.market, ex.accounts, claims);
    InvParts(l, 0, 0);
    EventsDoTell(ex, claims);
    OwnerOk(l, p, 0, 0);
    FeesNotNegative(l, p, 0, 0);
    PositionIs(c, p, ex.accounts[p], claims);
    TotalByOrders(c, BidBase(p), ex.accounts, ex.orders, claims);
    TotalByOrders(c, AskBase(p), ex.accounts, ex.orders, claims);
    TotalByOrders(c, BidQuote(p), ex.accounts, ex.orders, claims);
    TotalByOrders(c, BidFee(p), ex.accounts, ex.orders, claims);
  }

  lemma PositionIs(c: Config, p: Pubkey, a: Account, claims: map<ClaimId, Claim>)
    requires AccountOk(c, p, a, claims)
    ensures a.position.bidsBaseLots == S(c, BidBase(p), claims) && a.position.asksBaseLots == S(c, AskBase(p), claims)
    ensures a.position.bidsQuoteLots == S(c, BidQuote(p), claims) && a.position.lockedMakerFees >= S(c, BidFee(p), claims)
  {
  }
}
