/** The instructions. Each is atomic: on an error the market stays as it was. */
module Instructions {
  import opened Types
  import opened Markets
  import opened Accounts
  import opened EventHeaps
  import opened Matching
  import opened Exchanges

  /** What a user's token accounts hold. */
  datatype Wallet = Wallet(base: nat, quote: nat)

  // ---------- charging an account ----------

  /** What is left to deposit once free funds are used up. */
  function DepositFor(amount: int, free: int): int { amount - Min(amount, free) }

  /** Charges an account for its orders: free funds first, then a deposit into the vaults. `penalty` says that events were
      left on the heap. */
  function Charge(ex: Exchange, owner: Pubkey, quote: int, base: int, penalty: bool): Exchange
    requires owner in ex.accounts
  {
    var a := ex.accounts[owner];
    var p := a.position;
    Exchange(
      ex.market.(quoteDepositTotal := ex.market.quoteDepositTotal + DepositFor(quote, p.quoteFree),
                 baseDepositTotal := ex.market.baseDepositTotal + DepositFor(base, p.baseFree)),
      ex.accounts[owner := a.(position := p.(
        quoteFree := p.quoteFree - Min(quote, p.quoteFree), baseFree := p.baseFree - Min(base, p.baseFree),
        penaltyHeapCount := if penalty then p.penaltyHeapCount + 1 else p.penaltyHeapCount))],
      ex.orders)
  }

  predicate HeapGrew(before: Exchange, after: Exchange) {
    |after.orders.heap.order| > |before.orders.heap.order|
  }

  /** What the account is charged for an order. */
  function OwnQuote(p: Placed, side: Side): int {
    if side.Bid? then p.takenQuote + p.postedQuote + p.takerFees + p.makerFees else 0
  }

  function OwnBase(p: Placed, side: Side): int { if side.Ask? then p.takenBase + p.postedBase else 0 }

  /** The transfer that pays for a deposit needs the funds. */
  function PaidFrom(wallet: Wallet, ex: Exchange, owner: Pubkey, quote: int, base: int, penalty: bool): Result<Exchange>
    requires owner in ex.accounts
  {
    var p := ex.accounts[owner].position;
    if DepositFor(quote, p.quoteFree) > wallet.quote || DepositFor(base, p.baseFree) > wallet.base then Err(InsufficientFunds)
    else Ok(Charge(ex, owner, quote, base, penalty))
  }

  const U8_MAX: nat := 255

  // ---------- orders ----------

  /** What is checked before an order is passed on. */
  function Refused(o: Order): Option<Error> {
    if o.maxBaseLots < 0 || o.maxQuoteLotsIncludingFees < 0 then Some(InvalidInputLots)
    else if o.params.PeggedOrder? && o.params.pegLimit <= 0 then Some(InvalidInputPegLimit)
    else None
  }

  ghost predicate CanTrade(ex: Exchange) {
    ex.market.config.Ok() && ex.market.seqNum >= 0 && BookOk(ex.orders.bids) && BookOk(ex.orders.asks)
  }

  /** Places an order for an open orders account. */
  ghost function PlaceOrder(ex: Exchange, env: Env, wallet: Wallet, o: Order, limit: nat): Result<Exchange>
    requires CanTrade(ex)
  {
    if Refused(o).Some? then Err(Refused(o).value)
    else if !env.hasAccount || env.owner !in ex.accounts then Err(AccountMissing)
    else
      var p :- NewOrder(ex, env, o, limit);
      if env.owner !in p.ex.accounts then Err(AccountMissing)
      else PaidFrom(wallet, p.ex, env.owner, OwnQuote(p, o.side), OwnBase(p, o.side), HeapGrew(ex, p.ex))
  }

  /** Takes from the book without an account: tokens change hands at once, and nothing is paid to referrers. */
  ghost function PlaceTakeOrder(ex: Exchange, env: Env, wallet: Wallet, o: Order, limit: nat): Result<Exchange>
    requires CanTrade(ex)
  {
    if Refused(o).Some? then Err(Refused(o).value)
    else if PostTarget(o).Some? then Err(InvalidInputOrderType)
    else if env.hasAccount || env.owner in ex.accounts then Err(AccountMissing)
    else
      var p :- NewOrder(ex, env, o, limit);
      var rebates, m := p.takerFees - p.referrerAmount, p.ex.market;
      if o.side.Bid? then
        var total := p.takenQuote + rebates;
        if total > wallet.quote then Err(InsufficientFunds)
        else Ok(p.ex.(market := m.(baseDepositTotal := m.baseDepositTotal - p.takenBase,
                                   quoteDepositTotal := m.quoteDepositTotal + total)))
      else
        var total := p.takenQuote - rebates;
        if p.takenBase > wallet.base then Err(InsufficientFunds)
        else Ok(p.ex.(market := m.(baseDepositTotal := m.baseDepositTotal + p.takenBase,
                                   quoteDepositTotal := m.quoteDepositTotal - total)))
  }

  // ---------- cancelling ----------

  /** Cancels the order with this key, which must belong to the account. */
  function CancelAt(ex: Exchange, p: Pubkey, side: Side, comp: Component, id: nat): Result<(Exchange, int)> {
    if id !in ex.orders.Book(side).Get(comp) then Err(OrderIdNotFound)
    else
      var leaf := ex.orders.Book(side).Get(comp)[id];
      if leaf.owner != p then Err(SomeError)
      else
        var ex' :- CancelFor(ex.Without(side, comp, id), p, leaf.ownerSlot, leaf.quantity);
        Ok((ex', leaf.quantity))
  }

  /** The first slot in use that holds the key. */
  function FindSlot(slots: seq<OpenOrder>, id: nat): (r: Option<nat>)
    ensures r.Some? ==> r.value < |slots| && !slots[r.value].isFree && slots[r.value].id == id
    ensures r.None? ==> forall s :: 0 <= s < |slots| && !slots[s].isFree ==> slots[s].id != id
  {
    if slots == [] then None
    else if !slots[0].isFree && slots[0].id == id then Some(0)
    else
      var r := FindSlot(slots[1..], id);
      if r.None? then None else Some(r.value + 1)
  }

  function CancelOrderById(ex: Exchange, p: Pubkey, id: nat): Result<Exchange> {
    if id == 0 then Err(InvalidInputOrderId)
    else if p !in ex.accounts then Err(AccountMissing)
    else
      match FindSlot(ex.accounts[p].slots, id)
      case None => Err(OpenOrdersOrderNotFound)
      case Some(s) =>
        var oo := ex.accounts[p].slots[s];
        var (ex', _) :- CancelAt(ex, p, oo.side, oo.comp, oo.id);
        Ok(ex')
  }

  function Counted(lots: int, r: Result<(Exchange, int)>): Result<(Exchange, int)> {
    match r case Ok((ex, more)) => Ok((ex, lots + more)) case Err(e) => Err(e)
  }

  datatype Filter = Filter(side: Option<Side>, clientId: Option<nat>) {
    predicate Takes(oo: OpenOrder) {
      && !oo.isFree
      && (side.Some? ==> oo.side == side.value)
      && (clientId.Some? ==> oo.clientId == clientId.value)
    }
  }

  /** Cancels the orders in slots `i` and beyond, and adds up their lots. An order that is no longer on the book counts against
      the limit. */
  function CancelAllFrom(ex: Exchange, p: Pubkey, f: Filter, i: nat, limit: nat): Result<(Exchange, int)>
    requires i <= MAX_OPEN_ORDERS
    decreases MAX_OPEN_ORDERS - i
  {
    if i == MAX_OPEN_ORDERS then Ok((ex, 0))
    else if p !in ex.accounts || |ex.accounts[p].slots| != MAX_OPEN_ORDERS then Err(AccountMissing)
    else
      var oo := ex.accounts[p].slots[i];
      if !f.Takes(oo) then CancelAllFrom(ex, p, f, i + 1, limit)
      else if limit == 0 then Ok((ex, 0))
      else
        var r := CancelAt(ex, p, oo.side, oo.comp, oo.id);
        if r == Err(OrderIdNotFound) then CancelAllFrom(ex, p, f, i + 1, limit - 1)
        else if r.Err? then Err(r.error)
        else Counted(r.value.1, CancelAllFrom(r.value.0, p, f, i + 1, limit - 1))
  }

  // ---------- editing ----------

  /** Cancels the orders with a client id, and places an order for what is missing of the lots expected there. When none of them
      is missing, nothing is placed. */
  ghost function EditOrder(ex: Exchange, env: Env, wallet: Wallet, clientId: nat, expectedCancelSize: int, o: Order, limit: nat)
      : Result<Exchange>
  {
    if expectedCancelSize < 0 then Err(InvalidInputCancelSize)
    else if !env.hasAccount || env.owner !in ex.accounts then Err(AccountMissing)
    else
      var (ex1, lots) :- CancelAllFrom(ex, env.owner, Filter(None, Some(clientId)), 0, U8_MAX);
      var filled := expectedCancelSize - lots;
      if filled <= 0 || o.maxBaseLots <= filled then Ok(ex1)
      else if !CanTrade(ex1) then Err(AccountMissing)
      else PlaceOrder(ex1, env, wallet, o.(maxBaseLots := o.maxBaseLots - filled), limit)
  }

  // ---------- several orders at once ----------

  /** The lots that an amount of tokens is good for. */
  function LotsFrom(amount: int, lotSize: int, max: int): int
    requires lotSize > 0
  {
    Min(max, amount / lotSize)
  }

  /** An order of the batch, limited to what its owner still has. */
  function Affordable(c: Config, o: Order, availableQuote: int, availableBase: int): Order
    requires c.Ok()
  {
    if o.side.Ask?
    then o.(maxBaseLots := Min(MaxBaseLots(c), LotsFrom(availableBase, c.baseLotSize, MaxBaseLots(c))))
    else o.(maxBaseLots := MaxBaseLots(c),
            maxQuoteLotsIncludingFees := Min(o.maxQuoteLotsIncludingFees, LotsFrom(availableQuote, c.quoteLotSize, MaxQuoteLots(c))))
  }

  /** A batch so far: what the account will be charged for it. */
  datatype Batch = Batch(ex: Exchange, quote: int, base: int)

  ghost function PlaceEach(b: Batch, env: Env, wallet: Wallet, orders: seq<Order>, limit: nat): Result<Batch>
    decreases |orders|
  {
    if orders == [] then Ok(b)
    else if !CanTrade(b.ex) || env.owner !in b.ex.accounts then Err(AccountMissing)
    else
      var o, p := orders[0], b.ex.accounts[env.owner].position;
      var availableQuote, availableBase := wallet.quote + p.quoteFree - b.quote, wallet.base + p.baseFree - b.base;
      if o.maxQuoteLotsIncludingFees < 0 then Err(InvalidInputLots)
      else if o.params.PeggedOrder? then Err(InvalidInputOrderType)
      else if (o.side.Bid? && availableQuote < 0) || (o.side.Ask? && availableBase < 0) then Err(Underflow)
      else
        var o' := Affordable(b.ex.market.config, o, availableQuote, availableBase);
        var placed :- NewOrder(b.ex, env, o', limit);
        PlaceEach(Batch(placed.ex, b.quote + OwnQuote(placed, o.side), b.base + OwnBase(placed, o.side)),
                  env, wallet, orders[1..], limit)
  }

  ghost function CancelAllAndPlaceOrders(ex: Exchange, env: Env, wallet: Wallet, cancel: bool, orders: seq<Order>, limit: nat)
      : Result<Exchange>
  {
    if !env.hasAccount || env.owner !in ex.accounts then Err(AccountMissing)
    else
      var (ex1, _) :- if cancel then CancelAllFrom(ex, env.owner, Filter(None, None), 0, U8_MAX) else Ok((ex, 0));
      var b :- PlaceEach(Batch(ex1, 0, 0), env, wallet, orders, limit);
      if env.owner !in b.ex.accounts then Err(AccountMissing)
      else PaidFrom(wallet, b.ex, env.owner, b.quote, b.base, HeapGrew(ex, b.ex))
  }

  // ---------- funds ----------

  /** What settling pays out. */
  datatype Payout = Payout(base: int, quote: int, referrer: int)

  /** Maker fees still locked when no bid is left are rounding leftovers. */
  function RoundOff(c: Config, p: Position): int {
    if c.makerFee > 0 && p.bidsBaseLots == 0 then p.lockedMakerFees else 0
  }

  function SettleFunds(ex: Exchange, owner: Pubkey, hasReferrer: bool): Result<(Exchange, Payout)> {
    if owner !in ex.accounts then Err(AccountMissing)
    else
      var a, m := ex.accounts[owner], ex.market;
      var p, off := a.position, RoundOff(m.config, a.position);
      var rebate := p.referrerRebates + off;
      var m' := m.(
        feesAvailable := if hasReferrer then m.feesAvailable else m.feesAvailable + rebate,
        baseDepositTotal := m.baseDepositTotal - p.baseFree,
        quoteDepositTotal := m.quoteDepositTotal - (if hasReferrer then rebate else 0) - p.quoteFree,
        referrerRebatesAccrued := m.referrerRebatesAccrued - p.referrerRebates);
      var p' := p.(lockedMakerFees := p.lockedMakerFees - off, baseFree := 0, quoteFree := 0, referrerRebates := 0,
                   penaltyHeapCount := 0);
      Ok((ex.(market := m').WithAccount(owner, a.(position := p')),
          Payout(p.baseFree, p.quoteFree, if hasReferrer then rebate else 0)))
  }

  function Deposit(ex: Exchange, owner: Pubkey, base: nat, quote: nat): Result<Exchange> {
    if owner !in ex.accounts then Err(AccountMissing)
    else
      var a, m := ex.accounts[owner], ex.market;
      var p := a.position;
      Ok(ex.(market := m.(baseDepositTotal := m.baseDepositTotal + base, quoteDepositTotal := m.quoteDepositTotal + quote))
           .WithAccount(owner, a.(position := p.(baseFree := p.baseFree + base, quoteFree := p.quoteFree + quote))))
  }

  /** Deposits what is missing of the amounts given. */
  function Refill(ex: Exchange, owner: Pubkey, base: nat, quote: nat): Result<Exchange> {
    if owner !in ex.accounts then Err(AccountMissing)
    else
      var p := ex.accounts[owner].position;
      Deposit(ex, owner, DepositFor(base, p.baseFree), DepositFor(quote, p.quoteFree))
  }

  function SweepFees(ex: Exchange): (Exchange, int) {
    var m := ex.market;
    (ex.(market := m.(feesAvailable := 0, quoteDepositTotal := m.quoteDepositTotal - m.feesAvailable)), m.feesAvailable)
  }

  // ---------- accounts and the market ----------

  function OpenAccount(ex: Exchange, p: Pubkey): Result<Exchange> {
    if p in ex.accounts then Err(SomeError) else Ok(ex.WithAccount(p, NewAccount))
  }

  function CloseAccount(ex: Exchange, p: Pubkey): Result<Exchange> {
    if p !in ex.accounts then Err(AccountMissing)
    else if !ex.accounts[p].position.IsEmpty() then Err(NonEmptyOpenOrdersPosition)
    else Ok(ex.(accounts := ex.accounts - {p}))
  }

  /** Whether the market may be closed. */
  predicate MayClose(ex: Exchange) {
    ex.market.IsEmpty() && ex.orders.bids.IsEmpty() && ex.orders.asks.IsEmpty() && ex.orders.heap.order == []
  }

  // ---------- events ----------

  /** At most this many events are consumed by one instruction. */
  const MAX_EVENTS_CONSUME: nat := 8

  /** Takes live slots that were not taken before until there are `limit` of them; an index beyond the heap fails. */
  function Pick(heap: HeapModel, candidates: seq<nat>, picked: seq<nat>, limit: nat): Result<seq<nat>>
    decreases |candidates|
  {
    if |picked| >= limit || candidates == [] then Ok(picked)
    else
      var slot := candidates[0];
      if slot >= |heap.order| + |heap.free| then Err(BadSlotIndex)
      else if slot !in heap.pending || slot in picked then Pick(heap, candidates[1..], picked, limit)
      else Pick(heap, candidates[1..], picked + [slot], limit)
  }

  /** What an event does to its account. */
  function HandleEvent(ex: Exchange, e: Event): Result<Exchange> {
    if e.Fill? then HandleFill(ex, e) else CancelFor(ex, e.owner, e.ownerSlot, e.quantity)
  }

  /** Handles one event if its account was passed along, and takes it off the heap; otherwise skips it. */
  function ConsumeSlot(ex: Exchange, remaining: set<Pubkey>, slot: nat): Result<Exchange>
    requires slot in ex.orders.heap.pending
  {
    var e := ex.orders.heap.pending[slot];
    if e.For() !in remaining then Ok(ex)
    else
      var ex' :- HandleEvent(ex, e);
      Ok(ex'.(orders := ex'.orders.(heap := ex'.orders.heap.Delete(slot))))
  }

  function ConsumeSlots(ex: Exchange, remaining: set<Pubkey>, slots: seq<nat>): Result<Exchange>
    decreases |slots|
  {
    if slots == [] then Ok(ex)
    else if slots[0] !in ex.orders.heap.pending then Err(SomeError)
    else
      var ex' :- ConsumeSlot(ex, remaining, slots[0]);
      ConsumeSlots(ex', remaining, slots[1..])
  }

  /** Consumes the events in the given slots first, then those that arrived first. */
  function ConsumeEvents(ex: Exchange, remaining: set<Pubkey>, limit: nat, slots: seq<nat>): Result<Exchange> {
    var picked :- Pick(ex.orders.heap, slots + ex.orders.heap.order, [], Min(limit, MAX_EVENTS_CONSUME));
    ConsumeSlots(ex, remaining, picked)
  }
}
