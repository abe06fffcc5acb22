/** The whole market as one value, and what a new order does to it. */
module Exchanges {
  import opened Types
  import opened Rankings
  import opened Prices
  import opened Markets
  import opened Accounts
  import opened Ledgers
  import opened BookSideModels
  import opened EventHeaps
  import opened Iterations
  import opened Matching
  import opened Posting

  /** Both book sides and the event heap. */
  datatype Orders = Orders(bids: BookSideModel, asks: BookSideModel, heap: HeapModel) {
    function Book(side: Side): BookSideModel { if side.Bid? then bids else asks }

    function WithBook(side: Side, m: BookSideModel): Orders { if side.Bid? then this.(bids := m) else this.(asks := m) }
  }

  datatype Exchange = Exchange(market: Market, accounts: map<Pubkey, Account>, orders: Orders) {
    function WithAccount(p: Pubkey, a: Account): Exchange { this.(accounts := accounts[p := a]) }

    function Without(side: Side, comp: Component, key: nat): Exchange {
      this.(orders := orders.WithBook(side, orders.Book(side).Remove(comp, key)))
    }
  }

  /** A market just created. */
  function NewMarket(c: Config, bookCapacity: nat, heapCapacity: nat): Exchange {
    var book := BookSideModel(map[], map[], 0, bookCapacity);
    Exchange(Market(c, 0, 0, 0, 0, 0), map[], Orders(book, book, HeapModel(map[], [], Upto(heapCapacity))))
  }

  /** Who asks, with or without an open orders account, which accounts are passed along, the time and the oracle price. */
  datatype Env = Env(owner: Pubkey, hasAccount: bool, remaining: set<Pubkey>, now: nat, oracle: Option<int>)

  // ---------- events ----------

  /** Cancels an order in its owner's account. */
  function CancelFor(ex: Exchange, p: Pubkey, slot: nat, quantity: int): Result<Exchange> {
    if p !in ex.accounts then Err(AccountMissing)
    else
      var a := ex.accounts[p];
      if slot >= |a.slots| || a.slots[slot].isFree then Err(AssertionFailed)
      else Ok(ex.WithAccount(p, CancelOrder(ex.market.config, a, slot, quantity)))
  }

  function PushEvent(ex: Exchange, e: Event): Result<Exchange> {
    if ex.orders.heap.IsFull() then Err(HeapFull)
    else Ok(ex.(orders := ex.orders.(heap := ex.orders.heap.Push(e))))
  }

  /** An order taken off the book is cancelled at once if its owner's account is at hand, otherwise left to the heap. */
  function ProcessOut(ex: Exchange, env: Env, e: Event): Result<Exchange>
    requires e.Out?
  {
    if (env.hasAccount && env.owner == e.owner) || e.owner in env.remaining
    then CancelFor(ex, e.owner, e.ownerSlot, e.quantity)
    else PushEvent(ex, e)
  }

  /** Credits the maker of a fill. */
  function HandleFill(ex: Exchange, f: Event): Result<Exchange>
    requires f.Fill?
  {
    if f.maker !in ex.accounts then Err(AccountMissing)
    else
      var a, c := ex.accounts[f.maker], ex.market.config;
      if f.makerSlot >= |a.slots| || (f.makerOut && a.slots[f.makerSlot].isFree) then Err(AssertionFailed)
      else Ok(Exchange(
        ex.market.(referrerRebatesAccrued := ex.market.referrerRebatesAccrued + AmountsOfFill(c, f).makerFees),
        ex.accounts[f.maker := ExecuteMaker(c, a, f)], ex.orders))
  }

  /** A fill is credited at once if its maker's account was passed along, up to a limit, otherwise left to the heap. */
  function ProcessFill(ex: Exchange, env: Env, f: Event, processed: nat): Result<(Exchange, nat)>
    requires f.Fill?
  {
    if processed < FILL_EVENT_REMAINING_LIMIT && f.maker in env.remaining then
      if env.hasAccount && env.owner == f.maker then Err(BorrowFailed)
      else
        var ex' :- HandleFill(ex, f);
        Ok((ex', processed + 1))
    else
      var ex' :- PushEvent(ex, f);
      Ok((ex', processed))
  }

  function OutOf(side: Side, leaf: LeafNode): Event { Out(side, leaf.ownerSlot, leaf.owner, leaf.quantity) }

  function FillFor(env: Env, side: Side, item: Item, q: int): Event {
    Fill(side, q == item.leaf.quantity, item.leaf.ownerSlot, item.leaf.owner, env.owner, item.price, item.leaf.pegLimit, q)
  }

  // ---------- matching ----------

  /** The opposing book after `q` lots of an order are matched. */
  function MatchedBook(m: BookSideModel, item: Item, q: int): BookSideModel {
    if q == item.leaf.quantity || item.leaf.key !in m.Get(item.comp) then m.Remove(item.comp, item.leaf.key)
    else m.WithQuantity(item.comp, item.leaf.key, item.leaf.quantity - q)
  }

  /** One action of a taker on `side`; `processed` counts the fills that were credited at once. */
  function ApplyAction(ex: Exchange, env: Env, side: Side, a: Action, processed: nat): Result<(Exchange, nat)> {
    var opp, item := side.Invert(), a.item;
    match a
    case Drop(_) =>
      var ex' :- ProcessOut(ex.Without(opp, item.comp, item.leaf.key), env, OutOf(opp, item.leaf));
      Ok((ex', processed))
    case Cancel(_) =>
      var ex' :- CancelFor(ex.Without(opp, item.comp, item.leaf.key), env.owner, item.leaf.ownerSlot, item.leaf.quantity);
      Ok((ex', processed))
    case Match(_, q) =>
      ProcessFill(ex.(orders := ex.orders.WithBook(opp, MatchedBook(ex.orders.Book(opp), item, q))),
                  env, FillFor(env, side, item, q), processed)
  }

  function ApplyActions(ex: Exchange, env: Env, side: Side, actions: seq<Action>, processed: nat): Result<(Exchange, nat)>
    decreases |actions|
  {
    if actions == [] then Ok((ex, processed))
    else
      var (ex', processed') :- ApplyAction(ex, env, side, actions[0], processed);
      ApplyActions(ex', env, side, actions[1..], processed')
  }

  // ---------- posting ----------

  /** Makes room by dropping one expired order, if there is one. */
  ghost function EvictExpired(ex: Exchange, env: Env, side: Side, comp: Component): Result<Exchange> {
    var m := ex.orders.Book(side);
    var from := ExpiredComponent(m, comp, env.now);
    match ExpiredOrder(m.Get(from), env.now)
    case None => Ok(ex)
    case Some(leaf) => ProcessOut(ex.Without(side, from, leaf.key), env, OutOf(side, leaf))
  }

  /** Makes room by dropping the worst order when the side is full; the new order must be better. */
  ghost function EvictWorst(ex: Exchange, env: Env, side: Side, priceLots: int): Result<Exchange> {
    var m := ex.orders.Book(side);
    if !m.IsFull() then Ok(ex)
    else
      match WorstItem(m, side, env.now, env.oracle)
      case None => Err(SomeError)
      case Some(item) =>
        if !side.IsPriceBetter(priceLots, item.price) then Err(SomeError)
        else ProcessOut(ex.Without(side, item.comp, item.leaf.key), env, OutOf(side, item.leaf))
  }

  function LeafFor(env: Env, o: Order, slot: nat, key: nat, quantity: int): LeafNode {
    LeafNode(slot, o.timeInForce, key, env.owner, quantity, env.now, PegLimit(o), o.clientOrderId)
  }

  /** Puts the order on the book, in the first free slot of its owner. */
  function Enter(ex: Exchange, env: Env, o: Order, comp: Component, lock: int, key: nat, quantity: int): Result<Exchange> {
    if env.owner !in ex.accounts then Err(AccountMissing)
    else
      var a := ex.accounts[env.owner];
      match NextOrderSlot(a)
      case None => Err(OpenOrdersFull)
      case Some(slot) =>
        var leaf := LeafFor(env, o, slot, key, quantity);
        var m :- ex.orders.Book(o.side).Insert(comp, leaf);
        Ok(Exchange(ex.market, ex.accounts[env.owner := Posted(ex.market.config, a, o.side, comp, leaf, lock)],
                    ex.orders.WithBook(o.side, m)))
  }

  ghost function PostOrder(ex: Exchange, env: Env, o: Order, comp: Component, priceLots: int, key: nat, quantity: int)
      : Result<Exchange>
  {
    var ex1 :- EvictExpired(ex, env, o.side, comp);
    var ex2 :- EvictWorst(ex1, env, o.side, priceLots);
    Enter(ex2, env, o, comp, LockingPrice(o, priceLots), key, quantity)
  }

  // ---------- a new order ----------

  /** The result of a new order, amounts in native units. */
  datatype Placed = Placed(
    ex: Exchange, orderId: Option<nat>,
    takenBase: int, takenQuote: int, takerFees: int, referrerAmount: int,
    postedBase: int, postedQuote: int, makerFees: int)

  ghost function ItemsOf(ex: Exchange, side: Side, now: int, oracle: Option<int>): seq<Item> {
    var m := ex.orders.Book(side);
    Items(side, Ranked(side, m.fixed), Ranked(side, m.pegged), now, oracle)
  }

  /** The next arrival number, for the key of the order. */
  function NextSeqNum(ex: Exchange): Exchange { ex.(market := ex.market.(seqNum := ex.market.seqNum + 1)) }

  /** What the taker pays and gets, out of the actions of the walk. */
  function TakenBy(ex: Exchange, env: Env, o: Order, priceLots: int, actions: seq<Action>): Placed {
    var c, t := ex.market.config, TakerOf(o, env.owner, env.hasAccount, priceLots);
    var base, quote, self := TakenBase(actions), TakenQuote(actions), SelfQuote(t, actions);
    Placed(ex, None, base * c.baseLotSize, quote * c.quoteLotSize, TakerFees(c, quote, self),
           ReferrerAmount(c, quote, self, RebatesOf(c, t, actions)), 0, 0, 0)
  }

  /** Credits the taker's account, if there is one. */
  function SettleTaker(p: Placed, env: Env, side: Side): Result<Placed> {
    if !env.hasAccount then Ok(p)
    else if env.owner !in p.ex.accounts then Err(AccountMissing)
    else Ok(p.(ex := Exchange(
      p.ex.market.(referrerRebatesAccrued := p.ex.market.referrerRebatesAccrued + p.referrerAmount),
      p.ex.accounts[env.owner :=
        ExecuteTaker(p.ex.accounts[env.owner], side, p.takenBase, p.takenQuote, p.takerFees, p.referrerAmount)],
      p.ex.orders)))
  }

  /** Posts what is left of the order, if it is to be posted. */
  ghost function PostRest(c: Config, p: Placed, env: Env, o: Order, priceLots: int, key: nat, target: Option<Component>,
                          quantity: int): Result<Placed>
    requires c.Ok()
  {
    var price := LockingPrice(o, priceLots);
    if target.None? then Ok(p)
    else if quantity * price > MaxQuoteLots(c) then Err(InvalidPostAmount)
    else
      var ex :- PostOrder(p.ex, env, o, target.value, priceLots, key, quantity);
      var quote := quantity * price * c.quoteLotSize;
      Ok(p.(ex := ex, orderId := Some(key), postedBase := quantity * c.baseLotSize, postedQuote := quote,
            makerFees := if o.side.Bid? then MakerFeesCeil(c, quote) else 0))
  }

  /** The cells are accounted for, and every order has a key, a price, a peg limit and a quantity that orders can have. */
  ghost predicate BookOk(m: BookSideModel) {
    && m.UsedCells() <= m.bump <= m.capacity
    && KeysMatch(m.fixed) && KeysMatch(m.pegged)
    && (forall k :: k in m.fixed ==> FixedOk(m.fixed[k]))
    && (forall k :: k in m.pegged ==> PeggedOk(m.pegged[k]))
  }

  predicate FixedOk(leaf: LeafNode) {
    leaf.key < U64_SIZE * U64_SIZE && 1 <= leaf.PriceData() <= I64_MAX && leaf.pegLimit == -1 && leaf.quantity >= 1
  }

  predicate PeggedOk(leaf: LeafNode) { leaf.key < U64_SIZE * U64_SIZE && leaf.pegLimit >= 1 && leaf.quantity >= 1 }

  lemma ItemsCanBeMatched(side: Side, m: BookSideModel, now: int, oracle: Option<int>)
    requires BookOk(m)
    ensures ItemsOk(Items(side, Ranked(side, m.fixed), Ranked(side, m.pegged), now, oracle))
  {
    var fixed, pegged := Ranked(side, m.fixed), Ranked(side, m.pegged);
    RankedIsRanked(side, m.fixed);
    RankedIsRanked(side, m.pegged);
    ItemsShowOrders(side, fixed, pegged, now, oracle);
    var s := Items(side, fixed, pegged, now, oracle);
    forall i | 0 <= i < |s|
      ensures s[i].price >= 1 && s[i].leaf.quantity >= 1
    {
      assert ShowsOrder(s[i], side, fixed, pegged, now, oracle);
      ShownPrice(s[i], side, fixed, pegged, now, oracle);
      assert if s[i].comp.Fixed? then FixedOk(s[i].leaf) else PeggedOk(s[i].leaf);
    }
  }

  /** The walk of the order through the opposing side. */
  ghost function WalkOf(ex: Exchange, env: Env, o: Order, limit: nat, priceLots: int): Walked
    requires ex.market.config.Ok() && BookOk(ex.orders.Book(o.side.Invert()))
  {
    ItemsCanBeMatched(o.side.Invert(), ex.orders.Book(o.side.Invert()), env.now, env.oracle);
    Walk(TakerOf(o, env.owner, env.hasAccount, priceLots), ItemsOf(ex, o.side.Invert(), env.now, env.oracle),
         StartBudget(ex.market.config, o, limit))
  }

  /** Matches an order against the opposing side and settles its taker. */
  function TakeOrder(ex: Exchange, env: Env, o: Order, priceLots: int, w: Walked): Result<Placed> {
    var (ex', _) :- ApplyActions(NextSeqNum(ex), env, o.side, w.actions, 0);
    if w.stop.SelfTrade? then Err(WouldSelfTrade)
    else SettleTaker(TakenBy(ex', env, o, priceLots, w.actions), env, o.side)
  }

  /** A new order whose price is known. */
  ghost function OrderAt(ex: Exchange, env: Env, o: Order, limit: nat, priceLots: int, priceData: int): Result<Placed>
    requires ex.market.config.Ok() && 0 <= ex.market.seqNum < U64_MAX && BookOk(ex.orders.Book(o.side.Invert()))
    requires LockingPrice(o, priceLots) >= 1 && IsU64(priceData)
  {
    var c, w := ex.market.config, WalkOf(ex, env, o, limit, priceLots);
    var taken :- TakeOrder(ex, env, o, priceLots, w);
    var quantity := PostQuantity(c, o, priceLots, w.left.base, TakenQuote(w.actions), taken.takerFees);
    if IsFillOrKill(o) && w.left.base > 0 then Err(WouldExecutePartially)
    else
      PostRest(c, taken, env, o, priceLots, NewNodeKey(o.side, priceData, ex.market.seqNum + 1),
               PostedTo(o, priceLots, w.stop, quantity), quantity)
  }

  /** A new order: match it against the opposing side, settle its taker, and post the rest. */
  ghost function NewOrder(ex: Exchange, env: Env, o: Order, limit: nat): Result<Placed>
    requires ex.market.config.Ok() && ex.market.seqNum >= 0 && BookOk(ex.orders.Book(o.side.Invert()))
    requires PegLimit(o) == -1 || PegLimit(o) >= 1
  {
    var c := ex.market.config;
    var (priceLots, priceData) :- OrderPrice(o, env.oracle, ItemsOf(ex, o.side.Invert(), env.now, env.oracle));
    if ex.market.seqNum >= U64_MAX then Err(SeqNumOverflow)
    else if o.maxBaseLots > MaxBaseLots(c) || OrderMaxQuote(c, o) > MaxQuoteLots(c) then Err(InvalidInputLotsSize)
    else OrderAt(ex, env, o, limit, priceLots, priceData)
  }
}
