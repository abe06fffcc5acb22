/** The main step: a new order keeps the invariant, up to what its owner is charged. */
module ExchangeNewOrder {
  import opened Types
  import opened Prices
  import opened Markets
  import opened Accounts
  import opened Ledgers
  import opened Matching
  import opened Posting
  import opened Exchanges
  import opened ExchangeInvariants
  import opened ExchangeSteps
  import opened ExchangeActions
  import opened ExchangePosting
  import opened ExchangeOrders

  /** What the instructions check of an order before they pass it on. */
  predicate OrderOk(o: Order) {
    && o.maxBaseLots >= 0 && o.maxQuoteLotsIncludingFees >= 0
    && (o.params.PeggedOrder? ==> o.params.pegLimit >= 1)
  }

  lemma OrderOkIs(o: Order)
    requires OrderOk(o)
    ensures PegLimit(o) == -1 || PegLimit(o) >= 1
    ensures o.maxBaseLots >= 0 && o.maxQuoteLotsIncludingFees >= 0
  {
  }

  /** Both prices of an order that is accepted: the one in lots, and the one for its key. */
  lemma PriceFacts(o: Order, oracle: Option<int>, items: seq<Item>)
    requires OrderOk(o) && OrderPrice(o, oracle, items).Ok?
    ensures var (priceLots, priceData) := OrderPrice(o, oracle, items).value;
            && 1 <= priceLots <= I64_MAX && IsU64(priceData)
            && (!o.params.PeggedOrder? ==> priceData == priceLots)
            && LockingPrice(o, priceLots) >= 1
  {
  }

  /** An order that is posted makes a proper leaf, which locks funds at the locking price. */
  lemma PostedLeafOk(o: Order, env: Env, priceLots: int, priceData: int, seqNum: int, comp: Component, quantity: int)
    requires OrderOk(o) && PostTarget(o) == Some(comp) && quantity >= 1 && IsU64(seqNum)
    requires 1 <= priceLots <= I64_MAX && IsU64(priceData) && (!o.params.PeggedOrder? ==> priceData == priceLots)
    ensures var key, lock := NewNodeKey(o.side, priceData, seqNum), LockingPrice(o, priceLots);
            && SeqNumOf(o.side, key) == seqNum
            && (forall slot :: LeafOk(comp, LeafFor(env, o, slot, key, quantity)))
            && (forall slot :: LockOf(comp, LeafFor(env, o, slot, key, quantity)) == lock || o.side.Ask?)
            && lock >= 1
  {
    KeyRoundTrip(o.side, priceData, seqNum);
    hide NewNodeKey, SeqNumOf;
  }

  /** What is posted is charged to its owner. */
  function ChargeQuote(p: Placed, env: Env, side: Side): int {
    TakerQuote(p, env, side) + if side.Bid? then p.postedQuote + p.makerFees else 0
  }

  function ChargeBase(p: Placed, env: Env, side: Side): int {
    TakerBase(p, env, side) + if side.Ask? then p.postedBase else 0
  }

  /** The errors that an order can meet. None of them is a failed assert or a missing account, or one of the instructions'. */
  predicate OrderError(e: Error) { e !in {AssertionFailed, AccountMissing, Underflow, InsufficientFunds} }

  /** What may differ after an order: rebates accrued and the arrival number. */
  ghost predicate OrderFrame(ex: Exchange, ex': Exchange) {
    && FreeGrows(ex.accounts, ex'.accounts)
    && ex'.market == ex.market.(seqNum := ex.market.seqNum + 1, referrerRebatesAccrued := ex'.market.referrerRebatesAccrued)
  }

  ghost predicate NotBelowZero(p: Placed) {
    && AmountsOk(p) && p.postedBase >= 0 && p.postedQuote >= 0 && p.makerFees >= 0
  }

  /** Posting the rest. */
  lemma RestStep(p: Placed, claims: map<ClaimId, Claim>, env: Env, o: Order, priceLots: int, priceData: int, seqNum: int,
                 target: Option<Component>, quantity: int, dq: int, db: int)
      returns (claims': map<ClaimId, Claim>)
    requires OrderOk(o) && (target.Some? ==> quantity >= 1 && target == PostTarget(o) && env.owner in p.ex.accounts)
    requires 1 <= priceLots <= I64_MAX && IsU64(priceData) && (!o.params.PeggedOrder? ==> priceData == priceLots)
    requires IsU64(seqNum) && p.ex.market.seqNum == seqNum && SeqsOk(p.ex.accounts, seqNum - 1)
    requires AmountsOk(p) && p.postedBase == 0 && p.postedQuote == 0 && p.makerFees == 0 && p.ex.market.config.Ok()
    requires Good(p.ex, claims, dq + TakerQuote(p, env, o.side), db + TakerBase(p, env, o.side))
    ensures var r := PostRest(p.ex.market.config, p, env, o, priceLots, NewNodeKey(o.side, priceData, seqNum), target, quantity);
            && (r.Err? ==> OrderError(r.error))
            && (r.Ok? ==>
                  && Good(r.value.ex, claims', dq + ChargeQuote(r.value, env, o.side), db + ChargeBase(r.value, env, o.side))
                  && NotBelowZero(r.value)
                  && r.value.ex.market == p.ex.market.(referrerRebatesAccrued := r.value.ex.market.referrerRebatesAccrued)
                  && FreeGrows(p.ex.accounts, r.value.ex.accounts))
  {
    hide *;
    claims' := claims;
    var c, key, lock := p.ex.market.config, NewNodeKey(o.side, priceData, seqNum), LockingPrice(o, priceLots);
    PostRestIs(c, p, env, o, priceLots, key, target, quantity);
    NothingPosted(p, env, o.side);
    PostErrors();
    GrowsReflexive(p.ex.accounts);
    if target.Some? {
      PostedLeafOk(o, env, priceLots, priceData, seqNum, target.value, quantity);
      var dq0, db0 := dq + TakerQuote(p, env, o.side), db + TakerBase(p, env, o.side);
      claims' := PostStep(p.ex, claims, env, o, target.value, priceLots, key, quantity, dq0, db0);
      var r := PostRest(c, p, env, o, priceLots, key, target, quantity);
      if r.Ok? {
        LeafForFields(env, o, 0, key, quantity);
        PostedCharge(c, p, r.value, env, o, LeafFor(env, o, 0, key, quantity), lock, quantity);
      }
    }
  }

  lemma GrowsReflexive(accounts: map<Pubkey, Account>)
    ensures FreeGrows(accounts, accounts)
  {
  }

  lemma PostErrors()
    ensures forall e :: PostErrorIsKnown(e) ==> OrderError(e)
    ensures OrderError(InvalidPostAmount)
  {
  }

  lemma NothingPosted(p: Placed, env: Env, side: Side)
    requires AmountsOk(p) && p.postedBase == 0 && p.postedQuote == 0 && p.makerFees == 0
    ensures ChargeQuote(p, env, side) == TakerQuote(p, env, side) && ChargeBase(p, env, side) == TakerBase(p, env, side)
    ensures NotBelowZero(p)
  {
  }

  lemma PostRestIs(c: Config, p: Placed, env: Env, o: Order, priceLots: int, key: nat, target: Option<Component>, quantity: int)
    requires c.Ok()
    ensures var r := PostRest(c, p, env, o, priceLots, key, target, quantity);
            var lock := LockingPrice(o, priceLots);
            && (target.None? ==> r == Ok(p))
            && (target.Some? ==>
                  var e := PostOrder(p.ex, env, o, target.value, priceLots, key, quantity);
                  && (r.Err? ==> r.error == InvalidPostAmount || (e.Err? && r.error == e.error))
                  && (r.Ok? ==> e.Ok? && r.value == p.(ex := e.value, orderId := Some(key), postedBase := quantity * c.baseLotSize,
                                    postedQuote := quantity * lock * c.quoteLotSize,
                                    makerFees := if o.side.Bid? then MakerFeesCeil(c, quantity * lock * c.quoteLotSize) else 0)))
  {
    hide PostOrder, MakerFeesCeil, MaxQuoteLots, LockingPrice;
  }

  lemma PostedCharge(c: Config, p: Placed, q: Placed, env: Env, o: Order, leaf: LeafNode, lock: int, quantity: int)
    requires c.Ok() && AmountsOk(p) && leaf.quantity == quantity >= 1 && lock >= 1
    requires q.takenBase == p.takenBase && q.takenQuote == p.takenQuote && q.takerFees == p.takerFees
    requires q.referrerAmount == p.referrerAmount
    requires q.postedBase == quantity * c.baseLotSize && q.postedQuote == quantity * lock * c.quoteLotSize
    requires q.makerFees == if o.side.Bid? then MakerFeesCeil(c, quantity * lock * c.quoteLotSize) else 0
    ensures ChargeQuote(q, env, o.side) == TakerQuote(p, env, o.side) + PostedQuote(c, o.side, leaf, lock)
    ensures ChargeBase(q, env, o.side) == TakerBase(p, env, o.side) + PostedBase(c, o.side, leaf)
    ensures NotBelowZero(q)
  {
    QuoteMonotone(c, quantity, 0, lock);
    FeeBounds(c, Quote(c, quantity, lock));
    MulOrder(0, quantity, c.baseLotSize);
    hide MakerFeesCeil;
  }

  /** What an order leaves, if it is accepted. */
  ghost predicate OrderLeaves(r: Result<Placed>, ex: Exchange, claims': map<ClaimId, Claim>, env: Env, side: Side, dq: int, db: int) {
    && (r.Err? ==> OrderError(r.error))
    && (r.Ok? ==>
          && Good(r.value.ex, claims', dq + ChargeQuote(r.value, env, side), db + ChargeBase(r.value, env, side))
          && OrderFrame(ex, r.value.ex) && NotBelowZero(r.value))
  }

  lemma LeavesError(r: Result<Placed>, ex: Exchange, claims': map<ClaimId, Claim>, env: Env, side: Side, dq: int, db: int)
    requires r.Err? && OrderError(r.error)
    ensures OrderLeaves(r, ex, claims', env, side, dq, db)
  {
  }

  lemma OrderAtKeeps(ex: Exchange, claims: map<ClaimId, Claim>, env: Env, o: Order, limit: nat, priceLots: int, priceData: int,
                     dq: int, db: int)
      returns (claims': map<ClaimId, Claim>)
    requires Good(ex, claims, dq, db) && SignerOk(ex, env) && OrderOk(o) && (PostTarget(o).Some? ==> env.hasAccount)
    requires ex.market.config.Ok() && 0 <= ex.market.seqNum < U64_MAX && BookOk(ex.orders.Book(o.side.Invert()))
    requires LockingPrice(o, priceLots) >= 1 && IsU64(priceData) && 1 <= priceLots <= I64_MAX
    requires !o.params.PeggedOrder? ==> priceData == priceLots
    ensures OrderLeaves(OrderAt(ex, env, o, limit, priceLots, priceData), ex, claims', env, o.side, dq, db)
  {
    hide *;
    OrderErrors(env);
    OrderOkIs(o);
    claims' := TakeStep(ex, claims, env, o, limit, priceLots, dq, db);
    var w := WalkOf(ex, env, o, limit, priceLots);
    var taken := TakeOrder(ex, env, o, priceLots, w);
    SeqNumInRange(ex.market.seqNum);
    OrderAtIs(ex, env, o, limit, priceLots, priceData);
    var r := OrderAt(ex, env, o, limit, priceLots, priceData);
    if taken.Ok? {
      var p := taken.value;
      var quantity := PostQuantity(ex.market.config, o, priceLots, w.left.base, TakenQuote(w.actions), p.takerFees);
      var target := PostedTo(o, priceLots, w.stop, quantity);
      NextSeqNumKeeps(ex, claims, dq, db);
      SameFrameIs(NextSeqNum(ex), p.ex);
      SeqsShrink(ex.accounts, p.ex.accounts, ex.market.seqNum);
      TakenByFields(p.ex, env, o, priceLots, w.actions);
      NotPostedYet(p.ex, env, o, priceLots, w.actions);
      PostedToFacts(o, priceLots, w.stop, quantity);
      SignerStays(ex, p.ex, env);
      SignerIs(p.ex, env);
      claims' := RestStep(p, claims', env, o, priceLots, priceData, ex.market.seqNum + 1, target, quantity, dq, db);
    }
    if r.Err? {
      LeavesError(r, ex, claims', env, o.side, dq, db);
    } else {
      MakeOrderFrame(ex, taken.value.ex, r.value.ex);
      MakeLeaves(r, ex, claims', env, o.side, dq, db);
    }
  }

  lemma MakeLeaves(r: Result<Placed>, ex: Exchange, claims': map<ClaimId, Claim>, env: Env, side: Side, dq: int, db: int)
    requires r.Ok? && Good(r.value.ex, claims', dq + ChargeQuote(r.value, env, side), db + ChargeBase(r.value, env, side))
    requires OrderFrame(ex, r.value.ex) && NotBelowZero(r.value)
    ensures OrderLeaves(r, ex, claims', env, side, dq, db)
  {
  }

  lemma OrderAtIs(ex: Exchange, env: Env, o: Order, limit: nat, priceLots: int, priceData: int)
    requires ex.market.config.Ok() && 0 <= ex.market.seqNum < U64_MAX && BookOk(ex.orders.Book(o.side.Invert()))
    requires LockingPrice(o, priceLots) >= 1 && IsU64(priceData) && IsU64(ex.market.seqNum + 1)
    ensures var r, w := OrderAt(ex, env, o, limit, priceLots, priceData), WalkOf(ex, env, o, limit, priceLots);
            var taken := TakeOrder(ex, env, o, priceLots, w);
            && (taken.Err? ==> r == Err(taken.error))
            && (taken.Ok? ==>
                  var c := ex.market.config;
                  var quantity := PostQuantity(c, o, priceLots, w.left.base, TakenQuote(w.actions), taken.value.takerFees);
                  r == if IsFillOrKill(o) && w.left.base > 0 then Err(WouldExecutePartially)
                       else PostRest(c, taken.value, env, o, priceLots, NewNodeKey(o.side, priceData, ex.market.seqNum + 1),
                                     PostedTo(o, priceLots, w.stop, quantity), quantity))
  {
    hide WalkOf, TakeOrder, PostRest, PostQuantity, PostedTo, NewNodeKey, BookOk, LockingPrice;
  }

  lemma NewOrderIs(ex: Exchange, env: Env, o: Order, limit: nat)
    requires ex.market.config.Ok() && ex.market.seqNum >= 0 && BookOk(ex.orders.Book(o.side.Invert()))
    requires (PegLimit(o) == -1 || PegLimit(o) >= 1) && OrderOk(o)
    ensures var r, c := NewOrder(ex, env, o, limit), ex.market.config;
            var price := OrderPrice(o, env.oracle, ItemsOf(ex, o.side.Invert(), env.now, env.oracle));
            && (price.Err? ==> r == Err(price.error))
            && (price.Ok? && ex.market.seqNum >= U64_MAX ==> r == Err(SeqNumOverflow))
            && (price.Ok? && ex.market.seqNum < U64_MAX ==>
                  && LockingPrice(o, price.value.0) >= 1 && IsU64(price.value.1)
                  && r == if o.maxBaseLots > MaxBaseLots(c) || OrderMaxQuote(c, o) > MaxQuoteLots(c) then Err(InvalidInputLotsSize)
                          else OrderAt(ex, env, o, limit, price.value.0, price.value.1))
  {
    var items := ItemsOf(ex, o.side.Invert(), env.now, env.oracle);
    if OrderPrice(o, env.oracle, items).Ok? { PriceFacts(o, env.oracle, items); }
    hide BookOk, ItemsOf, OrderPrice, OrderAt, OrderMaxQuote, MaxBaseLots, MaxQuoteLots, PegLimit, LockingPrice, OrderOk;
  }

  /** A new order keeps the invariant; what is due afterwards is exactly what the instruction charges. It never meets a
      failed assert or a missing account. */
  lemma NewOrderKeeps(ex: Exchange, claims: map<ClaimId, Claim>, env: Env, o: Order, limit: nat, dq: int, db: int)
      returns (claims': map<ClaimId, Claim>)
    requires Good(ex, claims, dq, db) && SignerOk(ex, env) && OrderOk(o) && (PostTarget(o).Some? ==> env.hasAccount)
    requires ex.market.config.Ok() && ex.market.seqNum >= 0 && BookOk(ex.orders.Book(o.side.Invert()))
    requires PegLimit(o) == -1 || PegLimit(o) >= 1
    ensures OrderLeaves(NewOrder(ex, env, o, limit), ex, claims', env, o.side, dq, db)
  {
    hide BookOk, ItemsOf, OrderPrice, Good, SignerOk, OrderOk, OrderAt, OrderFrame, OrderMaxQuote, MaxBaseLots, MaxQuoteLots,
         ChargeQuote, ChargeBase, NotBelowZero, Config.Ok, PegLimit, LockingPrice;
    claims' := claims;
    var price := OrderPrice(o, env.oracle, ItemsOf(ex, o.side.Invert(), env.now, env.oracle));
    PriceErrors(o, env.oracle, ItemsOf(ex, o.side.Invert(), env.now, env.oracle));
    if price.Ok? && ex.market.seqNum < U64_MAX {
      PriceFacts(o, env.oracle, ItemsOf(ex, o.side.Invert(), env.now, env.oracle));
      claims' := OrderAtKeeps(ex, claims, env, o, limit, price.value.0, price.value.1, dq, db);
    }
  }

  lemma PriceErrors(o: Order, oracle: Option<int>, items: seq<Item>)
    ensures var price := OrderPrice(o, oracle, items);
            price.Err? ==> OrderError(price.error)
  {
  }

  lemma SeqNumInRange(n: int)
    requires 0 <= n < U64_MAX
    ensures IsU64(n + 1)
  {
  }

  lemma MakeOrderFrame(ex: Exchange, ex1: Exchange, ex2: Exchange)
    requires ex2.market == ex1.market.(referrerRebatesAccrued := ex2.market.referrerRebatesAccrued)
    requires ex1.market == NextSeqNum(ex).market.(referrerRebatesAccrued := ex1.market.referrerRebatesAccrued)
    requires FreeGrows(ex.accounts, ex1.accounts) && FreeGrows(ex1.accounts, ex2.accounts)
    ensures OrderFrame(ex, ex2)
  {
    hide FreeGrows;
    FreeGrowsTransitive(ex.accounts, ex1.accounts, ex2.accounts);
  }

  lemma NotPostedYet(ex: Exchange, env: Env, o: Order, priceLots: int, actions: seq<Action>)
    ensures var p := TakenBy(ex, env, o, priceLots, actions); p.postedBase == 0 && p.postedQuote == 0 && p.makerFees == 0
  {
  }

  lemma PostedToFacts(o: Order, priceLots: int, stop: Stop, quantity: int)
    ensures var target := PostedTo(o, priceLots, stop, quantity);
            target.Some? ==> quantity >= 1 && target == PostTarget(o)
  {
  }

  lemma OrderErrors(env: Env)
    ensures OrderError(WouldExecutePartially) && OrderError(WouldSelfTrade) && forall e :: KnownError(env, e) ==> OrderError(e)
  {
  }
}
