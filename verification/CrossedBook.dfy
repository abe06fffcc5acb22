/** A market, reached by instructions, in which a limit bid is posted at a price at which an ask is left. */
module CrossedBook {
  import opened Types
  import opened Rankings
  import opened Prices
  import opened Markets
  import opened Accounts
  import opened Ledgers
  import opened BookSideModels
  import opened EventHeaps
  import opened Iterations
  import opened Matching
  import opened Crossings
  import opened Posting
  import opened Exchanges
  import opened ExchangeOrders
  import opened ExchangeNewOrder
  import opened Instructions
  import opened Runs
  import opened OrderLaws

  /** No maker fee, a taker fee of 10%, lots of one unit. */
  const Fees: Config := Config(1, 1, 0, 100_000)

  const Maker: Pubkey := Pubkey(1)

  const Bidder: Pubkey := Pubkey(2)

  const Tokens: Wallet := Wallet(1000, 1000)

  /** 15 lots are offered at price 1. */
  const Offer: Order := Order(Ask, 15, 100, 0, 0, DecrementTake, FixedOrder(1, Limit))

  /** A bid at price 1 with a limit of 12 quote lots: 10 of them buy, one pays the fee, and one is left to be posted. */
  const Bidding: Order := Order(Bid, 100, 12, 0, 0, DecrementTake, FixedOrder(1, Limit))

  function By(p: Pubkey): Env { Env(p, true, {}, 0, None) }

  const Room: nat := 10

  const Start: Exchange := NewMarket(Fees, Room, Room)

  const Steps: seq<Instruction> := [OpenAccountIx(Maker), OpenAccountIx(Bidder), PlaceOrderIx(By(Maker), Tokens, Offer, 10)]

  const EmptyBook: BookSideModel := BookSideModel(map[], map[], 0, Room)

  const NewHeap: HeapModel := HeapModel(map[], [], Upto(Room))

  const Opened: Exchange :=
    Exchange(Market(Fees, 0, 0, 0, 0, 0), map[Maker := NewAccount, Bidder := NewAccount], Orders(EmptyBook, EmptyBook, NewHeap))

  const OfferKey: nat := NewNodeKey(Ask, 1, 1)

  const OfferLeaf: LeafNode := LeafNode(0, 0, OfferKey, Maker, 15, 0, -1, 0)

  const OfferBook: BookSideModel := BookSideModel(map[OfferKey := OfferLeaf], map[], 1, Room)

  lemma EmptyBookIsOk()
    ensures BookOk(EmptyBook)
  {
  }

  lemma NoItems(ex: Exchange, side: Side)
    requires ex.orders.Book(side) == EmptyBook
    ensures ItemsOf(ex, side, 0, None) == []
  {
  }

  /** Nothing is dropped from a side without orders, and there is room on it. */
  lemma NothingEvicted(ex: Exchange, p: Pubkey, side: Side)
    requires ex.orders.Book(side) == EmptyBook
    ensures EvictExpired(ex, By(p), side, Fixed) == Ok(ex) && EvictWorst(ex, By(p), side, 1) == Ok(ex)
  {
  }

  /** An order that is posted on a side without orders. */
  lemma Enters(ex: Exchange, p: Pubkey, o: Order, key: nat, quantity: int)
    requires ex.orders.Book(o.side) == EmptyBook && p in ex.accounts && ex.accounts[p].slots == NewAccount.slots
    ensures var leaf := LeafFor(By(p), o, 0, key, quantity);
            && leaf.ownerSlot < |ex.accounts[p].slots|
            && PostOrder(ex, By(p), o, Fixed, 1, key, quantity)
               == Ok(Exchange(ex.market, ex.accounts[p := Posted(ex.market.config, ex.accounts[p], o.side, Fixed, leaf, LockingPrice(o, 1))],
                              ex.orders.WithBook(o.side, BookSideModel(map[key := leaf], map[], 1, Room))))
  {
    NothingEvicted(ex, p, o.side);
    assert NewAccount.slots[0].isFree;
    assert NextOrderSlot(ex.accounts[p]) == Some(0);
    var leaf := LeafFor(By(p), o, 0, key, quantity);
    assert EmptyBook.Insert(Fixed, leaf) == Ok(BookSideModel(map[key := leaf], map[], 1, Room));
    hide EvictExpired, EvictWorst, Posted, NextOrderSlot, BookSideModel.Insert;
  }

  /** What is posted of an order on a side without orders. */
  lemma Rests(p: Placed, who: Pubkey, o: Order, key: nat, quantity: int)
    requires p.ex.orders.Book(o.side) == EmptyBook && who in p.ex.accounts && p.ex.accounts[who].slots == NewAccount.slots
    requires 0 <= quantity <= 100 && PegLimit(o) == -1
    ensures Fees.Ok()
    ensures var r := PostRest(Fees, p, By(who), o, 1, key, Some(Fixed), quantity);
            var leaf := LeafFor(By(who), o, 0, key, quantity);
            && r.Ok? && r.value.orderId == Some(key) && leaf.ownerSlot < |p.ex.accounts[who].slots|
            && r.value.ex == Exchange(p.ex.market, p.ex.accounts[who := Posted(p.ex.market.config, p.ex.accounts[who], o.side, Fixed, leaf, 1)],
                                      p.ex.orders.WithBook(o.side, BookSideModel(map[key := leaf], map[], 1, Room)))
            && r.value.takenBase == p.takenBase && r.value.postedBase == quantity
  {
    Enters(p.ex, who, o, key, quantity);
    assert LockingPrice(o, 1) == 1 && MaxQuoteLots(Fees) == I64_MAX;
    hide PostOrder, Posted, LockingPrice, MakerFeesCeil;
  }

  lemma OpenedIs()
    ensures Execute(Execute(Start, Steps[0]), Steps[1]) == Opened
  {
    assert Start.orders == Opened.orders;
    assert map[Maker := NewAccount][Bidder := NewAccount] == map[Maker := NewAccount, Bidder := NewAccount];
    var ex1 := Start.WithAccount(Maker, NewAccount);
    assert Outcome(Start, Steps[0]) == Ok(ex1);
    assert Outcome(ex1, Steps[1]) == Ok(ex1.WithAccount(Bidder, NewAccount));
  }

  // ---------- the ask ----------

  lemma OfferIsTaken()
    ensures Fees.Ok() && BookOk(Opened.orders.Book(Bid))
    ensures OrderPrice(Offer, None, ItemsOf(Opened, Bid, 0, None)) == Ok((1, 1))
    ensures var w := WalkOf(Opened, By(Maker), Offer, 10, 1);
            && w == Walked([], Budget(15, 100, 10, 0), Exhausted)
            && TakeOrder(Opened, By(Maker), Offer, 1, w) == Ok(Placed(NextSeqNum(Opened), None, 0, 0, 0, 0, 0, 0, 0))
  {
    EmptyBookIsOk();
    NoItems(Opened, Bid);
    WalkOfIs(Opened, By(Maker), Offer, 10, 1);
    hide WalkOf, ItemsOf, BookOk;
    var m := Opened.accounts;
    assert m[Maker := ExecuteTaker(NewAccount, Ask, 0, 0, 0, 0)] == m;
  }

  lemma OfferIsPosted()
    ensures Fees.Ok() && BookOk(Opened.orders.Book(Bid)) && PegLimit(Offer) == -1
    ensures var r := NewOrder(Opened, By(Maker), Offer, 10);
            && r.Ok? && r.value.ex.orders == Orders(EmptyBook, OfferBook, NewHeap)
            && r.value.ex.market == Opened.market.(seqNum := 1)
            && r.value.ex.accounts.Keys == Opened.accounts.Keys && r.value.ex.accounts[Bidder] == NewAccount
            && OwnQuote(r.value, Ask) == 0 && OwnBase(r.value, Ask) == 15
            && r.value.ex.accounts[Maker].position.baseFree == 0 && r.value.ex.accounts[Maker].position.quoteFree == 0
  {
    OfferIsTaken();
    var taken := Placed(NextSeqNum(Opened), None, 0, 0, 0, 0, 0, 0, 0);
    Rests(taken, Maker, Offer, OfferKey, 15);
    OfferOrderIs();
    hide NewOrder, PostRest, BookOk;
  }

  lemma OfferOrderIs()
    ensures Fees.Ok() && BookOk(Opened.orders.Book(Bid)) && PegLimit(Offer) == -1
    ensures NewOrder(Opened, By(Maker), Offer, 10)
         == PostRest(Fees, Placed(NextSeqNum(Opened), None, 0, 0, 0, 0, 0, 0, 0), By(Maker), Offer, 1, OfferKey, Some(Fixed), 15)
  {
    OfferIsTaken();
    OfferCanBePlaced();
    OfferToPost();
    hide *;
    NewOrderIs(Opened, By(Maker), Offer, 10);
    OrderAtIs(Opened, By(Maker), Offer, 10, 1, 1);
  }

  lemma OfferCanBePlaced()
    ensures OrderOk(Offer) && PegLimit(Offer) == -1 && LockingPrice(Offer, 1) >= 1 && !IsFillOrKill(Offer)
    ensures Opened.market.config == Fees && Opened.market.seqNum == 0 < U64_MAX && IsU64(1)
    ensures Offer.side == Ask && Offer.side.Invert() == Bid && By(Maker).now == 0 && By(Maker).oracle == None
    ensures Offer.maxBaseLots <= MaxBaseLots(Fees) && OrderMaxQuote(Fees, Offer) <= MaxQuoteLots(Fees)
  {
  }

  lemma OfferToPost()
    ensures Fees.Ok() && LockingPrice(Offer, 1) >= 1
    ensures PostQuantity(Fees, Offer, 1, 15, 0, 0) == 15 && PostedTo(Offer, 1, Exhausted, 15) == Some(Fixed)
    ensures TakenQuote([]) == 0 && NewNodeKey(Ask, 1, 1) == OfferKey
  {
  }

  /** The market when the ask is on the book. */
  ghost predicate Offered(ex: Exchange) {
    && ex.market.config == Fees && ex.market.seqNum == 1
    && ex.orders == Orders(EmptyBook, OfferBook, NewHeap)
    && Bidder in ex.accounts && ex.accounts[Bidder] == NewAccount
  }

  lemma OfferIsPlaced()
    ensures Offered(Execute(Opened, Steps[2]))
  {
    OfferIsPosted();
    EmptyBookIsOk();
    var p := NewOrder(Opened, By(Maker), Offer, 10).value;
    assert Maker in p.ex.accounts by { assert Maker in Opened.accounts.Keys; }
    assert CanTrade(Opened);
    hide NewOrder, OwnQuote, OwnBase, BookOk;
    assert PlaceOrder(Opened, By(Maker), Tokens, Offer, 10)
        == PaidFrom(Tokens, p.ex, Maker, OwnQuote(p, Ask), OwnBase(p, Ask), HeapGrew(Opened, p.ex));
  }

  lemma OfferedIsReached()
    ensures Offered(Run(Start, Steps)) && Healthy(Run(Start, Steps))
  {
    hide Execute, Offered, Healthy, Outcome;
    NewMarketIsHealthy(Fees, Room, Room);
    AlwaysHealthy(Start, Steps);
    OpenedIs();
    OfferIsPlaced();
    assert Steps[1..] == [Steps[1], Steps[2]] && Steps[1..][1..] == [Steps[2]] && Steps[1..][1..][1..] == [];
    var ex1 := Execute(Start, Steps[0]);
    var ex2 := Execute(ex1, Steps[1]);
    assert Run(Start, Steps) == Run(ex1, Steps[1..]);
    assert Run(ex1, Steps[1..]) == Run(ex2, Steps[1..][1..]);
    assert Run(ex2, Steps[1..][1..]) == Run(Execute(ex2, Steps[2]), []);
  }

  // ---------- the bid ----------

  const Shown: Item := Item(Fixed, OfferLeaf, 1, Valid)

  lemma OfferIsShown(ex: Exchange)
    requires Offered(ex)
    ensures ItemsOf(ex, Ask, 0, None) == [Shown] && BookOk(OfferBook)
  {
    KeyRoundTrip(Ask, 1, 1);
    var m := map[OfferKey := OfferLeaf];
    RankingIsUnique(Ask, [OfferLeaf], m);
    NothingRanked();
    ItemsOfOne(OfferLeaf);
  }

  lemma NothingRanked()
    ensures Ranked(Ask, map[]) == []
  {
  }

  lemma ItemsOfOne(leaf: LeafNode)
    ensures Items(Ask, [leaf], [], 0, None) == [FixedItem(leaf, 0)]
  {
    assert Step(Ask, [leaf], [], 0, None) == Some((FixedItem(leaf, 0), [], []));
    assert Items(Ask, [], [], 0, None) == [];
  }

  lemma BidWalks(ex: Exchange)
    requires Offered(ex)
    ensures BookOk(ex.orders.Book(Ask)) && Fees.Ok()
    ensures OrderPrice(Bidding, None, ItemsOf(ex, Ask, 0, None)) == Ok((1, 1))
    ensures WalkOf(ex, By(Bidder), Bidding, 10, 1) == Walked([Match(Shown, 10)], Budget(90, 0, 9, 0), Exhausted)
    ensures !Affords(TakerOf(Bidding, Bidder, true, 1), ItemsOf(ex, Ask, 0, None), OrderMaxQuote(Fees, Bidding))
  {
    OfferIsShown(ex);
    WalkOfIs(ex, By(Bidder), Bidding, 10, 1);
    hide WalkOf, ItemsOf, BookOk, OfferKey;
    assert StartBudget(Fees, Bidding, 10) == Budget(100, 10, 10, 0);
    assert [Shown][1..] == [];
  }

  lemma BidTakes(ex: Exchange)
    requires Offered(ex)
    ensures var w := Walked([Match(Shown, 10)], Budget(90, 0, 9, 0), Exhausted);
            var r := TakeOrder(ex, By(Bidder), Bidding, 1, w);
            && r.Ok? && r.value.ex.orders.Book(Bid) == EmptyBook && r.value.takerFees == 1
            && Bidder in r.value.ex.accounts && r.value.ex.accounts[Bidder].slots == NewAccount.slots
            && TakenQuote(w.actions) == 10
  {
    var actions := [Match(Shown, 10)];
    var ex0 := NextSeqNum(ex);
    assert actions[1..] == [];
    var step := ApplyAction(ex0, By(Bidder), Bid, actions[0], 0);
    assert step.Ok? && step.value.0.orders.Book(Bid) == EmptyBook && step.value.0.accounts == ex.accounts
           && step.value.0.market == ex0.market by {
      assert |Upto(Room)| == Room;
    }
    assert ApplyActions(step.value.0, By(Bidder), Bid, actions[1..], step.value.1) == Ok(step.value);
    hide ApplyAction;
    assert ApplyActions(ex0, By(Bidder), Bid, actions, 0) == Ok(step.value);
    hide ApplyActions;
    var t := TakerOf(Bidding, Bidder, true, 1);
    assert SelfQuote(t, actions[1..]) == 0 && TakenQuote(actions[1..]) == 0 && TakenBase(actions[1..]) == 0;
    assert SelfQuote(t, actions) == 0 && TakenQuote(actions) == 10 && TakenBase(actions) == 10;
    assert TakerFees(Fees, 10, 0) == 1;
    hide SelfQuote, TakenQuote, TakenBase, TakerFees, RebatesOf;
    var w := Walked(actions, Budget(90, 0, 9, 0), Exhausted);
    TakeOrderIs(ex, By(Bidder), Bidding, 1, w);
    TakenByEx(step.value.0, By(Bidder), Bidding, 1, actions);
    assert TakenBy(step.value.0, By(Bidder), Bidding, 1, actions).takerFees == 1;
  }

  lemma BidIsPosted(ex: Exchange)
    requires Offered(ex)
    ensures BookOk(ex.orders.Book(Ask)) && Fees.Ok() && PegLimit(Bidding) == -1
    ensures NewOrder(ex, By(Bidder), Bidding, 10).Ok? && NewOrder(ex, By(Bidder), Bidding, 10).value.orderId.Some?
  {
    hide *;
    OfferedFacts(ex);
    BidWalks(ex);
    BidTakes(ex);
    BidCanBePlaced();
    BidToPost();
    var w := WalkOf(ex, By(Bidder), Bidding, 10, 1);
    var taken := TakeOrder(ex, By(Bidder), Bidding, 1, w).value;
    Rests(taken, Bidder, Bidding, NewNodeKey(Bid, 1, 2), 1);
    NewOrderIs(ex, By(Bidder), Bidding, 10);
    OrderAtIs(ex, By(Bidder), Bidding, 10, 1, 1);
  }

  lemma OfferedFacts(ex: Exchange)
    requires Offered(ex)
    ensures ex.market.config == Fees && 0 <= ex.market.seqNum == 1 < U64_MAX
  {
  }

  lemma OfferedCanTrade(ex: Exchange)
    requires Offered(ex)
    ensures CanTrade(ex)
  {
    EmptyBookIsOk();
    OfferIsShown(ex);
    hide BookOk, ItemsOf;
  }

  lemma BidCanBePlaced()
    ensures OrderOk(Bidding) && PegLimit(Bidding) == -1 && LockingPrice(Bidding, 1) >= 1 && !IsFillOrKill(Bidding)
    ensures Bidding.side == Bid && Bidding.side.Invert() == Ask && By(Bidder) == Env(Bidder, true, {}, 0, None)
    ensures Bidding.maxBaseLots <= MaxBaseLots(Fees) && OrderMaxQuote(Fees, Bidding) <= MaxQuoteLots(Fees) && IsU64(1) && IsU64(2)
  {
  }

  lemma BidToPost()
    ensures Fees.Ok() && LockingPrice(Bidding, 1) >= 1
    ensures PostQuantity(Fees, Bidding, 1, 90, 10, 1) == 1 && PostedTo(Bidding, 1, Exhausted, 1) == Some(Fixed)
  {
  }

  /** A limit bid can be posted while an ask within its price is left: in a market that instructions lead to, a bid at price 1
      is posted although 5 of the 15 lots that are offered at price 1 are still there. */
  lemma LimitBidMayCross()
    ensures var ex := Run(Start, Steps);
            && Healthy(ex) && CanTrade(ex)
            && var r := NewOrder(ex, By(Bidder), Bidding, 10);
               && r.Ok? && r.value.orderId.Some?
               && !Cleared(ItemsOf(ex, Ask, 0, None), Bid, 1, r.value.ex.orders.Book(Ask))
  {
    hide *;
    OfferedIsReached();
    var ex := Run(Start, Steps);
    OfferedFacts(ex);
    BidIsPosted(ex);
    BidWalks(ex);
    BidCanBePlaced();
    OfferedCanTrade(ex);
    NewOrderIsClearExactlyWhen(ex, By(Bidder), Bidding, 10);
  }
}
