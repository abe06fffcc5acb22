/** Every step of matching keeps the invariant. */
module ExchangeSteps {
  import opened Types
  import opened Prices
  import opened Markets
  import opened Accounts
  import opened Ledgers
  import opened BookSideModels
  import opened EventHeaps
  import opened Exchanges
  import opened ExchangeInvariants

  /** Slots are only freed. */
  ghost predicate SlotsShrink(accounts: map<Pubkey, Account>, accounts': map<Pubkey, Account>) {
    && accounts'.Keys == accounts.Keys
    && forall p, s :: InUse(accounts', p, s) ==> InUse(accounts, p, s) && accounts'[p].slots[s] == accounts[p].slots[s]
  }

  predicate AccountGrows(a: Account, b: Account) {
    b.position.quoteFree >= a.position.quoteFree && b.position.baseFree >= a.position.baseFree
  }

  /** Nobody's free funds get less. */
  ghost predicate FreeGrows(accounts: map<Pubkey, Account>, accounts': map<Pubkey, Account>) {
    && accounts'.Keys == accounts.Keys
    && forall p :: p in accounts ==> AccountGrows(accounts[p], accounts'[p])
  }

  lemma OneGrows(accounts: map<Pubkey, Account>, p: Pubkey, a: Account)
    requires p in accounts && AccountGrows(accounts[p], a)
    ensures FreeGrows(accounts, accounts[p := a])
  {
  }

  lemma FreeGrowsTransitive(a: map<Pubkey, Account>, b: map<Pubkey, Account>, c: map<Pubkey, Account>)
    requires FreeGrows(a, b) && FreeGrows(b, c)
    ensures FreeGrows(a, c)
  {
    forall p | p in a
      ensures AccountGrows(a[p], c[p])
    {
      assert AccountGrows(a[p], b[p]) && AccountGrows(b[p], c[p]);
    }
  }

  /** Neither accounts come or go, nor do the vault totals, the fees or the arrival numbers change; slots are only freed,
      and free funds only grow. */
  ghost predicate SameFrame(ex: Exchange, ex': Exchange) {
    && SlotsShrink(ex.accounts, ex'.accounts)
    && FreeGrows(ex.accounts, ex'.accounts)
    && ex'.market == ex.market.(referrerRebatesAccrued := ex'.market.referrerRebatesAccrued)
  }

  lemma SameFrameTransitive(a: Exchange, b: Exchange, c: Exchange)
    requires SameFrame(a, b) && SameFrame(b, c)
    ensures SameFrame(a, c)
  {
    hide FreeGrows;
    FreeGrowsTransitive(a.accounts, b.accounts, c.accounts);
  }

  lemma CancelGrows(c: Config, accounts: map<Pubkey, Account>, x: Claim)
    requires c.Ok() && ClaimOk(accounts, x) && !x.kind.Matched?
    ensures AccountGrows(accounts[x.owner], CancelOrder(c, accounts[x.owner], x.slot, x.quantity))
  {
    hide CancelOrder;
    CancelPays(c, accounts, x);
  }

  lemma FillGrows(c: Config, accounts: map<Pubkey, Account>, f: Event)
    requires c.Ok() && f.Fill? && ClaimOk(accounts, ClaimOfFill(f))
    ensures AccountGrows(accounts[f.maker], ExecuteMaker(c, accounts[f.maker], f))
  {
    hide ExecuteMaker;
    MakerIsPaid(c, accounts, f);
  }

  lemma OneSlotFreed(accounts: map<Pubkey, Account>, p: Pubkey, s: nat, a: Account)
    requires p in accounts && s < |accounts[p].slots|
    requires a.slots == accounts[p].slots || a.slots == accounts[p].slots[s := FreeOrder]
    ensures SlotsShrink(accounts, accounts[p := a])
  {
    var accounts' := accounts[p := a];
    forall q, t | InUse(accounts', q, t)
      ensures InUse(accounts, q, t) && accounts'[q].slots[t] == accounts[q].slots[t]
    {
    }
  }

  /** Fewer slots in use hold fewer arrival numbers. */
  lemma SeqsShrink(accounts: map<Pubkey, Account>, accounts': map<Pubkey, Account>, seqNum: int)
    requires SeqsOk(accounts, seqNum) && SlotsShrink(accounts, accounts')
    ensures SeqsOk(accounts', seqNum)
  {
    forall q, t | InUse(accounts', q, t)
      ensures InUse(accounts, q, t) && SlotSeqNum(accounts', q, t) == SlotSeqNum(accounts, q, t)
    {
    }
  }

  lemma CancelSlots(c: Config, a: Account, slot: nat, quantity: int)
    requires slot < |a.slots|
    ensures CancelOrder(c, a, slot, quantity).slots == a.slots[slot := FreeOrder]
  {
  }

  lemma MakerSlots(c: Config, a: Account, f: Event)
    requires f.Fill? && f.makerSlot < |a.slots|
    ensures ExecuteMaker(c, a, f).slots == if f.makerOut then a.slots[f.makerSlot := FreeOrder] else a.slots
  {
  }

  /** A resting order that is taken off the book and cancelled in its owner's account. */
  lemma CancelStep(ex: Exchange, claims: map<ClaimId, Claim>, side: Side, comp: Component, key: nat, dq: int, db: int)
    requires Good(ex, claims, dq, db) && key in ex.orders.Book(side).Get(comp)
    ensures var leaf := ex.orders.Book(side).Get(comp)[key];
            var r := CancelFor(ex.Without(side, comp, key), leaf.owner, leaf.ownerSlot, leaf.quantity);
            && OnBook(side, comp, key) in claims
            && r.Ok? && Good(r.value, claims - {OnBook(side, comp, key)}, dq, db)
            && SameFrame(ex, r.value) && r.value.orders == ex.Without(side, comp, key).orders
  {
    hide *;
    GoodParts(ex, claims, dq, db);
    TallyRemove(ex.orders, claims, side, comp, key);
    RestingHolds(ex.orders, claims);
    var i := OnBook(side, comp, key);
    LeafClaimFields(side, comp, ex.orders.Book(side).Get(comp)[key]);
    var ex' := CancelClaim(ex, claims, i, dq, db);
    WithoutOrders(ex, side, comp, key);
    MakeGood(ex'.(orders := ex.Without(side, comp, key).orders), claims - {i}, dq, db);
    CancelForIs(ex, side, comp, key, claims[i], ex');
  }

  lemma LeafClaimFields(side: Side, comp: Component, leaf: LeafNode)
    ensures var x := LeafClaim(side, comp, leaf);
            x.owner == leaf.owner && x.slot == leaf.ownerSlot && x.quantity == leaf.quantity && x.kind.Resting? && x.HoldsSlot()
  {
  }

  /** Cancelling the order of a claim, apart from taking it off the book. */
  lemma CancelClaim(ex: Exchange, claims: map<ClaimId, Claim>, i: ClaimId, dq: int, db: int) returns (ex': Exchange)
    requires Tagged(ex.accounts, claims) && SeqsOk(ex.accounts, ex.market.seqNum) && Inv(Ledger(ex.market, ex.accounts, claims), dq, db)
    requires i in claims && !claims[i].kind.Matched? && forall k :: k in claims && k.OnBook? ==> claims[k].HoldsSlot()
    ensures var x := claims[i];
            && CancelFor(ex, x.owner, x.slot, x.quantity) == Ok(ex')
            && Tagged(ex'.accounts, claims - {i}) && SeqsOk(ex'.accounts, ex.market.seqNum)
            && Inv(Ledger(ex'.market, ex'.accounts, claims - {i}), dq, db)
            && ex'.market == ex.market && ex'.orders == ex.orders && SlotsShrink(ex.accounts, ex'.accounts)
            && FreeGrows(ex.accounts, ex'.accounts)
  {
    hide Inv, SeqsOk, Tagged, Exclusive, CancelOrder, SlotsShrink, FreeGrows, AccountGrows;
    var x := claims[i];
    InvParts(Ledger(ex.market, ex.accounts, claims), dq, db);
    assert ClaimOk(ex.accounts, x);
    CancelGrows(ex.market.config, ex.accounts, x);
    CancelKeeps(Ledger(ex.market, ex.accounts, claims), i, dq, db);
    var a := CancelOrder(ex.market.config, ex.accounts[x.owner], x.slot, x.quantity);
    CancelSlots(ex.market.config, ex.accounts[x.owner], x.slot, x.quantity);
    TagsWithout(ex.accounts, claims, i);
    TagsFreed(ex.accounts, claims, i, a);
    OneSlotFreed(ex.accounts, x.owner, x.slot, a);
    OneGrows(ex.accounts, x.owner, a);
    SeqsShrink(ex.accounts, ex.accounts[x.owner := a], ex.market.seqNum);
    ex' := ex.WithAccount(x.owner, a);
  }

  lemma WithoutOrders(ex: Exchange, side: Side, comp: Component, key: nat)
    ensures ex.Without(side, comp, key) == ex.(orders := ex.orders.WithBook(side, ex.orders.Book(side).Remove(comp, key)))
  {
  }

  lemma CancelForIs(ex: Exchange, side: Side, comp: Component, key: nat, x: Claim, ex': Exchange)
    requires CancelFor(ex, x.owner, x.slot, x.quantity) == Ok(ex')
    ensures var ex1 := ex.Without(side, comp, key);
            CancelFor(ex1, x.owner, x.slot, x.quantity) == Ok(ex'.(orders := ex1.orders))
    ensures ex'.market == ex.market && SlotsShrink(ex.accounts, ex'.accounts) && FreeGrows(ex.accounts, ex'.accounts) ==>
              SameFrame(ex, ex'.(orders := ex.Without(side, comp, key).orders))
  {
  }

  lemma TagsWithout(accounts: map<Pubkey, Account>, claims: map<ClaimId, Claim>, i: ClaimId)
    requires Tagged(accounts, claims)
    ensures Tagged(accounts, claims - {i})
  {
    forall k | k in claims - {i} && k.OnBook?
      ensures TagOk(accounts, k, (claims - {i})[k])
    {
      assert TagOk(accounts, k, claims[k]);
    }
  }

  lemma TagsWithEvent(accounts: map<Pubkey, Account>, claims: map<ClaimId, Claim>, i: ClaimId, x: Claim)
    requires Tagged(accounts, claims) && !i.OnBook?
    ensures Tagged(accounts, claims[i := x])
  {
    forall k | k in claims[i := x] && k.OnBook?
      ensures TagOk(accounts, k, claims[i := x][k])
    {
      assert TagOk(accounts, k, claims[k]);
    }
  }

  /** A resting order that is taken off the book: cancelled, or left to the heap. It fails only when the heap is full. */
  lemma OutStep(ex: Exchange, claims: map<ClaimId, Claim>, env: Env, side: Side, comp: Component, key: nat, dq: int, db: int)
      returns (claims': map<ClaimId, Claim>)
    requires Good(ex, claims, dq, db) && key in ex.orders.Book(side).Get(comp)
    ensures var leaf := ex.orders.Book(side).Get(comp)[key];
            var r := ProcessOut(ex.Without(side, comp, key), env, OutOf(side, leaf));
            && (r.Err? ==> r.error == HeapFull && ex.orders.heap.IsFull())
            && (r.Ok? ==> Good(r.value, claims', dq, db) && SameFrame(ex, r.value) && SameBooks(ex.Without(side, comp, key), r.value))
  {
    hide *;
    var leaf := ex.orders.Book(side).Get(comp)[key];
    var ex1 := ex.Without(side, comp, key);
    ProcessOutIs(ex1, env, side, leaf);
    WithoutOrders(ex, side, comp, key);
    if (env.hasAccount && env.owner == leaf.owner) || leaf.owner in env.remaining {
      CancelStep(ex, claims, side, comp, key, dq, db);
      claims' := claims - {OnBook(side, comp, key)};
    } else {
      PushEventIs(ex, ex1, OutOf(side, leaf));
      HeapStays(ex, side, comp, key);
      claims' := claims;
      if !ex.orders.heap.IsFull() {
        claims' := PushOutStep(ex, claims, side, comp, key, dq, db);
      }
    }
  }

  /** The books are the same; only the heap may differ. */
  ghost predicate SameBooks(ex: Exchange, ex': Exchange) {
    ex'.orders.bids == ex.orders.bids && ex'.orders.asks == ex.orders.asks
  }

  lemma ProcessOutIs(ex: Exchange, env: Env, side: Side, leaf: LeafNode)
    ensures ProcessOut(ex, env, OutOf(side, leaf)) ==
            if (env.hasAccount && env.owner == leaf.owner) || leaf.owner in env.remaining
            then CancelFor(ex, leaf.owner, leaf.ownerSlot, leaf.quantity) else PushEvent(ex, OutOf(side, leaf))
    ensures forall r: Exchange :: r.orders == ex.orders ==> SameBooks(ex, r)
  {
  }

  lemma HeapStays(ex: Exchange, side: Side, comp: Component, key: nat)
    ensures ex.Without(side, comp, key).orders.heap == ex.orders.heap
  {
  }

  lemma PushEventIs(ex: Exchange, ex1: Exchange, e: Event)
    requires ex1 == ex.(orders := ex1.orders)
    ensures var r := PushEvent(ex1, e);
            && (r.Err? <==> ex1.orders.heap.IsFull()) && (r.Err? ==> r.error == HeapFull)
            && (r.Ok? ==> SameFrame(ex, r.value) && SameBooks(ex1, r.value))
            && (!ex1.orders.heap.IsFull() ==> r == Ok(ex1.(orders := ex1.orders.(heap := ex1.orders.heap.Push(e)))))
  {
  }

  lemma PushOutStep(ex: Exchange, claims: map<ClaimId, Claim>, side: Side, comp: Component, key: nat, dq: int, db: int)
      returns (claims': map<ClaimId, Claim>)
    requires Good(ex, claims, dq, db) && key in ex.orders.Book(side).Get(comp) && !ex.orders.heap.IsFull()
    ensures var leaf := ex.orders.Book(side).Get(comp)[key];
            var r := PushEvent(ex.Without(side, comp, key), OutOf(side, leaf));
            r.Ok? && Good(r.value, claims', dq, db)
  {
    hide *;
    GoodParts(ex, claims, dq, db);
    FreshSlot(ex.orders, claims);
    var i, j := OnBook(side, comp, key), InHeap(ex.orders.heap.free[0]);
    var leaf := ex.orders.Book(side).Get(comp)[key];
    TallyRemove(ex.orders, claims, side, comp, key);
    LeafClaimFields(side, comp, leaf);
    HeapStays(ex, side, comp, key);
    WithoutOrders(ex, side, comp, key);
    var ex1 := ex.Without(side, comp, key);
    var x := claims[i].(kind := TakenOff);
    OutIsClaim(side, comp, leaf);
    TallyPush(ex1.orders, claims - {i}, OutOf(side, leaf), x);
    TakeOffKeeps(Ledger(ex.market, ex.accounts, claims), i, j, dq, db);
    TagsWithout(ex.accounts, claims, i);
    TagsWithEvent(ex.accounts, claims - {i}, j, x);
    TakenOffIs(claims, i, j);
    PushEventIs(ex, ex1, OutOf(side, leaf));
    claims' := (claims - {i})[j := x];
    MakeGood(ex1.(orders := ex1.orders.(heap := ex1.orders.heap.Push(OutOf(side, leaf)))), claims', dq, db);
  }

  lemma TakenOffIs(claims: map<ClaimId, Claim>, i: ClaimId, j: ClaimId)
    requires i in claims
    ensures AfterTakeOff(claims, i, j) == (claims - {i})[j := claims[i].(kind := TakenOff)]
  {
  }

  lemma OutIsClaim(side: Side, comp: Component, leaf: LeafNode)
    ensures EventClaim(OutOf(side, leaf), LeafClaim(side, comp, leaf).(kind := TakenOff))
  {
  }

  lemma FreshSlot(o: Orders, claims: map<ClaimId, Claim>)
    requires Tally(o, claims) && o.heap.Ok() && !o.heap.IsFull()
    ensures o.heap.free != [] && InHeap(o.heap.free[0]) !in claims
  {
    var j := InHeap(o.heap.free[0]);
    assert o.heap.free[0] in o.heap.free;
    assert j in claims ==> Backed(o, j, claims[j]);
  }

  // ---------- a fill ----------

  /** The item shows an order of the book, at the price at which it can be matched. */
  ghost predicate Shown(m: BookSideModel, opp: Side, item: Item) {
    && item.leaf.key in m.Get(item.comp) && m.Get(item.comp)[item.leaf.key] == item.leaf
    && item.price >= 1
    && (item.comp.Fixed? ==> item.price == item.leaf.PriceData())
    && (item.comp.OraclePegged? && item.state.Valid? && opp.Bid? ==> item.price <= item.leaf.pegLimit)
  }

  /** The fill that is sent to the maker is the claim that the match leaves. */
  lemma FillIsClaim(m: BookSideModel, env: Env, side: Side, item: Item, q: int)
    requires BookOk(m) && Shown(m, side.Invert(), item) && item.state.Valid?
    ensures ClaimOfFill(FillFor(env, side, item, q))
         == FillOf(LeafClaim(side.Invert(), item.comp, item.leaf), q, item.price, item.leaf.owner == env.owner)
    ensures FillFor(env, side, item, q).Fill?
    ensures var x := LeafClaim(side.Invert(), item.comp, item.leaf);
            item.price >= 1 && (x.side.Bid? ==> item.price <= x.lock)
  {
    assert if item.comp.Fixed? then FixedOk(item.leaf) else PeggedOk(item.leaf);
  }

  /** The claims on what is left of the order. */
  function RestClaims(claims: map<ClaimId, Claim>, i: ClaimId, q: int): map<ClaimId, Claim>
    requires i in claims
  {
    if q == claims[i].quantity then claims - {i} else claims[i := claims[i].(quantity := claims[i].quantity - q)]
  }

  lemma RestTally(ex: Exchange, claims: map<ClaimId, Claim>, opp: Side, item: Item, q: int)
    requires BooksOk(ex.orders) && Tally(ex.orders, claims) && Shown(ex.orders.Book(opp), opp, item)
    requires 1 <= q <= item.leaf.quantity
    ensures var i := OnBook(opp, item.comp, item.leaf.key);
            var o' := ex.orders.WithBook(opp, MatchedBook(ex.orders.Book(opp), item, q));
            && i in claims && claims[i] == LeafClaim(opp, item.comp, item.leaf)
            && Tally(o', RestClaims(claims, i, q)) && BooksOk(o')
  {
    hide Tally, BooksOk, BookSideModel.Remove, BookSideModel.WithQuantity;
    if q == item.leaf.quantity {
      TallyRemove(ex.orders, claims, opp, item.comp, item.leaf.key);
    } else {
      TallyQuantity(ex.orders, claims, opp, item.comp, item.leaf.key, item.leaf.quantity - q);
    }
  }

  lemma RestTagged(accounts: map<Pubkey, Account>, claims: map<ClaimId, Claim>, i: ClaimId, q: int)
    requires Tagged(accounts, claims) && i in claims
    ensures Tagged(accounts, RestClaims(claims, i, q))
  {
    var rest := RestClaims(claims, i, q);
    forall k | k in rest && k.OnBook?
      ensures TagOk(accounts, k, rest[k])
    {
      assert TagOk(accounts, k, claims[k]);
    }
  }

  lemma RestAndFill(claims: map<ClaimId, Claim>, i: ClaimId, j: ClaimId, q: int, price: int, self: bool)
    requires i in claims && j !in claims
    ensures AfterMatch(claims, i, j, q, price, self) == RestClaims(claims, i, q)[j := FillOf(claims[i], q, price, self)]
    ensures AfterMatch(claims, i, j, q, price, self) - {j} == RestClaims(claims, i, q)
    ensures j !in RestClaims(claims, i, q)
  {
  }

  /** Takes `q` lots of an order off the book and sends the fill to the heap. */
  lemma PushFillStep(ex: Exchange, claims: map<ClaimId, Claim>, env: Env, side: Side, item: Item, q: int, dq: int, db: int)
      returns (claims': map<ClaimId, Claim>)
    requires Good(ex, claims, dq, db) && Shown(ex.orders.Book(side.Invert()), side.Invert(), item) && item.state.Valid?
    requires 1 <= q <= item.leaf.quantity && !ex.orders.heap.IsFull()
    ensures var c, opp := ex.market.config, side.Invert();
            var ex1 := AfterMatched(ex, opp, item, q);
            var r := PushEvent(ex1, FillFor(env, side, item, q));
            r.Ok? && Good(r.value, claims', dq + DueQuote(c, opp, q, item.price, item.leaf.owner == env.owner), db + DueBase(c, opp, q))
  {
    hide *;
    var opp, self := side.Invert(), item.leaf.owner == env.owner;
    GoodParts(ex, claims, dq, db);
    FreshSlot(ex.orders, claims);
    FillIsClaim(ex.orders.Book(opp), env, side, item, q) by { BookOf(ex.orders, opp); }
    RestTally(ex, claims, opp, item, q);
    var i, j := OnBook(opp, item.comp, item.leaf.key), InHeap(ex.orders.heap.free[0]);
    var f := FillFor(env, side, item, q);
    var rest, x := RestClaims(claims, i, q), ClaimOfFill(f);
    var ex1 := AfterMatched(ex, opp, item, q);
    MatchedOrders(ex, opp, item, q);
    TallyPush(ex1.orders, rest, f, x) by { FillEventClaim(f); }
    RestAndFill(claims, i, j, q, item.price, self);
    MatchableClaim(opp, item);
    MatchKeeps(Ledger(ex.market, ex.accounts, claims), i, j, q, item.price, self, dq, db);
    RestTagged(ex.accounts, claims, i, q);
    TagsWithEvent(ex.accounts, rest, j, x);
    claims' := rest[j := x];
    PushEventIs(ex, ex1, f);
    MakeGood(ex1.(orders := ex1.orders.(heap := ex1.orders.heap.Push(f))), claims',
             dq + DueQuote(ex.market.config, opp, q, item.price, self), db + DueBase(ex.market.config, opp, q));
  }

  lemma BookOf(o: Orders, side: Side)
    requires BooksOk(o)
    ensures BookOk(o.Book(side))
  {
  }

  lemma FillEventClaim(f: Event)
    requires f.Fill?
    ensures EventClaim(f, ClaimOfFill(f))
  {
  }

  /** The order on the opposing book after `q` lots are matched. */
  function AfterMatched(ex: Exchange, opp: Side, item: Item, q: int): Exchange {
    ex.(orders := ex.orders.WithBook(opp, MatchedBook(ex.orders.Book(opp), item, q)))
  }

  lemma MatchedOrders(ex: Exchange, opp: Side, item: Item, q: int)
    ensures var ex1 := AfterMatched(ex, opp, item, q);
            && ex1.market == ex.market && ex1.accounts == ex.accounts && ex1.orders.heap == ex.orders.heap
            && ex1.orders == ex.orders.WithBook(opp, MatchedBook(ex.orders.Book(opp), item, q))
            && ex1 == ex.(orders := ex1.orders)
  {
  }

  lemma MatchableClaim(opp: Side, item: Item)
    ensures var x := LeafClaim(opp, item.comp, item.leaf);
            x.kind.Resting? && x.quantity == item.leaf.quantity && x.side == opp && x.owner == item.leaf.owner
  {
  }

  /** Takes `q` lots of an order off the book and credits its maker at once. */
  lemma DirectFillStep(ex: Exchange, claims: map<ClaimId, Claim>, env: Env, side: Side, item: Item, q: int, dq: int, db: int)
      returns (claims': map<ClaimId, Claim>)
    requires Good(ex, claims, dq, db) && Shown(ex.orders.Book(side.Invert()), side.Invert(), item) && item.state.Valid?
    requires 1 <= q <= item.leaf.quantity
    ensures var c, opp := ex.market.config, side.Invert();
            var ex1 := AfterMatched(ex, opp, item, q);
            var r := HandleFill(ex1, FillFor(env, side, item, q));
            && r.Ok? && r.value.orders == ex1.orders && SameFrame(ex, r.value)
            && Good(r.value, claims', dq + DueQuote(c, opp, q, item.price, item.leaf.owner == env.owner), db + DueBase(c, opp, q))
  {
    hide *;
    var opp, self, c := side.Invert(), item.leaf.owner == env.owner, ex.market.config;
    GoodParts(ex, claims, dq, db);
    NotAtOnce(ex.orders, claims);
    FillIsClaim(ex.orders.Book(opp), env, side, item, q) by { BookOf(ex.orders, opp); }
    RestTally(ex, claims, opp, item, q);
    var i := OnBook(opp, item.comp, item.leaf.key);
    var f := FillFor(env, side, item, q);
    claims' := RestClaims(claims, i, q);
    RestAndFill(claims, i, AtOnce, q, item.price, self);
    MatchableClaim(opp, item);
    MatchKeeps(Ledger(ex.market, ex.accounts, claims), i, AtOnce, q, item.price, self, dq, db);
    var mid := AfterMatch(claims, i, AtOnce, q, item.price, self);
    var dq', db' := dq + DueQuote(c, opp, q, item.price, self), db + DueBase(c, opp, q);
    RestTagged(ex.accounts, claims, i, q);
    RestRests(ex.orders, claims, i, q);
    HandleFillStep(ex.market, ex.accounts, mid, AtOnce, f, dq', db');
    var ex1 := AfterMatched(ex, opp, item, q);
    MatchedOrders(ex, opp, item, q);
    HandleFillIs(ex, ex1, f);
    MakeGood(HandleFill(ex1, f).value, claims', dq', db');
  }

  lemma HandleFillIs(ex: Exchange, ex1: Exchange, f: Event)
    requires ex1 == ex.(orders := ex1.orders) && f.Fill?
    requires f.maker in ex.accounts && f.makerSlot < |ex.accounts[f.maker].slots|
    requires f.makerOut ==> !ex.accounts[f.maker].slots[f.makerSlot].isFree
    requires AccountGrows(ex.accounts[f.maker], ExecuteMaker(ex.market.config, ex.accounts[f.maker], f))
    ensures var r := HandleFill(ex1, f);
            && r.Ok? && r.value.orders == ex1.orders && SameFrame(ex, r.value)
            && r.value == Exchange(ex.market.(referrerRebatesAccrued :=
                                     ex.market.referrerRebatesAccrued + AmountsOfFill(ex.market.config, f).makerFees),
                                   ex.accounts[f.maker := ExecuteMaker(ex.market.config, ex.accounts[f.maker], f)], ex1.orders)
  {
    hide ExecuteMaker, AmountsOfFill, SlotsShrink, FreeGrows, AccountGrows;
    MakerSlots(ex.market.config, ex.accounts[f.maker], f);
    OneSlotFreed(ex.accounts, f.maker, f.makerSlot, ExecuteMaker(ex.market.config, ex.accounts[f.maker], f));
    OneGrows(ex.accounts, f.maker, ExecuteMaker(ex.market.config, ex.accounts[f.maker], f));
  }

  lemma RestRests(o: Orders, claims: map<ClaimId, Claim>, i: ClaimId, q: int)
    requires Tally(o, claims) && i in claims
    ensures forall k :: k in RestClaims(claims, i, q) && k.OnBook? ==> RestClaims(claims, i, q)[k].HoldsSlot()
  {
    RestingHolds(o, claims);
  }

  /** Crediting the maker of a fill keeps the accounts, their slots and the ledger in order. */
  lemma HandleFillStep(market: Market, accounts: map<Pubkey, Account>, claims: map<ClaimId, Claim>, i: ClaimId, f: Event, dq: int, db: int)
    requires Inv(Ledger(market, accounts, claims), dq, db) && i in claims && f.Fill? && claims[i] == ClaimOfFill(f) && !i.OnBook?
    requires Tagged(accounts, claims - {i}) && SeqsOk(accounts, market.seqNum)
    requires forall k :: k in claims - {i} && k.OnBook? ==> claims[k].HoldsSlot()
    ensures f.maker in accounts && f.makerSlot < |accounts[f.maker].slots|
    ensures f.makerOut ==> !accounts[f.maker].slots[f.makerSlot].isFree
    ensures AccountGrows(accounts[f.maker], ExecuteMaker(market.config, accounts[f.maker], f))
    ensures var a := ExecuteMaker(market.config, accounts[f.maker], f);
            var accounts' := accounts[f.maker := a];
            && Inv(Ledger(market.(referrerRebatesAccrued :=
                     market.referrerRebatesAccrued + AmountsOfFill(market.config, f).makerFees), accounts', claims - {i}), dq, db)
            && Tagged(accounts', claims - {i}) && SeqsOk(accounts', market.seqNum)
  {
    hide *;
    var l := Ledger(market, accounts, claims);
    InvParts(l, dq, db);
    FillKeeps(l, i, f, dq, db);
    FillClaim(accounts, claims, i, f);
    FillGrows(market.config, accounts, f);
    var a := ExecuteMaker(market.config, accounts[f.maker], f);
    MakerSlots(market.config, accounts[f.maker], f);
    TagsFreed(accounts, claims, i, a);
    OneSlotFreed(accounts, f.maker, f.makerSlot, a);
    SeqsShrink(accounts, accounts[f.maker := a], market.seqNum);
  }

  lemma FillClaim(accounts: map<Pubkey, Account>, claims: map<ClaimId, Claim>, i: ClaimId, f: Event)
    requires ClaimsOk(accounts, claims) && i in claims && f.Fill? && claims[i] == ClaimOfFill(f)
    ensures ClaimOk(accounts, ClaimOfFill(f)) && claims[i].owner == f.maker && claims[i].slot == f.makerSlot
    ensures f.makerSlot < |accounts[f.maker].slots| && (claims[i].HoldsSlot() <==> f.makerOut)
  {
    assert ClaimOk(accounts, claims[i]);
  }
}
