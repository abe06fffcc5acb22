/** What holds of the market between instructions: books, heap, accounts and vault totals agree. */
module ExchangeInvariants {
  import opened Types
  import opened Keys
  import opened Prices
  import opened Accounts
  import opened Ledgers
  import opened BookSideModels
  import opened EventHeaps
  import opened Exchanges

  // ---------- the claims are those of the books and the heap ----------

  /** The price at which a resting bid locked its funds. */
  function LockOf(comp: Component, leaf: LeafNode): int { if comp.Fixed? then leaf.PriceData() else leaf.pegLimit }

  function LeafClaim(side: Side, comp: Component, leaf: LeafNode): Claim { RestingClaim(side, leaf, LockOf(comp, leaf)) }

  /** An event on the heap stands for the claim; an out event does not tell the lock price, its slot does. */
  predicate EventClaim(e: Event, x: Claim) {
    if e.Fill? then x == ClaimOfFill(e)
    else x.owner == e.owner && x.slot == e.ownerSlot && x.side == e.side && x.quantity == e.quantity && x.kind.TakenOff?
  }

  ghost predicate Backed(o: Orders, i: ClaimId, x: Claim) {
    match i
    case OnBook(side, comp, key) =>
      key in o.Book(side).Get(comp) && x == LeafClaim(side, comp, o.Book(side).Get(comp)[key])
    case InHeap(slot) => slot in o.heap.pending && EventClaim(o.heap.pending[slot], x)
    case AtOnce => false
  }

  /** There is exactly one claim for every resting order and every pending event. */
  ghost predicate Tally(o: Orders, claims: map<ClaimId, Claim>) {
    && (forall i :: i in claims ==> Backed(o, i, claims[i]))
    && (forall side, comp, key :: key in o.Book(side).Get(comp) ==> OnBook(side, comp, key) in claims)
    && (forall slot :: slot in o.heap.pending ==> InHeap(slot) in claims)
  }

  /** The slot of a resting order holds its key and tree. */
  ghost predicate Tagged(accounts: map<Pubkey, Account>, claims: map<ClaimId, Claim>) {
    forall i :: i in claims && i.OnBook? ==> TagOk(accounts, i, claims[i])
  }

  predicate TagOk(accounts: map<Pubkey, Account>, i: ClaimId, x: Claim)
    requires i.OnBook?
  {
    && x.owner in accounts && x.slot < |accounts[x.owner].slots|
    && var oo := accounts[x.owner].slots[x.slot]; !oo.isFree && oo.side == i.side && oo.comp == i.comp && oo.id == i.key
  }

  predicate InUse(accounts: map<Pubkey, Account>, p: Pubkey, s: int) {
    p in accounts && 0 <= s < |accounts[p].slots| && !accounts[p].slots[s].isFree
  }

  function SlotSeqNum(accounts: map<Pubkey, Account>, p: Pubkey, s: int): int
    requires InUse(accounts, p, s)
  {
    SeqNumOf(accounts[p].slots[s].side, accounts[p].slots[s].id)
  }

  /** Keys are 128 bits wide. */
  ghost predicate IdsInRange(accounts: map<Pubkey, Account>) {
    forall p, s :: InUse(accounts, p, s) ==> accounts[p].slots[s].id < KEY_SIZE
  }

  /** Slots in use hold keys with different arrival numbers, all of them already given out. */
  ghost predicate SeqsOk(accounts: map<Pubkey, Account>, seqNum: int) {
    && IdsInRange(accounts)
    && (forall p, s :: InUse(accounts, p, s) ==> SlotSeqNum(accounts, p, s) <= seqNum)
    && (forall p, s, q, t :: InUse(accounts, p, s) && InUse(accounts, q, t) && (p != q || s != t) ==>
          SlotSeqNum(accounts, p, s) != SlotSeqNum(accounts, q, t))
  }

  ghost predicate BooksOk(o: Orders) { BookOk(o.bids) && BookOk(o.asks) && o.heap.Ok() }

  /** The invariant, with what the current instruction still has to bring in. */
  ghost predicate Good(ex: Exchange, claims: map<ClaimId, Claim>, dueQuote: int, dueBase: int) {
    && ex.market.seqNum >= 0
    && BooksOk(ex.orders)
    && Tally(ex.orders, claims)
    && Tagged(ex.accounts, claims)
    && SeqsOk(ex.accounts, ex.market.seqNum)
    && Inv(Ledger(ex.market, ex.accounts, claims), dueQuote, dueBase)
  }

  // ---------- changes to the books and the heap ----------

  lemma BookRemove(m: BookSideModel, comp: Component, key: nat)
    requires BookOk(m)
    ensures BookOk(m.Remove(comp, key))
  {
    assert |m.fixed - {key}| <= |m.fixed| && |m.pegged - {key}| <= |m.pegged|;
  }

  lemma BookWithQuantity(m: BookSideModel, comp: Component, key: nat, quantity: int)
    requires BookOk(m) && key in m.Get(comp) && quantity >= 1
    ensures BookOk(m.WithQuantity(comp, key, quantity))
  {
    assert |m.Get(comp)[key := m.Get(comp)[key].(quantity := quantity)]| == |m.Get(comp)|;
  }

  lemma BookInsert(m: BookSideModel, comp: Component, leaf: LeafNode)
    requires BookOk(m) && leaf.key !in m.Get(comp) && m.Insert(comp, leaf).Ok?
    requires if comp.Fixed? then FixedOk(leaf) else PeggedOk(leaf)
    ensures BookOk(m.Insert(comp, leaf).value)
    ensures m.Insert(comp, leaf).value.Get(comp) == m.Get(comp)[leaf.key := leaf]
    ensures m.Insert(comp, leaf).value.Get(comp.Other()) == m.Get(comp.Other())
  {
    assert |m.Get(comp)[leaf.key := leaf]| == |m.Get(comp)| + 1;
  }

  function Replaced(orders: map<nat, LeafNode>, key: nat, leaf: Option<LeafNode>): map<nat, LeafNode> {
    if leaf.Some? then orders[key := leaf.value] else orders - {key}
  }

  function ReplacedClaim(claims: map<ClaimId, Claim>, i: ClaimId, x: Option<Claim>): map<ClaimId, Claim> {
    if x.Some? then claims[i := x.value] else claims - {i}
  }

  function LeafClaimOpt(side: Side, comp: Component, leaf: Option<LeafNode>): Option<Claim> {
    if leaf.Some? then Some(LeafClaim(side, comp, leaf.value)) else None
  }

  ghost predicate OnlyDiffersAt(o: Orders, o': Orders, side: Side, comp: Component, key: nat, leaf: Option<LeafNode>) {
    && o'.heap == o.heap
    && o'.Book(side).Get(comp) == Replaced(o.Book(side).Get(comp), key, leaf)
    && (forall s, c :: s != side || c != comp ==> o'.Book(s).Get(c) == o.Book(s).Get(c))
  }

  /** One order of one tree is put, replaced or removed. */
  lemma Retally(o: Orders, o': Orders, claims: map<ClaimId, Claim>, side: Side, comp: Component, key: nat, leaf: Option<LeafNode>)
    requires Tally(o, claims) && OnlyDiffersAt(o, o', side, comp, key, leaf)
    ensures Tally(o', ReplacedClaim(claims, OnBook(side, comp, key), LeafClaimOpt(side, comp, leaf)))
    ensures key in o.Book(side).Get(comp) <==> OnBook(side, comp, key) in claims
    ensures key in o.Book(side).Get(comp) ==>
              claims[OnBook(side, comp, key)] == LeafClaim(side, comp, o.Book(side).Get(comp)[key])
  {
    hide Orders.Book, BookSideModel.Get, LeafClaim, EventClaim;
    var j := OnBook(side, comp, key);
    assert j in claims ==> Backed(o, j, claims[j]);
    var claims' := ReplacedClaim(claims, j, LeafClaimOpt(side, comp, leaf));
    forall i | i in claims'
      ensures Backed(o', i, claims'[i])
    {
      assert i in claims ==> Backed(o, i, claims[i]);
    }
    hide Backed;
    forall s, c, k | k in o'.Book(s).Get(c)
      ensures OnBook(s, c, k) in claims'
    {
      if s == side && c == comp {
        assert k == key || k in o.Book(s).Get(c);
      } else {
        assert k in o.Book(s).Get(c);
      }
    }
  }

  lemma WithBookDiffers(o: Orders, side: Side, comp: Component, m: BookSideModel, key: nat, leaf: Option<LeafNode>)
    requires m.Get(comp) == Replaced(o.Book(side).Get(comp), key, leaf)
    requires m.Get(comp.Other()) == o.Book(side).Get(comp.Other())
    ensures OnlyDiffersAt(o, o.WithBook(side, m), side, comp, key, leaf)
  {
  }

  lemma RemoveDiffers(o: Orders, side: Side, comp: Component, key: nat)
    ensures OnlyDiffersAt(o, o.WithBook(side, o.Book(side).Remove(comp, key)), side, comp, key, None)
  {
    WithBookDiffers(o, side, comp, o.Book(side).Remove(comp, key), key, None);
  }

  lemma TallyRemove(o: Orders, claims: map<ClaimId, Claim>, side: Side, comp: Component, key: nat)
    requires Tally(o, claims) && BooksOk(o) && key in o.Book(side).Get(comp)
    ensures OnBook(side, comp, key) in claims
    ensures claims[OnBook(side, comp, key)] == LeafClaim(side, comp, o.Book(side).Get(comp)[key])
    ensures var o' := o.WithBook(side, o.Book(side).Remove(comp, key));
            Tally(o', claims - {OnBook(side, comp, key)}) && BooksOk(o')
  {
    hide BookOk, OnlyDiffersAt, Tally, LeafClaim, HeapModel.Ok, BookSideModel.Remove;
    BookRemove(o.Book(side), comp, key);
    RemoveDiffers(o, side, comp, key);
    Retally(o, o.WithBook(side, o.Book(side).Remove(comp, key)), claims, side, comp, key, None);
  }

  lemma TallyQuantity(o: Orders, claims: map<ClaimId, Claim>, side: Side, comp: Component, key: nat, quantity: int)
    requires Tally(o, claims) && BooksOk(o) && key in o.Book(side).Get(comp) && quantity >= 1
    ensures var i := OnBook(side, comp, key);
            var o' := o.WithBook(side, o.Book(side).WithQuantity(comp, key, quantity));
            && i in claims && claims[i] == LeafClaim(side, comp, o.Book(side).Get(comp)[key])
            && Tally(o', claims[i := claims[i].(quantity := quantity)]) && BooksOk(o')
  {
    var leaf := o.Book(side).Get(comp)[key].(quantity := quantity);
    hide BookOk, OnlyDiffersAt, Tally, LeafClaim, HeapModel.Ok, BookSideModel.WithQuantity;
    BookWithQuantity(o.Book(side), comp, key, quantity);
    QuantityDiffers(o, side, comp, key, quantity);
    QuantityClaim(side, comp, o.Book(side).Get(comp)[key], quantity);
    Retally(o, o.WithBook(side, o.Book(side).WithQuantity(comp, key, quantity)), claims, side, comp, key, Some(leaf));
  }

  lemma QuantityDiffers(o: Orders, side: Side, comp: Component, key: nat, quantity: int)
    requires key in o.Book(side).Get(comp)
    ensures OnlyDiffersAt(o, o.WithBook(side, o.Book(side).WithQuantity(comp, key, quantity)), side, comp, key,
                          Some(o.Book(side).Get(comp)[key].(quantity := quantity)))
  {
    WithBookDiffers(o, side, comp, o.Book(side).WithQuantity(comp, key, quantity), key,
                    Some(o.Book(side).Get(comp)[key].(quantity := quantity)));
    hide OnlyDiffersAt;
  }

  lemma QuantityClaim(side: Side, comp: Component, leaf: LeafNode, quantity: int)
    ensures LeafClaim(side, comp, leaf.(quantity := quantity)) == LeafClaim(side, comp, leaf).(quantity := quantity)
  {
  }

  lemma TallyInsert(o: Orders, claims: map<ClaimId, Claim>, side: Side, comp: Component, leaf: LeafNode)
    requires Tally(o, claims) && BooksOk(o) && leaf.key !in o.Book(side).Get(comp)
    requires o.Book(side).Insert(comp, leaf).Ok? && (if comp.Fixed? then FixedOk(leaf) else PeggedOk(leaf))
    ensures var i := OnBook(side, comp, leaf.key);
            var o' := o.WithBook(side, o.Book(side).Insert(comp, leaf).value);
            i !in claims && Tally(o', claims[i := LeafClaim(side, comp, leaf)]) && BooksOk(o')
  {
    BookInsert(o.Book(side), comp, leaf);
    var m := o.Book(side).Insert(comp, leaf).value;
    WithBookDiffers(o, side, comp, m, leaf.key, Some(leaf));
    hide BookOk, OnlyDiffersAt, Tally, LeafClaim, BookSideModel.Insert;
    Retally(o, o.WithBook(side, m), claims, side, comp, leaf.key, Some(leaf));
  }

  /** Only the heap changes, at one slot. */
  ghost predicate OnlyHeapDiffersAt(o: Orders, o': Orders, slot: nat, e: Option<Event>) {
    && o'.bids == o.bids && o'.asks == o.asks
    && o'.heap.pending == if e.Some? then o.heap.pending[slot := e.value] else o.heap.pending - {slot}
  }

  /** One event is put or removed. */
  lemma RetallyHeap(o: Orders, o': Orders, claims: map<ClaimId, Claim>, slot: nat, e: Option<Event>, x: Option<Claim>)
    requires Tally(o, claims) && OnlyHeapDiffersAt(o, o', slot, e)
    requires e.Some? <==> x.Some?
    requires e.Some? ==> EventClaim(e.value, x.value)
    ensures Tally(o', ReplacedClaim(claims, InHeap(slot), x))
    ensures slot in o.heap.pending <==> InHeap(slot) in claims
  {
    assert forall side :: o'.Book(side) == o.Book(side);
    hide Orders.Book, BookSideModel.Get, LeafClaim, EventClaim;
    var j := InHeap(slot);
    assert j in claims ==> Backed(o, j, claims[j]);
    var claims' := ReplacedClaim(claims, j, x);
    forall i | i in claims'
      ensures Backed(o', i, claims'[i])
    {
      assert i in claims ==> Backed(o, i, claims[i]);
    }
  }

  lemma TallyPush(o: Orders, claims: map<ClaimId, Claim>, e: Event, x: Claim)
    requires Tally(o, claims) && BooksOk(o) && !o.heap.IsFull() && EventClaim(e, x)
    ensures var i := InHeap(o.heap.free[0]);
            var o' := o.(heap := o.heap.Push(e));
            i !in claims && Tally(o', claims[i := x]) && BooksOk(o')
  {
    PushOk(o.heap, e);
    FreeIsNotPending(o.heap);
    hide BookOk, Tally, EventClaim, HeapModel.Ok;
    RetallyHeap(o, o.(heap := o.heap.Push(e)), claims, o.heap.free[0], Some(e), Some(x));
  }

  lemma FreeIsNotPending(heap: HeapModel)
    requires heap.Ok() && !heap.IsFull()
    ensures heap.free[0] !in heap.pending
  {
    HeadIsIn(heap.free);
  }

  lemma TallyDelete(o: Orders, claims: map<ClaimId, Claim>, slot: nat)
    requires Tally(o, claims) && BooksOk(o) && slot in o.heap.pending
    ensures var o' := o.(heap := o.heap.Delete(slot));
            InHeap(slot) in claims && Tally(o', claims - {InHeap(slot)}) && BooksOk(o')
  {
    DeleteOk(o.heap, slot);
    hide BookOk, Tally, HeapModel.Ok;
    RetallyHeap(o, o.(heap := o.heap.Delete(slot)), claims, slot, None, None);
  }

  /** No claim is handled at once between the steps. */
  lemma NotAtOnce(o: Orders, claims: map<ClaimId, Claim>)
    requires Tally(o, claims)
    ensures AtOnce !in claims
  {
    assert AtOnce in claims ==> Backed(o, AtOnce, claims[AtOnce]);
  }

  // ---------- changes to slots ----------

  /** Freeing the slot of a claim that goes disturbs no other resting order. */
  lemma TagsFreed(accounts: map<Pubkey, Account>, claims: map<ClaimId, Claim>, i: ClaimId, a: Account)
    requires Tagged(accounts, claims - {i}) && Exclusive(claims) && i in claims && claims[i].owner in accounts
    requires forall k :: k in claims && k.OnBook? ==> claims[k].HoldsSlot()
    requires var x := claims[i];
             var was := accounts[x.owner];
             && x.slot < |was.slots|
             && a.slots == if x.HoldsSlot() then was.slots[x.slot := FreeOrder] else was.slots
    ensures Tagged(accounts[claims[i].owner := a], claims - {i})
  {
    forall k | k in claims - {i} && k.OnBook?
      ensures TagOk(accounts[claims[i].owner := a], k, claims[k])
    {
      assert TagOk(accounts, k, (claims - {i})[k]);
    }
  }

  /** A resting order holds its slot. */
  lemma RestingHolds(o: Orders, claims: map<ClaimId, Claim>)
    requires Tally(o, claims)
    ensures forall k :: k in claims && k.OnBook? ==> claims[k].kind.Resting? && claims[k].HoldsSlot()
  {
    forall k | k in claims && k.OnBook?
      ensures claims[k].kind.Resting? && claims[k].HoldsSlot()
    {
      assert Backed(o, k, claims[k]);
    }
  }

  lemma GoodParts(ex: Exchange, claims: map<ClaimId, Claim>, dq: int, db: int)
    requires Good(ex, claims, dq, db)
    ensures ex.market.seqNum >= 0 && BooksOk(ex.orders) && Tally(ex.orders, claims) && Tagged(ex.accounts, claims)
    ensures SeqsOk(ex.accounts, ex.market.seqNum) && Inv(Ledger(ex.market, ex.accounts, claims), dq, db)
    ensures ex.market.config.Ok() && Exclusive(claims)
    ensures BookOk(ex.orders.bids) && BookOk(ex.orders.asks) && ex.orders.heap.Ok()
  {
  }

  lemma MakeGood(ex: Exchange, claims: map<ClaimId, Claim>, dq: int, db: int)
    requires ex.market.seqNum >= 0 && BooksOk(ex.orders) && Tally(ex.orders, claims) && Tagged(ex.accounts, claims)
    requires SeqsOk(ex.accounts, ex.market.seqNum) && Inv(Ledger(ex.market, ex.accounts, claims), dq, db)
    ensures Good(ex, claims, dq, db)
  {
  }
}
