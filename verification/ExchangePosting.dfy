/** Posting the rest of an order keeps the invariant, and every order gets a key of its own. */
module ExchangePosting {
  import opened Types
  import opened Keys
  import opened Prices
  import opened Markets
  import opened Accounts
  import opened Ledgers
  import opened BookSideModels
  import opened EventHeaps
  import opened Posting
  import opened Exchanges
  import opened ExchangeInvariants
  import opened ExchangeSteps
  import opened ExchangeActions

  // ---------- making room ----------

  lemma ExpiredIsListed(m: BookSideModel, comp: Component, now: int)
    requires BookOk(m)
    ensures var from := ExpiredComponent(m, comp, now);
            var x := ExpiredOrder(m.Get(from), now);
            x.Some? ==> x.value.key in m.Get(from) && m.Get(from)[x.value.key] == x.value
                        && (now <= U64_MAX ==> x.value.IsExpired(now))
  {
    var from := ExpiredComponent(m, comp, now);
    var x := ExpiredOrder(m.Get(from), now);
    if x.Some? {
      var k :| k in m.Get(from) && m.Get(from)[k] == x.value;
      assert if from.Fixed? then FixedOk(m.fixed[k]) else PeggedOk(m.pegged[k]);
    }
  }

  lemma WorstIsListed(m: BookSideModel, side: Side, now: int, oracle: Option<int>)
    requires BookOk(m)
    ensures var x := WorstItem(m, side, now, oracle);
            x.Some? ==> x.value.leaf.key in m.Get(x.value.comp) && m.Get(x.value.comp)[x.value.leaf.key] == x.value.leaf
  {
  }

  lemma ExpiredStep(ex: Exchange, claims: map<ClaimId, Claim>, env: Env, side: Side, comp: Component, dq: int, db: int)
      returns (claims': map<ClaimId, Claim>)
    requires Good(ex, claims, dq, db)
    ensures var r := EvictExpired(ex, env, side, comp);
            && (r.Err? ==> r.error == HeapFull)
            && (r.Ok? ==> Good(r.value, claims', dq, db) && SameFrame(ex, r.value))
  {
    hide *;
    GoodParts(ex, claims, dq, db);
    var m := ex.orders.Book(side);
    ExpiredIsListed(m, comp, env.now) by { BookOf(ex.orders, side); }
    EvictExpiredIs(ex, env, side, comp);
    claims' := claims;
    SameFrameReflexive(ex);
    var from := ExpiredComponent(m, comp, env.now);
    var x := ExpiredOrder(m.Get(from), env.now);
    if x.Some? {
      claims' := OutStep(ex, claims, env, side, from, x.value.key, dq, db);
    }
  }

  lemma EvictExpiredIs(ex: Exchange, env: Env, side: Side, comp: Component)
    ensures var from := ExpiredComponent(ex.orders.Book(side), comp, env.now);
            var x := ExpiredOrder(ex.orders.Book(side).Get(from), env.now);
            && OutOf(side, if x.Some? then x.value else LeafNode(0, 0, 0, env.owner, 0, 0, 0, 0)).Out?
            && EvictExpired(ex, env, side, comp)
               == if x.None? then Ok(ex) else ProcessOut(ex.Without(side, from, x.value.key), env, OutOf(side, x.value))
  {
  }

  lemma EvictWorstIs(ex: Exchange, env: Env, side: Side, priceLots: int)
    ensures var m := ex.orders.Book(side);
            var x := WorstItem(m, side, env.now, env.oracle);
            var r := EvictWorst(ex, env, side, priceLots);
            if !m.IsFull() then r == Ok(ex)
            else if x.None? || !side.IsPriceBetter(priceLots, x.value.price) then r == Err(SomeError)
            else
              var e := OutOf(side, x.value.leaf);
              e.Out? && r == ProcessOut(ex.Without(side, x.value.comp, x.value.leaf.key), env, e)
  {
  }

  lemma WorstStep(ex: Exchange, claims: map<ClaimId, Claim>, env: Env, side: Side, priceLots: int, dq: int, db: int)
      returns (claims': map<ClaimId, Claim>)
    requires Good(ex, claims, dq, db)
    ensures var r := EvictWorst(ex, env, side, priceLots);
            && (r.Err? ==> r.error == HeapFull || (r.error == SomeError && ex.orders.Book(side).IsFull()))
            && (r.Ok? ==> Good(r.value, claims', dq, db) && SameFrame(ex, r.value))
  {
    hide *;
    GoodParts(ex, claims, dq, db);
    var m := ex.orders.Book(side);
    WorstIsListed(m, side, env.now, env.oracle) by { BookOf(ex.orders, side); }
    EvictWorstIs(ex, env, side, priceLots);
    claims' := claims;
    SameFrameReflexive(ex);
    var x := WorstItem(m, side, env.now, env.oracle);
    if m.IsFull() && x.Some? && side.IsPriceBetter(priceLots, x.value.price) {
      claims' := OutStep(ex, claims, env, side, x.value.comp, x.value.leaf.key, dq, db);
    }
  }

  // ---------- entering ----------

  /** A key with an arrival number that no slot holds is not on the book. */
  lemma KeyIsFresh(ex: Exchange, claims: map<ClaimId, Claim>, side: Side, comp: Component, key: nat)
    requires Tally(ex.orders, claims) && Tagged(ex.accounts, claims)
    requires SeqsOk(ex.accounts, SeqNumOf(side, key) - 1)
    ensures key !in ex.orders.Book(side).Get(comp)
  {
    var i := OnBook(side, comp, key);
    assert i in claims ==> TagOk(ex.accounts, i, claims[i]);
    assert i in claims ==> InUse(ex.accounts, claims[i].owner, claims[i].slot);
  }

  lemma TagEntered(accounts: map<Pubkey, Account>, claims: map<ClaimId, Claim>, i: ClaimId, x: Claim, a: Account)
    requires Tagged(accounts, claims) && x.owner in accounts && i.OnBook?
    requires var was := accounts[x.owner]; x.slot < |was.slots| && was.slots[x.slot].isFree
    requires |a.slots| == |accounts[x.owner].slots|
    requires forall s :: 0 <= s < |a.slots| && s != x.slot ==> a.slots[s] == accounts[x.owner].slots[s]
    requires var oo := a.slots[x.slot]; !oo.isFree && oo.side == i.side && oo.comp == i.comp && oo.id == i.key
    ensures Tagged(accounts[x.owner := a], claims[i := x])
  {
    forall k | k in claims[i := x] && k.OnBook?
      ensures TagOk(accounts[x.owner := a], k, claims[i := x][k])
    {
      if k != i { assert TagOk(accounts, k, claims[k]); }
    }
  }

  lemma SeqEntered(accounts: map<Pubkey, Account>, p: Pubkey, s: nat, a: Account, seqNum: int)
    requires SeqsOk(accounts, seqNum - 1) && p in accounts && |a.slots| == |accounts[p].slots| && s < |a.slots|
    requires accounts[p].slots[s].isFree && !a.slots[s].isFree && SeqNumOf(a.slots[s].side, a.slots[s].id) == seqNum
    requires a.slots[s].id < KEY_SIZE
    requires forall t :: 0 <= t < |a.slots| && t != s ==> a.slots[t] == accounts[p].slots[t]
    ensures SeqsOk(accounts[p := a], seqNum)
  {
    var accounts' := accounts[p := a];
    forall q, t | InUse(accounts', q, t) && (q != p || t != s)
      ensures InUse(accounts, q, t) && SlotSeqNum(accounts', q, t) == SlotSeqNum(accounts, q, t)
    {
    }
  }

  /** The new slot of the owner, once the order is posted. */
  lemma PostedSlots(c: Config, a: Account, side: Side, comp: Component, leaf: LeafNode, lock: int)
    requires leaf.ownerSlot < |a.slots|
    ensures Posted(c, a, side, comp, leaf, lock).slots
         == a.slots[leaf.ownerSlot := OpenOrder(false, side, comp, leaf.key, leaf.clientOrderId, lock)]
    ensures AccountGrows(a, Posted(c, a, side, comp, leaf, lock))
  {
  }

  predicate LeafOk(comp: Component, leaf: LeafNode) { if comp.Fixed? then FixedOk(leaf) else PeggedOk(leaf) }

  lemma EnterStep(ex: Exchange, claims: map<ClaimId, Claim>, env: Env, o: Order, comp: Component, lock: int, key: nat,
                  quantity: int, dq: int, db: int)
      returns (claims': map<ClaimId, Claim>)
    requires Good(ex, claims, dq, db) && env.owner in ex.accounts
    requires SeqsOk(ex.accounts, SeqNumOf(o.side, key) - 1) && SeqNumOf(o.side, key) == ex.market.seqNum
    requires forall slot :: LeafOk(comp, LeafFor(env, o, slot, key, quantity))
    requires forall slot :: LockOf(comp, LeafFor(env, o, slot, key, quantity)) == lock || o.side.Ask?
    requires o.side.Bid? ==> lock >= 1
    ensures var c, leaf := ex.market.config, LeafFor(env, o, 0, key, quantity);
            var r := Enter(ex, env, o, comp, lock, key, quantity);
            && (r.Err? ==> r.error == OpenOrdersFull || r.error == SomeError)
            && (!ex.orders.Book(o.side).IsFull() ==> r.Err? ==> r.error == OpenOrdersFull)
            && (r.Ok? ==>
                  && Good(r.value, claims', dq + PostedQuote(c, o.side, leaf, lock), db + PostedBase(c, o.side, leaf))
                  && r.value.market == ex.market && FreeGrows(ex.accounts, r.value.accounts))
  {
    hide *;
    claims' := claims;
    GoodParts(ex, claims, dq, db);
    KeyIsFresh(ex, claims, o.side, comp, key);
    EnterIs(ex, env, o, comp, lock, key, quantity);
    EnterWhenNotFull(ex, env, o, comp, lock, key, quantity) by { BookOf(ex.orders, o.side); }
    var r := Enter(ex, env, o, comp, lock, key, quantity);
    if r.Ok? {
      claims' := EnteredStep(ex, claims, env, o, comp, lock, key, quantity, dq, db);
    }
  }

  lemma EnterIs(ex: Exchange, env: Env, o: Order, comp: Component, lock: int, key: nat, quantity: int)
    requires env.owner in ex.accounts
    ensures var r := Enter(ex, env, o, comp, lock, key, quantity);
            var slot := NextOrderSlot(ex.accounts[env.owner]);
            && (r.Err? ==> r.error == OpenOrdersFull || r.error == SomeError)
            && (slot.None? ==> r == Err(OpenOrdersFull))
            && (r.Ok? ==>
                  var a := ex.accounts[env.owner];
                  var leaf := LeafFor(env, o, slot.value, key, quantity);
                  && slot.Some? && slot.value < |a.slots| && a.slots[slot.value].isFree
                  && ex.orders.Book(o.side).Insert(comp, leaf).Ok?
                  && r.value == Exchange(ex.market,
                                         ex.accounts[env.owner := Posted(ex.market.config, a, o.side, comp, leaf, lock)],
                                         ex.orders.WithBook(o.side, ex.orders.Book(o.side).Insert(comp, leaf).value)))
  {
    hide Posted, BookSideModel.UsedCells, BookSideModel.Demand;
  }

  /** A side that is not full has room. */
  lemma EnterWhenNotFull(ex: Exchange, env: Env, o: Order, comp: Component, lock: int, key: nat, quantity: int)
    requires env.owner in ex.accounts && BookOk(ex.orders.Book(o.side))
    ensures !ex.orders.Book(o.side).IsFull() && NextOrderSlot(ex.accounts[env.owner]).Some? ==>
              Enter(ex, env, o, comp, lock, key, quantity).Ok?
  {
    hide Posted;
    var m := ex.orders.Book(o.side);
    if !m.IsFull() && NextOrderSlot(ex.accounts[env.owner]).Some? {
      NotFullInserts(m, comp, LeafFor(env, o, NextOrderSlot(ex.accounts[env.owner]).value, key, quantity));
    }
  }

  lemma LeafForFields(env: Env, o: Order, slot: nat, key: nat, quantity: int)
    ensures var leaf := LeafFor(env, o, slot, key, quantity);
            leaf.ownerSlot == slot && leaf.key == key && leaf.owner == env.owner && leaf.quantity == quantity
  {
  }

  lemma EnteredStep(ex: Exchange, claims: map<ClaimId, Claim>, env: Env, o: Order, comp: Component, lock: int, key: nat,
                    quantity: int, dq: int, db: int)
      returns (claims': map<ClaimId, Claim>)
    requires Good(ex, claims, dq, db) && env.owner in ex.accounts
    requires SeqsOk(ex.accounts, SeqNumOf(o.side, key) - 1) && SeqNumOf(o.side, key) == ex.market.seqNum
    requires forall slot :: LeafOk(comp, LeafFor(env, o, slot, key, quantity))
    requires forall slot :: LockOf(comp, LeafFor(env, o, slot, key, quantity)) == lock || o.side.Ask?
    requires o.side.Bid? ==> lock >= 1
    requires Enter(ex, env, o, comp, lock, key, quantity).Ok?
    ensures var c, leaf := ex.market.config, LeafFor(env, o, 0, key, quantity);
            var r := Enter(ex, env, o, comp, lock, key, quantity).value;
            && Good(r, claims', dq + PostedQuote(c, o.side, leaf, lock), db + PostedBase(c, o.side, leaf))
            && r.market == ex.market && FreeGrows(ex.accounts, r.accounts)
  {
    hide *;
    GoodParts(ex, claims, dq, db);
    KeyIsFresh(ex, claims, o.side, comp, key);
    EnterIs(ex, env, o, comp, lock, key, quantity);
    var a, c := ex.accounts[env.owner], ex.market.config;
    var slot := NextOrderSlot(a).value;
    var leaf := LeafFor(env, o, slot, key, quantity);
    LeafForFields(env, o, slot, key, quantity);
    var i := OnBook(o.side, comp, key);
    var r := Enter(ex, env, o, comp, lock, key, quantity).value;
    LeafOkIs(comp, leaf);
    TallyInsert(ex.orders, claims, o.side, comp, leaf);
    RestingIs(o.side, comp, leaf, lock);
    PostKeeps(Ledger(ex.market, ex.accounts, claims), i, o.side, comp, leaf, lock, dq, db);
    PostedSlots(c, a, o.side, comp, leaf, lock);
    OneGrows(ex.accounts, env.owner, Posted(c, a, o.side, comp, leaf, lock));
    var a' := Posted(c, a, o.side, comp, leaf, lock);
    var x := RestingClaim(o.side, leaf, lock);
    TagEntered(ex.accounts, claims, i, x, a');
    SeqEntered(ex.accounts, env.owner, slot, a', ex.market.seqNum);
    claims' := claims[i := x];
    PostedIs(c, o.side, leaf, LeafFor(env, o, 0, key, quantity), lock) by { LeafForFields(env, o, 0, key, quantity); }
    MakeGood(r, claims', dq + PostedQuote(c, o.side, leaf, lock), db + PostedBase(c, o.side, leaf));
  }

  lemma LeafOkIs(comp: Component, leaf: LeafNode)
    requires LeafOk(comp, leaf)
    ensures if comp.Fixed? then FixedOk(leaf) else PeggedOk(leaf)
    ensures leaf.quantity >= 1 && leaf.key < KEY_SIZE
  {
  }

  lemma RestingIs(side: Side, comp: Component, leaf: LeafNode, lock: int)
    requires LockOf(comp, leaf) == lock || side.Ask?
    ensures LeafClaim(side, comp, leaf) == RestingClaim(side, leaf, lock)
    ensures var x := RestingClaim(side, leaf, lock); x.owner == leaf.owner && x.slot == leaf.ownerSlot
  {
  }

  lemma PostedIs(c: Config, side: Side, leaf: LeafNode, leaf': LeafNode, lock: int)
    requires leaf.quantity == leaf'.quantity
    ensures PostedQuote(c, side, leaf, lock) == PostedQuote(c, side, leaf', lock)
    ensures PostedBase(c, side, leaf) == PostedBase(c, side, leaf')
  {
  }

  // ---------- posting ----------

  predicate PostErrorIsKnown(e: Error) { e == HeapFull || e == SomeError || e == OpenOrdersFull }

  lemma PostStep(ex: Exchange, claims: map<ClaimId, Claim>, env: Env, o: Order, comp: Component, priceLots: int, key: nat,
                 quantity: int, dq: int, db: int)
      returns (claims': map<ClaimId, Claim>)
    requires Good(ex, claims, dq, db) && env.owner in ex.accounts
    requires SeqsOk(ex.accounts, SeqNumOf(o.side, key) - 1) && SeqNumOf(o.side, key) == ex.market.seqNum
    requires var lock := LockingPrice(o, priceLots);
             && (forall slot :: LeafOk(comp, LeafFor(env, o, slot, key, quantity)))
             && (forall slot :: LockOf(comp, LeafFor(env, o, slot, key, quantity)) == lock || o.side.Ask?)
             && (o.side.Bid? ==> lock >= 1)
    ensures var c, leaf, lock := ex.market.config, LeafFor(env, o, 0, key, quantity), LockingPrice(o, priceLots);
            var r := PostOrder(ex, env, o, comp, priceLots, key, quantity);
            && (r.Err? ==> PostErrorIsKnown(r.error))
            && (r.Ok? ==>
                  && Good(r.value, claims', dq + PostedQuote(c, o.side, leaf, lock), db + PostedBase(c, o.side, leaf))
                  && r.value.market == ex.market.(referrerRebatesAccrued := r.value.market.referrerRebatesAccrued)
                  && FreeGrows(ex.accounts, r.value.accounts))
  {
    hide Good, SameFrame, SeqsOk, FreeGrows, EvictExpired, EvictWorst, Enter, PostedQuote, PostedBase, LeafOk, LockOf, LeafFor, LockingPrice,
         SeqNumOf;
    claims' := ExpiredStep(ex, claims, env, o.side, comp, dq, db);
    var r1 := EvictExpired(ex, env, o.side, comp);
    if r1.Ok? {
      SameFrameIs(ex, r1.value);
      SeqsShrink(ex.accounts, r1.value.accounts, SeqNumOf(o.side, key) - 1);
      claims' := WorstStep(r1.value, claims', env, o.side, priceLots, dq, db);
      var r2 := EvictWorst(r1.value, env, o.side, priceLots);
      if r2.Ok? {
        SameFrameIs(r1.value, r2.value);
        SeqsShrink(r1.value.accounts, r2.value.accounts, SeqNumOf(o.side, key) - 1);
        FreeGrowsTransitive(ex.accounts, r1.value.accounts, r2.value.accounts);
        claims' := EnterStep(r2.value, claims', env, o, comp, LockingPrice(o, priceLots), key, quantity, dq, db);
        var r3 := Enter(r2.value, env, o, comp, LockingPrice(o, priceLots), key, quantity);
        if r3.Ok? { FreeGrowsTransitive(ex.accounts, r2.value.accounts, r3.value.accounts); }
      }
    }
  }

  lemma SameFrameIs(ex: Exchange, ex': Exchange)
    requires SameFrame(ex, ex')
    ensures SlotsShrink(ex.accounts, ex'.accounts) && ex'.accounts.Keys == ex.accounts.Keys
    ensures FreeGrows(ex.accounts, ex'.accounts)
    ensures ex'.market == ex.market.(referrerRebatesAccrued := ex'.market.referrerRebatesAccrued)
  {
  }
}
