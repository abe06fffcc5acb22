/** What cancelling takes off the books: the orders that were asked for and no others. */
module CancelOutcomes {
  import opened Types
  import opened Markets
  import opened Accounts
  import opened Ledgers
  import opened BookSideModels
  import opened EventHeaps
  import opened Exchanges
  import opened ExchangeInvariants
  import opened ExchangeSteps
  import opened Instructions
  import opened InstructionOrders
  import opened Unwindings

  /** An order in use, on the side and with the client id asked for, if any are. */
  predicate IsWanted(f: Filter, oo: OpenOrder) {
    && !oo.isFree
    && (match f.side case None => true case Some(side) => oo.side == side)
    && (match f.clientId case None => true case Some(id) => oo.clientId == id)
  }

  /** How many orders are wanted in slots `i` to `s`. */
  function WantedIn(slots: seq<OpenOrder>, f: Filter, i: nat, s: nat): nat
    requires i <= s <= |slots|
    decreases s - i
  {
    if i == s then 0 else (if IsWanted(f, slots[i]) then 1 else 0) + WantedIn(slots, f, i + 1, s)
  }

  /** The order in slot `s` is one of the first `limit` that are wanted, from slot `i` on. */
  predicate IsChosen(slots: seq<OpenOrder>, f: Filter, i: nat, s: nat, limit: nat) {
    i <= s < |slots| && IsWanted(f, slots[s]) && WantedIn(slots, f, i, s) < limit
  }

  /** An order of the account in a chosen slot is gone; any other is as it was. */
  ghost predicate LeavesIfChosen(ex: Exchange, p: Pubkey, f: Filter, i: nat, limit: nat, ex': Exchange,
                                 side: Side, comp: Component, key: nat)
    requires p in ex.accounts
  {
    var (m, m') := (ex.orders.Book(side).Get(comp), ex'.orders.Book(side).Get(comp));
    && (key in m' <==> key in m && !(m[key].owner == p && IsChosen(ex.accounts[p].slots, f, i, m[key].ownerSlot, limit)))
    && (key in m' ==> m'[key] == m[key])
  }

  /** Exactly the orders in chosen slots leave the books; no event and no other account changes. */
  ghost predicate ChosenLeave(ex: Exchange, p: Pubkey, f: Filter, i: nat, limit: nat, ex': Exchange)
    requires p in ex.accounts
  {
    && (forall side, comp, key :: LeavesIfChosen(ex, p, f, i, limit, ex', side, comp, key))
    && ex'.orders.heap == ex.orders.heap && ex'.market == ex.market
    && p in ex'.accounts && ex'.accounts == ex.accounts[p := ex'.accounts[p]]
  }

  lemma TakesIs(f: Filter, oo: OpenOrder)
    ensures f.Takes(oo) <==> IsWanted(f, oo)
  {
  }

  lemma {:induction false} WantedElsewhere(slots: seq<OpenOrder>, slots': seq<OpenOrder>, f: Filter, i: nat, s: nat)
    requires i <= s <= |slots| == |slots'| && forall k :: i <= k < |slots| ==> slots'[k] == slots[k]
    ensures WantedIn(slots', f, i, s) == WantedIn(slots, f, i, s)
    decreases s - i
  {
    if i < s { WantedElsewhere(slots, slots', f, i + 1, s); }
  }

  /** Choosing from slot `i` on, in terms of choosing from the next one on. */
  lemma ChosenUnfolds(slots: seq<OpenOrder>, slots': seq<OpenOrder>, f: Filter, i: nat, s: nat, limit: nat)
    requires i < |slots| == |slots'| && forall k :: i < k < |slots| ==> slots'[k] == slots[k]
    ensures IsChosen(slots, f, i, s, limit) <==>
              if IsWanted(f, slots[i]) then limit > 0 && (s == i || IsChosen(slots', f, i + 1, s, limit - 1))
              else IsChosen(slots', f, i + 1, s, limit)
  {
    if i < s < |slots| { WantedElsewhere(slots, slots', f, i + 1, s); }
  }

  /** What cancelling one order leaves of the account. */
  lemma CancelledSlots(ex: Exchange, p: Pubkey, side: Side, comp: Component, id: nat)
    ensures var r := CancelAt(ex, p, side, comp, id);
            r.Ok? && p in ex.accounts ==>
              && id in ex.orders.Book(side).Get(comp)
              && var s := ex.orders.Book(side).Get(comp)[id].ownerSlot;
                 && p in r.value.0.accounts && s < |ex.accounts[p].slots|
                 && r.value.0.accounts[p].slots == ex.accounts[p].slots[s := FreeOrder]
                 && r.value.0.accounts == ex.accounts[p := r.value.0.accounts[p]]
  {
  }

  lemma NoneChosen(ex: Exchange, p: Pubkey, f: Filter, i: nat, limit: nat)
    requires p in ex.accounts && forall s :: !IsChosen(ex.accounts[p].slots, f, i, s, limit)
    ensures ChosenLeave(ex, p, f, i, limit, ex)
  {
    hide Orders.Book, BookSideModel.Get, IsChosen;
    forall side, comp, key
      ensures LeavesIfChosen(ex, p, f, i, limit, ex, side, comp, key)
    {
    }
  }

  /** An order that is passed over, because it is not wanted or not on the books. */
  lemma PassedOver(ex: Exchange, p: Pubkey, f: Filter, i: nat, limit: nat, limit': nat, ex': Exchange)
    requires p in ex.accounts && i < |ex.accounts[p].slots| && ChosenLeave(ex, p, f, i + 1, limit', ex')
    requires if IsWanted(f, ex.accounts[p].slots[i]) then limit > 0 && limit' == limit - 1 else limit' == limit
    requires IsWanted(f, ex.accounts[p].slots[i]) ==> NoneRestsIn(ex, p, i)
    ensures ChosenLeave(ex, p, f, i, limit, ex')
  {
    hide Orders.Book, BookSideModel.Get, IsChosen, IsWanted;
    forall side, comp, key
      ensures LeavesIfChosen(ex, p, f, i, limit, ex', side, comp, key)
    {
      assert LeavesIfChosen(ex, p, f, i + 1, limit', ex', side, comp, key);
      if key in ex.orders.Book(side).Get(comp) {
        ChosenUnfolds(ex.accounts[p].slots, ex.accounts[p].slots, f, i, ex.orders.Book(side).Get(comp)[key].ownerSlot, limit);
      }
    }
  }

  ghost predicate NoneRestsIn(ex: Exchange, p: Pubkey, s: nat) {
    forall side, comp, key :: key in ex.orders.Book(side).Get(comp) ==>
      ex.orders.Book(side).Get(comp)[key].owner != p || ex.orders.Book(side).Get(comp)[key].ownerSlot != s
  }

  /** Nothing rests in a slot that names an order which is not on the books. */
  lemma NothingRestsIn(ex: Exchange, claims: map<ClaimId, Claim>, p: Pubkey, s: nat)
    requires Tally(ex.orders, claims) && Tagged(ex.accounts, claims) && p in ex.accounts && s < |ex.accounts[p].slots|
    requires var oo := ex.accounts[p].slots[s]; oo.id !in ex.orders.Book(oo.side).Get(oo.comp)
    ensures NoneRestsIn(ex, p, s)
  {
    hide Tally, Tagged, Orders.Book, BookSideModel.Get;
    forall side, comp, key | key in ex.orders.Book(side).Get(comp)
      ensures ex.orders.Book(side).Get(comp)[key].owner != p || ex.orders.Book(side).Get(comp)[key].ownerSlot != s
    {
      RestsInSlot(ex, claims, side, comp, key);
    }
  }

  /** The order in slot `i` leaves, and then the others. */
  lemma OneLeaves(ex: Exchange, claims: map<ClaimId, Claim>, p: Pubkey, f: Filter, i: nat, limit: nat, ex1: Exchange, ex': Exchange)
    requires Tally(ex.orders, claims) && Tagged(ex.accounts, claims) && p in ex.accounts && i < |ex.accounts[p].slots|
    requires var oo := ex.accounts[p].slots[i];
             && oo.id in ex.orders.Book(oo.side).Get(oo.comp)
             && ex.orders.Book(oo.side).Get(oo.comp)[oo.id].owner == p && ex.orders.Book(oo.side).Get(oo.comp)[oo.id].ownerSlot == i
             && ex1.orders == ex.Without(oo.side, oo.comp, oo.id).orders && ex1.market == ex.market
    requires p in ex1.accounts && ex1.accounts == ex.accounts[p := ex1.accounts[p]]
    requires ex1.accounts[p].slots == ex.accounts[p].slots[i := FreeOrder]
    requires IsWanted(f, ex.accounts[p].slots[i]) && limit > 0 && ChosenLeave(ex1, p, f, i + 1, limit - 1, ex')
    ensures ChosenLeave(ex, p, f, i, limit, ex')
  {
    hide *;
    var oo := ex.accounts[p].slots[i];
    WithoutGet(ex, oo.side, oo.comp, oo.id, oo.side, oo.comp);
    ChosenLeft(ex1, p, f, i + 1, limit - 1, ex');
    forall side, comp, key
      ensures LeavesIfChosen(ex, p, f, i, limit, ex', side, comp, key)
    {
      WithoutGet(ex, oo.side, oo.comp, oo.id, side, comp);
      if key in ex.orders.Book(side).Get(comp) { RestsInSlot(ex, claims, side, comp, key); }
      OneLeavesAt(ex, p, f, i, limit, ex1, ex', side, comp, key);
    }
    MakeChosenLeave(ex, p, f, i, limit, ex');
  }

  lemma ChosenLeft(ex: Exchange, p: Pubkey, f: Filter, i: nat, limit: nat, ex': Exchange)
    requires p in ex.accounts && ChosenLeave(ex, p, f, i, limit, ex')
    ensures forall side, comp, key :: LeavesIfChosen(ex, p, f, i, limit, ex', side, comp, key)
    ensures ex'.orders.heap == ex.orders.heap && ex'.market == ex.market
    ensures p in ex'.accounts && ex'.accounts == ex.accounts[p := ex'.accounts[p]]
  {
    hide LeavesIfChosen;
  }

  lemma MakeChosenLeave(ex: Exchange, p: Pubkey, f: Filter, i: nat, limit: nat, ex': Exchange)
    requires p in ex.accounts && forall side, comp, key :: LeavesIfChosen(ex, p, f, i, limit, ex', side, comp, key)
    requires ex'.orders.heap == ex.orders.heap && ex'.market == ex.market
    requires p in ex'.accounts && ex'.accounts == ex.accounts[p := ex'.accounts[p]]
    ensures ChosenLeave(ex, p, f, i, limit, ex')
  {
    hide LeavesIfChosen;
  }

  lemma OneLeavesAt(ex: Exchange, p: Pubkey, f: Filter, i: nat, limit: nat, ex1: Exchange, ex': Exchange,
                    side: Side, comp: Component, key: nat)
    requires p in ex.accounts && p in ex1.accounts && i < |ex.accounts[p].slots|
    requires ex1.accounts[p].slots == ex.accounts[p].slots[i := FreeOrder]
    requires IsWanted(f, ex.accounts[p].slots[i]) && limit > 0
    requires LeavesIfChosen(ex1, p, f, i + 1, limit - 1, ex', side, comp, key)
    requires var oo, m := ex.accounts[p].slots[i], ex.orders.Book(side).Get(comp);
             && ex1.orders.Book(side).Get(comp) == (if side == oo.side && comp == oo.comp then m - {oo.id} else m)
             && (key in m ==>
                   if side == oo.side && comp == oo.comp && key == oo.id then m[key].owner == p && m[key].ownerSlot == i
                   else m[key].owner != p || m[key].ownerSlot != i)
    ensures LeavesIfChosen(ex, p, f, i, limit, ex', side, comp, key)
  {
    hide Orders.Book, BookSideModel.Get, IsChosen, IsWanted;
    var m := ex.orders.Book(side).Get(comp);
    if key in m { ChosenUnfolds(ex.accounts[p].slots, ex1.accounts[p].slots, f, i, m[key].ownerSlot, limit); }
  }

  /** Cancelling all orders takes off the books exactly the first `limit` orders of the account that are wanted. An order that
      is no longer on the books counts too. */
  lemma {:induction false} CancelAllTakes(ex: Exchange, claims: map<ClaimId, Claim>, p: Pubkey, f: Filter, i: nat, limit: nat)
    requires Good(ex, claims, 0, 0) && p in ex.accounts && i <= 24
    ensures var r := CancelAllFrom(ex, p, f, i, limit); r.Ok? && ChosenLeave(ex, p, f, i, limit, r.value.0)
    decreases 24 - i
  {
    hide *;
    SlotsAre24();
    SlotCount(ex, claims, p, 0, 0);
    CancelAllSteps(ex, p, f, i, limit);
    GoodParts(ex, claims, 0, 0);
    if i == 24 {
      BeyondTheLast(ex, p, f, limit);
      NoneChosen(ex, p, f, i, limit);
    } else {
      var oo := ex.accounts[p].slots[i];
      TakesIs(f, oo);
      TakenIsInUse(f, oo);
      InUseIs(ex.accounts, p, i);
      if !f.Takes(oo) {
        CancelAllTakes(ex, claims, p, f, i + 1, limit);
        PassedOver(ex, p, f, i, limit, limit, CancelAllFrom(ex, p, f, i, limit).value.0);
      } else if limit == 0 {
        LimitReached(ex, p, f, i);
        NoneChosen(ex, p, f, i, limit);
      } else {
        var claims' := CancelAtKeeps(ex, claims, p, i);
        var r := CancelAt(ex, p, oo.side, oo.comp, oo.id);
        if r.Err? {
          NothingRestsIn(ex, claims, p, i);
          CancelAllTakes(ex, claims, p, f, i + 1, limit - 1);
          PassedOver(ex, p, f, i, limit, limit - 1, CancelAllFrom(ex, p, f, i, limit).value.0);
        } else {
          OwnOrder(ex, claims, p, i);
          CancelledSlots(ex, p, oo.side, oo.comp, oo.id);
          CancelledMarket(ex, p, oo.side, oo.comp, oo.id);
          CancelAllTakes(r.value.0, claims', p, f, i + 1, limit - 1);
          OneLeaves(ex, claims, p, f, i, limit, r.value.0, CancelAllFrom(ex, p, f, i, limit).value.0);
        }
      }
    }
  }

  lemma SlotsAre24()
    ensures MAX_OPEN_ORDERS == 24
  {
  }

  lemma BeyondTheLast(ex: Exchange, p: Pubkey, f: Filter, limit: nat)
    requires p in ex.accounts && |ex.accounts[p].slots| == 24
    ensures forall s :: !IsChosen(ex.accounts[p].slots, f, 24, s, limit)
  {
  }

  lemma LimitReached(ex: Exchange, p: Pubkey, f: Filter, i: nat)
    requires p in ex.accounts
    ensures forall s :: !IsChosen(ex.accounts[p].slots, f, i, s, 0)
  {
  }

  lemma CancelledMarket(ex: Exchange, p: Pubkey, side: Side, comp: Component, id: nat)
    ensures CancelAt(ex, p, side, comp, id).Ok? ==> CancelAt(ex, p, side, comp, id).value.0.market == ex.market
  {
    hide CancelOrder;
  }

  // ---------- one order ----------

  /** Exactly the order that a slot names leaves the books; the slot is free, and its owner gets back what the order had
      locked. */
  ghost predicate SlotIsCancelled(ex: Exchange, p: Pubkey, s: nat, ex': Exchange)
    requires p in ex.accounts && s < |ex.accounts[p].slots|
  {
    var oo := ex.accounts[p].slots[s];
    && oo.id in ex.orders.Book(oo.side).Get(oo.comp) && ex'.market == ex.market
    && ex'.orders == ex.Without(oo.side, oo.comp, oo.id).orders
    && p in ex'.accounts && ex'.accounts == ex.accounts[p := ex'.accounts[p]]
    && |ex'.accounts[p].slots| == |ex.accounts[p].slots| && ex'.accounts[p].slots[s].isFree
    && (forall t :: 0 <= t < |ex.accounts[p].slots| && t != s ==> ex'.accounts[p].slots[t] == ex.accounts[p].slots[t])
    && GivesBack(ex.market.config, oo.side, ex.orders.Book(oo.side).Get(oo.comp)[oo.id].quantity, oo.lockedPrice,
                 ex.accounts[p].position, ex'.accounts[p].position)
  }

  /** The funds of an order on the book, given back. */
  lemma OrderGivesBack(ex: Exchange, claims: map<ClaimId, Claim>, side: Side, comp: Component, key: nat)
    requires ex.market.config.Ok() && Tally(ex.orders, claims) && ClaimsOk(ex.accounts, claims)
    requires key in ex.orders.Book(side).Get(comp)
    ensures GivesBackOrder(ex, side, ex.orders.Book(side).Get(comp)[key])
  {
    hide *;
    var leaf := ex.orders.Book(side).Get(comp)[key];
    LeafIsClaimed(ex, claims, side, comp, key);
    LeafClaimFields(side, comp, leaf);
    RestingSide(side, comp, leaf);
    ClaimGivesBack(ex, side, leaf, LeafClaim(side, comp, leaf));
  }

  ghost predicate GivesBackOrder(ex: Exchange, side: Side, leaf: LeafNode) {
    && leaf.owner in ex.accounts && leaf.ownerSlot < |ex.accounts[leaf.owner].slots|
    && var a := ex.accounts[leaf.owner];
       GivesBack(ex.market.config, side, leaf.quantity, a.slots[leaf.ownerSlot].lockedPrice, a.position,
                 CancelOrder(ex.market.config, a, leaf.ownerSlot, leaf.quantity).position)
  }

  lemma ClaimGivesBack(ex: Exchange, side: Side, leaf: LeafNode, x: Claim)
    requires ex.market.config.Ok() && ClaimOk(ex.accounts, x) && x.HoldsSlot() && !x.kind.Matched? && x.side == side
    requires x.owner == leaf.owner && x.slot == leaf.ownerSlot && x.quantity == leaf.quantity
    ensures GivesBackOrder(ex, side, leaf)
  {
    CancelPays(ex.market.config, ex.accounts, x);
    hide CancelOrder, PaysClaim, RoundsUp, FeeRate, Config.Ok;
  }

  lemma LeafIsClaimed(ex: Exchange, claims: map<ClaimId, Claim>, side: Side, comp: Component, key: nat)
    requires Tally(ex.orders, claims) && ClaimsOk(ex.accounts, claims) && key in ex.orders.Book(side).Get(comp)
    ensures OnBook(side, comp, key) in claims
    ensures var x := claims[OnBook(side, comp, key)];
            x == LeafClaim(side, comp, ex.orders.Book(side).Get(comp)[key]) && ClaimOk(ex.accounts, x) && x.HoldsSlot()
  {
    assert Backed(ex.orders, OnBook(side, comp, key), claims[OnBook(side, comp, key)]);
    hide ClaimOk;
  }

  lemma RestingSide(side: Side, comp: Component, leaf: LeafNode)
    ensures LeafClaim(side, comp, leaf).side == side
  {
  }

  ghost predicate IsFirstSlot(slots: seq<OpenOrder>, id: nat, s: nat) {
    && s < |slots| && !slots[s].isFree && slots[s].id == id
    && forall t :: 0 <= t < s ==> slots[t].isFree || slots[t].id != id
  }

  lemma {:induction false} FindsFirst(slots: seq<OpenOrder>, id: nat)
    ensures FindSlot(slots, id).Some? ==> IsFirstSlot(slots, id, FindSlot(slots, id).value)
    ensures FindSlot(slots, id).None? ==> forall s: nat :: !IsFirstSlot(slots, id, s)
  {
    if slots != [] {
      FindsFirst(slots[1..], id);
      forall s: nat | IsFirstSlot(slots, id, s) && s > 0
        ensures IsFirstSlot(slots[1..], id, s - 1)
      {
        assert forall t :: 0 <= t < s - 1 ==> slots[1..][t] == slots[t + 1];
      }
      var r := FindSlot(slots[1..], id);
      if r.Some? {
        assert forall t :: 1 <= t < r.value + 1 ==> slots[t] == slots[1..][t - 1];
      }
    }
  }

  lemma OnlyFirst(slots: seq<OpenOrder>, id: nat, s: nat, t: nat)
    requires IsFirstSlot(slots, id, s) && IsFirstSlot(slots, id, t)
    ensures s == t
  {
  }

  lemma CancelledIs(ex: Exchange, p: Pubkey, s: nat)
    requires p in ex.accounts && s < |ex.accounts[p].slots|
    requires var oo := ex.accounts[p].slots[s];
             var m := ex.orders.Book(oo.side).Get(oo.comp);
             oo.id in m && m[oo.id].owner == p && m[oo.id].ownerSlot == s && GivesBackOrder(ex, oo.side, m[oo.id])
    ensures var oo := ex.accounts[p].slots[s];
            var r := CancelAt(ex, p, oo.side, oo.comp, oo.id);
            r.Ok? ==> SlotIsCancelled(ex, p, s, r.value.0)
  {
    hide RoundsUp, FeeRate, Orders.Book, BookSideModel.Get, BookSideModel.Remove;
  }

  /** Cancelling by id succeeds if and only if the first slot that holds the id names an order on the books, and then cancels
      it. */
  lemma CancelByIdTakes(ex: Exchange, claims: map<ClaimId, Claim>, p: Pubkey, id: nat)
    requires Good(ex, claims, 0, 0)
    ensures var r := CancelOrderById(ex, p, id);
            r.Ok? <==> && id != 0 && p in ex.accounts
                       && exists s: nat :: IsFirstSlot(ex.accounts[p].slots, id, s) && SlotRests(ex, ex.accounts[p].slots[s])
    ensures var r := CancelOrderById(ex, p, id);
            r.Ok? ==> p in ex.accounts
                      && exists s: nat :: IsFirstSlot(ex.accounts[p].slots, id, s) && SlotIsCancelled(ex, p, s, r.value)
  {
    hide *;
    ByIdIs(ex, p, id);
    GoodParts(ex, claims, 0, 0);
    InvParts(Ledger(ex.market, ex.accounts, claims), 0, 0);
    if p in ex.accounts {
      var slots := ex.accounts[p].slots;
      FindsFirst(slots, id);
      if id != 0 && FindSlot(slots, id).Some? {
        var s := FindSlot(slots, id).value;
        var oo := slots[s];
        FirstIs(slots, id, s);
        InUseIs(ex.accounts, p, s);
        var _ := CancelAtKeeps(ex, claims, p, s);
        RestsIs(ex, oo);
        forall t: nat | IsFirstSlot(slots, id, t) ensures t == s { OnlyFirst(slots, id, s, t); }
        OwnOrder(ex, claims, p, s);
        if oo.id in ex.orders.Book(oo.side).Get(oo.comp) {
          OrderGivesBack(ex, claims, oo.side, oo.comp, oo.id);
          CancelledIs(ex, p, s);
        }
      }
    }
  }

  predicate SlotRests(ex: Exchange, oo: OpenOrder) { oo.id in ex.orders.Book(oo.side).Get(oo.comp) }

  lemma RestsIs(ex: Exchange, oo: OpenOrder)
    ensures SlotRests(ex, oo) <==> oo.id in ex.orders.Book(oo.side).Get(oo.comp)
  {
  }

  lemma FirstIs(slots: seq<OpenOrder>, id: nat, s: nat)
    requires IsFirstSlot(slots, id, s)
    ensures s < |slots| && !slots[s].isFree && slots[s].id == id
  {
  }

  lemma ByIdIs(ex: Exchange, p: Pubkey, id: nat)
    ensures var r := CancelOrderById(ex, p, id);
            && (id == 0 || p !in ex.accounts ==> r.Err?)
            && (id != 0 && p in ex.accounts ==>
                  var s := FindSlot(ex.accounts[p].slots, id);
                  && (s.None? ==> r.Err?)
                  && (s.Some? ==>
                        && s.value < |ex.accounts[p].slots|
                        && var oo := ex.accounts[p].slots[s.value];
                           var c := CancelAt(ex, p, oo.side, oo.comp, oo.id);
                           (r.Ok? <==> c.Ok?) && (c.Ok? ==> r == Ok(c.value.0))))
  {
    hide CancelAt;
  }
}
