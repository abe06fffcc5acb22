/** Consuming events: which are taken, that each is handled once, and that their order does not matter. */
module InstructionEvents {
  import opened Types
  import opened Accounts
  import opened Ledgers
  import opened EventHeaps
  import opened Exchanges
  import opened ExchangeInvariants
  import opened ExchangeSteps
  import opened ExchangeActions
  import opened Instructions

  // ---------- which events ----------

  ghost predicate Picked(heap: HeapModel, s: seq<nat>) {
    NoDuplicates(s) && forall slot :: slot in s ==> slot in heap.pending
  }

  ghost predicate InHeapRange(heap: HeapModel, candidates: seq<nat>) {
    forall slot :: slot in candidates ==> slot < |heap.order| + |heap.free|
  }

  /** Distinct slots with events, no more than asked for; the only failure is an index beyond the heap. */
  lemma {:induction false} PickOk(heap: HeapModel, candidates: seq<nat>, picked: seq<nat>, limit: nat)
    requires Picked(heap, picked) && |picked| <= limit
    ensures var r := Pick(heap, candidates, picked, limit);
            && (r.Err? ==> r.error == BadSlotIndex)
            && (InHeapRange(heap, candidates) ==> r.Ok?)
            && (r.Ok? ==> Picked(heap, r.value) && |r.value| <= limit)
    decreases |candidates|
  {
    if |picked| < limit && candidates != [] {
      var slot := candidates[0];
      assert slot in candidates && forall x :: x in candidates[1..] ==> x in candidates;
      if slot < |heap.order| + |heap.free| {
        var picked' := if slot !in heap.pending || slot in picked then picked else picked + [slot];
        PickOk(heap, candidates[1..], picked', limit);
      }
    }
  }

  /** With no slots given, the events that arrived first are taken. */
  lemma {:induction false} PickInOrder(heap: HeapModel, i: nat, limit: nat)
    requires heap.Ok() && i <= |heap.order| && i <= limit
    ensures Pick(heap, heap.order[i..], heap.order[..i], limit) == Ok(heap.order[..Min(limit, |heap.order|)])
    decreases |heap.order| - i
  {
    if i < |heap.order| && i < limit {
      var slot := heap.order[i];
      assert slot in heap.order;
      assert slot !in heap.order[..i];
      assert heap.order[i..][0] == slot && heap.order[i..][1..] == heap.order[i + 1..];
      assert heap.order[..i] + [slot] == heap.order[..i + 1];
      PickInOrder(heap, i + 1, limit);
    }
  }

  /** The slots picked are the live ones among the first so many candidates. */
  ghost predicate IsFront(heap: HeapModel, candidates: seq<nat>, n: nat, picked: seq<nat>) {
    n <= |candidates| && forall s :: s in picked <==> s in heap.pending && s in candidates[..n]
  }

  /** Picking stops only when there are enough, or no candidate is left. */
  lemma {:induction false} PickStops(heap: HeapModel, candidates: seq<nat>, n: nat, picked: seq<nat>, limit: nat)
    requires IsFront(heap, candidates, n, picked) && |picked| <= limit
    ensures var r := Pick(heap, candidates[n..], picked, limit);
            r.Ok? ==> exists m: nat :: IsFront(heap, candidates, m, r.value) && (m == |candidates| || |r.value| == limit)
    decreases |candidates| - n
  {
    if |picked| < limit && n < |candidates| {
      var slot := candidates[n];
      assert candidates[n..][0] == slot && candidates[n..][1..] == candidates[n + 1..];
      assert candidates[..n + 1] == candidates[..n] + [slot];
      if slot < |heap.order| + |heap.free| {
        PickStops(heap, candidates, n + 1, if slot !in heap.pending || slot in picked then picked else picked + [slot], limit);
      }
    }
  }

  /** As many events are picked as the limit allows, or all: those in the slots given first, then those that arrived first. */
  lemma PickedAreFirst(heap: HeapModel, slots: seq<nat>, limit: nat)
    requires heap.Ok()
    ensures var r := Pick(heap, slots + heap.order, [], limit);
            r.Ok? ==>
              && Picked(heap, r.value) && |r.value| == Min(limit, |heap.order|)
              && exists n: nat :: IsFront(heap, slots + heap.order, n, r.value)
  {
    var candidates := slots + heap.order;
    var r := Pick(heap, candidates, [], limit);
    PickOk(heap, candidates, [], limit);
    assert candidates[0..] == candidates && IsFront(heap, candidates, 0, []);
    PickStops(heap, candidates, 0, [], limit);
    hide Pick;
    if r.Ok? {
      var m: nat :| IsFront(heap, candidates, m, r.value) && (m == |candidates| || |r.value| == limit);
      DistinctAtMost(r.value, heap.order) by { assert forall s :: s in r.value ==> s in heap.order; }
      if m == |candidates| {
        assert candidates[..m] == candidates;
        DistinctAtMost(heap.order, r.value);
      }
    }
  }

  /** Distinct values that are all among others are no more than these. */
  lemma {:induction false} DistinctAtMost(a: seq<nat>, b: seq<nat>)
    requires NoDuplicates(a) && NoDuplicates(b) && forall x :: x in a ==> x in b
    ensures |a| <= |b|
    decreases |a|
  {
    if a != [] {
      WithoutOk(b, a[0]);
      WithoutLength(b, a[0]);
      DistinctAtMost(a[1..], Without(b, a[0]));
    }
  }

  // ---------- handling one ----------

  /** Handling an event never fails and keeps the invariant. */
  lemma HandleKeeps(ex: Exchange, claims: map<ClaimId, Claim>, slot: nat)
    requires Good(ex, claims, 0, 0) && slot in ex.orders.heap.pending
    ensures var r := HandleEvent(ex, ex.orders.heap.pending[slot]);
            && r.Ok? && SameFrame(ex, r.value) && r.value.orders == ex.orders
            && InHeap(slot) in claims
            && Good(r.value.(orders := ex.orders.(heap := ex.orders.heap.Delete(slot))), claims - {InHeap(slot)}, 0, 0)
  {
    hide *;
    GoodParts(ex, claims, 0, 0);
    TallyDelete(ex.orders, claims, slot);
    var i, e := InHeap(slot), ex.orders.heap.pending[slot];
    PendingClaim(ex.orders, claims, slot);
    RestingHolds(ex.orders, claims);
    var o' := ex.orders.(heap := ex.orders.heap.Delete(slot));
    HandleIs(ex, e);
    if e.Fill? {
      TagsWithout(ex.accounts, claims, i);
      HandleFillStep(ex.market, ex.accounts, claims, i, e, 0, 0);
      HandleFillIs(ex, ex, e);
      MakeGood(HandleFill(ex, e).value.(orders := o'), claims - {i}, 0, 0);
    } else {
      var ex' := CancelClaim(ex, claims, i, 0, 0);
      CancelFrame(ex, ex');
      MakeGood(ex'.(orders := o'), claims - {i}, 0, 0);
    }
  }

  lemma CancelFrame(ex: Exchange, ex': Exchange)
    requires ex'.market == ex.market && SlotsShrink(ex.accounts, ex'.accounts) && FreeGrows(ex.accounts, ex'.accounts)
    ensures SameFrame(ex, ex')
  {
  }

  lemma HandleIs(ex: Exchange, e: Event)
    ensures e.Fill? ==> HandleEvent(ex, e) == HandleFill(ex, e)
    ensures e.Out? ==> HandleEvent(ex, e) == CancelFor(ex, e.owner, e.ownerSlot, e.quantity)
  {
  }

  /** The claim of a pending event. */
  lemma PendingClaim(o: Orders, claims: map<ClaimId, Claim>, slot: nat)
    requires Tally(o, claims) && slot in o.heap.pending
    ensures var e := o.heap.pending[slot];
            && InHeap(slot) in claims
            && var x := claims[InHeap(slot)];
               && EventClaim(e, x)
               && (e.Fill? ==> x == ClaimOfFill(e))
               && (e.Out? ==> x.owner == e.owner && x.slot == e.ownerSlot && x.quantity == e.quantity && x.kind.TakenOff?)
               && x.owner == e.For()
  {
    assert Backed(o, InHeap(slot), claims[InHeap(slot)]);
  }

  lemma ConsumeSlotIs(ex: Exchange, remaining: set<Pubkey>, slot: nat)
    requires slot in ex.orders.heap.pending
    ensures var r, e := ConsumeSlot(ex, remaining, slot), ex.orders.heap.pending[slot];
            && (e.For() !in remaining ==> r == Ok(ex))
            && (e.For() in remaining && HandleEvent(ex, e).Ok? && HandleEvent(ex, e).value.orders == ex.orders ==>
                  r == Ok(HandleEvent(ex, e).value.(orders := ex.orders.(heap := ex.orders.heap.Delete(slot)))))
  {
    hide HandleEvent;
  }

  /** The slots whose events are handled: those whose account was passed along. */
  function Handled(heap: HeapModel, remaining: set<Pubkey>, slots: seq<nat>): seq<nat> {
    if slots == [] then []
    else
      var tail := Handled(heap, remaining, slots[1..]);
      if slots[0] in heap.pending && heap.pending[slots[0]].For() in remaining then [slots[0]] + tail else tail
  }

  /** What is left of the order of arrival. */
  function Left(order: seq<nat>, gone: seq<nat>): seq<nat> {
    if order == [] then []
    else if order[0] in gone then Left(order[1..], gone) else [order[0]] + Left(order[1..], gone)
  }

  lemma {:induction false} LeftOfNothing(order: seq<nat>)
    ensures Left(order, []) == order
  {
    if order != [] { LeftOfNothing(order[1..]); }
  }

  lemma {:induction false} LeftWithout(order: seq<nat>, x: nat, gone: seq<nat>)
    requires NoDuplicates(order)
    ensures Left(Without(order, x), gone) == Left(order, [x] + gone)
  {
    if order != [] {
      LeftWithout(order[1..], x, gone);
      if order[0] == x {
        LeftAbsent(order[1..], x, gone);
      } else {
        assert Without(order, x) == [order[0]] + Without(order[1..], x);
        assert order[0] in [x] + gone <==> order[0] in gone;
      }
    }
  }

  lemma {:induction false} LeftAbsent(order: seq<nat>, x: nat, gone: seq<nat>)
    requires x !in order
    ensures Left(order, gone) == Left(order, [x] + gone)
  {
    if order != [] {
      assert order[0] in order && order[0] != x;
      LeftAbsent(order[1..], x, gone);
    }
  }

  lemma {:induction false} HandledAfter(heap: HeapModel, remaining: set<Pubkey>, slots: seq<nat>, x: nat)
    requires x !in slots
    ensures Handled(heap.Delete(x), remaining, slots) == Handled(heap, remaining, slots)
  {
    if slots != [] {
      assert slots[0] in slots;
      HandledAfter(heap, remaining, slots[1..], x);
    }
  }

  lemma TailPicked(heap: HeapModel, slots: seq<nat>)
    requires Picked(heap, slots) && slots != []
    ensures slots[0] in heap.pending && slots[0] !in slots[1..] && Picked(heap, slots[1..])
    ensures Picked(heap.Delete(slots[0]), slots[1..])
  {
  }

  lemma HeapIsOk(ex: Exchange, claims: map<ClaimId, Claim>)
    requires Good(ex, claims, 0, 0)
    ensures NoDuplicates(ex.orders.heap.order)
  {
  }

  lemma DeleteIs(heap: HeapModel, slot: nat)
    ensures heap.Delete(slot).pending == heap.pending - {slot} && heap.Delete(slot).order == Without(heap.order, slot)
  {
  }

  /** Every event that can be handled is handled once; the others stay, in the order in which they arrived. */
  lemma {:induction false} ConsumeKeeps(ex: Exchange, claims: map<ClaimId, Claim>, remaining: set<Pubkey>, slots: seq<nat>)
      returns (claims': map<ClaimId, Claim>)
    requires Good(ex, claims, 0, 0) && Picked(ex.orders.heap, slots)
    ensures var r := ConsumeSlots(ex, remaining, slots);
            var handled := Handled(ex.orders.heap, remaining, slots);
            && r.Ok? && Good(r.value, claims', 0, 0) && SameFrame(ex, r.value)
            && r.value.orders.heap.pending == ex.orders.heap.pending - (set s | s in handled)
            && r.value.orders.heap.order == Left(ex.orders.heap.order, handled)
            && r.value.orders.bids == ex.orders.bids && r.value.orders.asks == ex.orders.asks
    decreases |slots|
  {
    hide Good, Picked, SameFrame, ConsumeSlot, NoDuplicates, HeapModel.Delete, Left;
    claims' := claims;
    SameFrameReflexive(ex);
    LeftOfNothing(ex.orders.heap.order);
    if slots != [] {
      var heap, slot := ex.orders.heap, slots[0];
      TailPicked(heap, slots);
      ConsumeSlotIs(ex, remaining, slot);
      if heap.pending[slot].For() in remaining {
        HandleKeeps(ex, claims, slot);
        HeapIsOk(ex, claims);
        var ex1 := ConsumeSlot(ex, remaining, slot).value;
        hide HandleEvent;
        claims' := ConsumeKeeps(ex1, claims - {InHeap(slot)}, remaining, slots[1..]);
        DeleteIs(heap, slot);
        HandledAfter(heap, remaining, slots[1..], slot);
        LeftWithout(heap.order, slot, Handled(heap, remaining, slots[1..]));
        ConsumedFrame(ex, HandleEvent(ex, heap.pending[slot]).value, ex1, ConsumeSlots(ex1, remaining, slots[1..]).value);
      } else {
        claims' := ConsumeKeeps(ex, claims, remaining, slots[1..]);
      }
    }
  }

  lemma ConsumedFrame(a: Exchange, b: Exchange, c: Exchange, d: Exchange)
    requires SameFrame(a, b) && c == b.(orders := c.orders) && SameFrame(c, d)
    ensures SameFrame(a, d)
  {
    SameFrameTransitive(a, c, d);
  }

  // ---------- all of it ----------

  /** Only accounts that were passed along change, and of the market's totals only the rebates. */
  ghost predicate OnlyPassed(ex: Exchange, ex': Exchange, remaining: set<Pubkey>) {
    && ex'.accounts.Keys == ex.accounts.Keys
    && (forall p :: p in ex.accounts && p !in remaining ==> ex'.accounts[p] == ex.accounts[p])
    && ex'.market == ex.market.(referrerRebatesAccrued := ex'.market.referrerRebatesAccrued)
  }

  lemma ConsumeSlotTouches(ex: Exchange, remaining: set<Pubkey>, slot: nat)
    requires slot in ex.orders.heap.pending
    ensures var r := ConsumeSlot(ex, remaining, slot); r.Ok? ==> OnlyPassed(ex, r.value, remaining)
  {
    hide ExecuteMaker, CancelOrder, AmountsOfFill, HeapModel.Delete;
  }

  lemma {:induction false} ConsumeTouches(ex: Exchange, remaining: set<Pubkey>, slots: seq<nat>)
    ensures var r := ConsumeSlots(ex, remaining, slots); r.Ok? ==> OnlyPassed(ex, r.value, remaining)
    decreases |slots|
  {
    if slots != [] && slots[0] in ex.orders.heap.pending {
      ConsumeSlotTouches(ex, remaining, slots[0]);
      var r := ConsumeSlot(ex, remaining, slots[0]);
      hide ConsumeSlot;
      if r.Ok? { ConsumeTouches(r.value, remaining, slots[1..]); }
    }
  }

  lemma {:induction false} HandledAre(heap: HeapModel, remaining: set<Pubkey>, slots: seq<nat>)
    ensures forall s :: s in Handled(heap, remaining, slots) <==>
              s in slots && s in heap.pending && heap.pending[s].For() in remaining
  {
    if slots != [] { HandledAre(heap, remaining, slots[1..]); }
  }

  /** The events of the picked slots are gone if their accounts were passed along, all others are left. */
  ghost predicate TakesOff(heap: HeapModel, heap': HeapModel, remaining: set<Pubkey>, picked: seq<nat>) {
    forall s :: && (s in heap'.pending <==> s in heap.pending && !(s in picked && heap.pending[s].For() in remaining))
                && (s in heap'.pending ==> heap'.pending[s] == heap.pending[s])
  }

  /** Consuming takes eight events or as many as the limit says, or all if there are fewer, in the slots given first and then
      in order of arrival; of these it handles and takes off those whose accounts were passed along. */
  lemma ConsumesFirst(ex: Exchange, claims: map<ClaimId, Claim>, remaining: set<Pubkey>, limit: nat, slots: seq<nat>)
    requires Good(ex, claims, 0, 0)
    ensures var r, heap := ConsumeEvents(ex, remaining, limit, slots), ex.orders.heap;
            && (InHeapRange(heap, slots) ==> r.Ok?)
            && (r.Ok? ==>
                  && OnlyPassed(ex, r.value, remaining)
                  && exists n: nat, picked :: IsFront(heap, slots + heap.order, n, picked) && NoDuplicates(picked)
                       && |picked| == Min(Min(limit, 8), |heap.order|) && TakesOff(heap, r.value.orders.heap, remaining, picked))
  {
    hide *;
    var heap, k := ex.orders.heap, Min(limit, 8);
    MinIsNat(limit);
    GoodParts(ex, claims, 0, 0);
    ConsumeEventsIs(ex, remaining, limit, slots);
    NothingPicked(heap);
    PickOk(heap, slots + heap.order, [], k);
    PickedAreFirst(heap, slots, k);
    AllInRange(ex, claims, slots);
    var picked := Pick(heap, slots + heap.order, [], k);
    if picked.Ok? {
      PickedDistinct(heap, picked.value);
      var _ := ConsumeKeeps(ex, claims, remaining, picked.value);
      ConsumeTouches(ex, remaining, picked.value);
      HandledAre(heap, remaining, picked.value);
      MakeTaken(heap, ConsumeSlots(ex, remaining, picked.value).value.orders.heap, remaining, picked.value);
    }
  }

  lemma MinIsNat(limit: nat)
    ensures 0 <= Min(limit, 8)
  {
  }

  lemma NothingPicked(heap: HeapModel)
    ensures Picked(heap, [])
  {
  }

  lemma PickedDistinct(heap: HeapModel, s: seq<nat>)
    requires Picked(heap, s)
    ensures NoDuplicates(s)
  {
  }

  lemma ConsumeEventsIs(ex: Exchange, remaining: set<Pubkey>, limit: nat, slots: seq<nat>)
    ensures var picked := Pick(ex.orders.heap, slots + ex.orders.heap.order, [], Min(limit, 8));
            ConsumeEvents(ex, remaining, limit, slots)
            == if picked.Err? then Err(picked.error) else ConsumeSlots(ex, remaining, picked.value)
  {
    hide Pick, ConsumeSlots;
  }

  lemma AllInRange(ex: Exchange, claims: map<ClaimId, Claim>, slots: seq<nat>)
    requires Good(ex, claims, 0, 0)
    ensures InHeapRange(ex.orders.heap, slots) ==> InHeapRange(ex.orders.heap, slots + ex.orders.heap.order)
    ensures ex.orders.heap.Ok()
  {
    GoodParts(ex, claims, 0, 0);
    hide Good, NoDuplicates;
  }

  lemma MakeTaken(heap: HeapModel, heap': HeapModel, remaining: set<Pubkey>, picked: seq<nat>)
    requires heap'.pending == heap.pending - (set s | s in Handled(heap, remaining, picked))
    requires forall s :: s in Handled(heap, remaining, picked) <==>
               s in picked && s in heap.pending && heap.pending[s].For() in remaining
    ensures TakesOff(heap, heap', remaining, picked)
  {
  }
}
