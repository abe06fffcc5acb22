/** Pending events commute: whatever the order in which they are consumed, the result is the same. */
module EventsCommute {
  import opened Types
  import opened Markets
  import opened Accounts
  import opened Ledgers
  import opened BookSideModels
  import opened EventHeaps
  import opened Exchanges
  import opened ExchangeInvariants
  import opened ExchangeSteps
  import opened Instructions
  import opened InstructionEvents

  /** Everything but the order of the heap's slots. */
  datatype Core = Core(market: Market, accounts: map<Pubkey, Account>, bids: BookSideModel, asks: BookSideModel,
                       pending: map<nat, Event>)

  function CoreOf(ex: Exchange): Core {
    Core(ex.market, ex.accounts, ex.orders.bids, ex.orders.asks, ex.orders.heap.pending)
  }

  // ---------- on one account ----------

  /** What an event does to its account. */
  function Credited(c: Config, a: Account, e: Event): Account {
    if e.Fill? then (if e.makerSlot < |a.slots| then ExecuteMaker(c, a, e) else a)
    else if e.ownerSlot < |a.slots| then CancelOrder(c, a, e.ownerSlot, e.quantity) else a
  }

  /** The event frees a slot: it ends an order. */
  predicate EndsOrder(e: Event) { e.Fill? ==> e.makerOut }

  function SlotOf(e: Event): nat { if e.Fill? then e.makerSlot else e.ownerSlot }

  /** Two events of an account that do not end the same order commute. */
  lemma CreditsCommute(c: Config, a: Account, e: Event, f: Event)
    requires EndsOrder(e) && EndsOrder(f) ==> SlotOf(e) != SlotOf(f)
    ensures Credited(c, Credited(c, a, e), f) == Credited(c, Credited(c, a, f), e)
  {
    hide AmountsOfFill, MakerFeesCeil;
    match (e, f) {
      case (Fill(_, _, _, _, _, _, _, _), Fill(_, _, _, _, _, _, _, _)) => FillsCommute(c, a, e, f);
      case (Fill(_, _, _, _, _, _, _, _), Out(_, _, _, _)) => FillAndOutCommute(c, a, e, f);
      case (Out(_, _, _, _), Fill(_, _, _, _, _, _, _, _)) => FillAndOutCommute(c, a, f, e);
      case (Out(_, _, _, _), Out(_, _, _, _)) => OutsCommute(c, a, e, f);
    }
  }

  /** What a fill does to a position, when the maker's slot is on the given side. */
  function MakerPosition(c: Config, p: Position, side: Side, f: Event): Position
    requires f.Fill?
  {
    var m := AmountsOfFill(c, f);
    var base, quote := f.quantity * c.baseLotSize, f.quantity * m.lockedPrice;
    var bid, isBid := MakerSide(f).Bid?, if f.makerOut then side.Bid? else MakerSide(f).Bid?;
    p.(baseFree := p.baseFree + (if bid then base else 0),
       quoteFree := p.quoteFree + (if bid then m.makerRebate + m.lockedAboveFillPrice
                                   else m.quoteNative + m.makerRebate - m.makerFees),
       lockedMakerFees := p.lockedMakerFees - (if bid then m.lockedMakerFees else 0),
       referrerRebates := p.referrerRebates + m.makerFees,
       bidsBaseLots := p.bidsBaseLots - (if isBid then f.quantity else 0),
       bidsQuoteLots := p.bidsQuoteLots - (if isBid then quote else 0),
       asksBaseLots := p.asksBaseLots - (if isBid then 0 else f.quantity))
  }

  function SlotsAfter(slots: seq<OpenOrder>, f: Event): seq<OpenOrder>
    requires f.Fill? && f.makerSlot < |slots|
  {
    if f.makerOut then slots[f.makerSlot := FreeOrder] else slots
  }

  lemma MakerIs(c: Config, a: Account, f: Event)
    requires f.Fill? && f.makerSlot < |a.slots|
    ensures ExecuteMaker(c, a, f) == Account(MakerPosition(c, a.position, a.slots[f.makerSlot].side, f), SlotsAfter(a.slots, f))
  {
    hide AmountsOfFill;
  }

  lemma PositionsCommute(c: Config, p: Position, s: Side, t: Side, e: Event, f: Event)
    requires e.Fill? && f.Fill?
    ensures MakerPosition(c, MakerPosition(c, p, s, e), t, f) == MakerPosition(c, MakerPosition(c, p, t, f), s, e)
  {
    hide AmountsOfFill;
  }

  /** A fill that keeps the order does not look at the slot's side. */
  lemma SideNotAsked(c: Config, p: Position, s: Side, t: Side, f: Event)
    requires f.Fill? && !f.makerOut
    ensures MakerPosition(c, p, s, f) == MakerPosition(c, p, t, f)
  {
  }

  lemma FillsCommute(c: Config, a: Account, e: Event, f: Event)
    requires e.Fill? && f.Fill? && (e.makerOut && f.makerOut ==> e.makerSlot != f.makerSlot)
    ensures Credited(c, Credited(c, a, e), f) == Credited(c, Credited(c, a, f), e)
  {
    hide MakerPosition, ExecuteMaker;
    if e.makerSlot < |a.slots| {
      MakerIs(c, a, e);
      if f.makerSlot < |a.slots| {
        var b, d := ExecuteMaker(c, a, e), ExecuteMaker(c, a, f);
        MakerIs(c, a, f);
        MakerIs(c, b, f);
        MakerIs(c, d, e);
        var s, t := a.slots[e.makerSlot].side, a.slots[f.makerSlot].side;
        PositionsCommute(c, a.position, s, t, e, f);
        if !f.makerOut { SideNotAsked(c, b.position, t, b.slots[f.makerSlot].side, f); }
        if !e.makerOut { SideNotAsked(c, d.position, s, d.slots[e.makerSlot].side, e); }
        assert SlotsAfter(b.slots, f) == SlotsAfter(d.slots, e);
      }
    } else if f.makerSlot < |a.slots| {
      MakerIs(c, a, f);
    }
  }

  lemma FillAndOutCommute(c: Config, a: Account, e: Event, f: Event)
    requires e.Fill? && f.Out? && (e.makerOut ==> e.makerSlot != f.ownerSlot)
    ensures Credited(c, Credited(c, a, e), f) == Credited(c, Credited(c, a, f), e)
  {
    hide AmountsOfFill, MakerFeesCeil;
    if e.makerSlot < |a.slots| && f.ownerSlot < |a.slots| && e.makerOut {
      assert a.slots[e.makerSlot := FreeOrder][f.ownerSlot := FreeOrder] == a.slots[f.ownerSlot := FreeOrder][e.makerSlot := FreeOrder];
    }
  }

  lemma OutsCommute(c: Config, a: Account, e: Event, f: Event)
    requires e.Out? && f.Out? && e.ownerSlot != f.ownerSlot
    ensures Credited(c, Credited(c, a, e), f) == Credited(c, Credited(c, a, f), e)
  {
    hide MakerFeesCeil;
    if e.ownerSlot < |a.slots| && f.ownerSlot < |a.slots| {
      assert a.slots[e.ownerSlot := FreeOrder][f.ownerSlot := FreeOrder] == a.slots[f.ownerSlot := FreeOrder][e.ownerSlot := FreeOrder];
    }
  }

  // ---------- on the market ----------

  function FeesOf(c: Config, e: Event): int { if e.Fill? then AmountsOfFill(c, e).makerFees else 0 }

  /** The core after an event is consumed. */
  function After(k: Core, slot: nat): Core {
    if slot !in k.pending || k.pending[slot].For() !in k.accounts then k
    else
      var e := k.pending[slot];
      k.(market := k.market.(referrerRebatesAccrued := k.market.referrerRebatesAccrued + FeesOf(k.market.config, e)),
         accounts := k.accounts[e.For() := Credited(k.market.config, k.accounts[e.For()], e)],
         pending := k.pending - {slot})
  }

  function AfterAll(k: Core, slots: seq<nat>): Core
    decreases |slots|
  {
    if slots == [] then k else AfterAll(After(k, slots[0]), slots[1..])
  }

  /** No two pending events end the same order. */
  ghost predicate Apart(pending: map<nat, Event>) {
    forall s, t :: s in pending && t in pending && s != t && EndsOrder(pending[s]) && EndsOrder(pending[t]) ==>
      pending[s].For() != pending[t].For() || SlotOf(pending[s]) != SlotOf(pending[t])
  }

  lemma TwoCommute(k: Core, s: nat, t: nat)
    requires Apart(k.pending) && s in k.pending && t in k.pending && s != t
    ensures After(After(k, s), t) == After(After(k, t), s)
  {
    var c, e, f := k.market.config, k.pending[s], k.pending[t];
    hide Credited, FeesOf, EndsOrder, SlotOf;
    assert k.pending - {s} - {t} == k.pending - {t} - {s};
    if e.For() in k.accounts && f.For() in k.accounts {
      var m, n := k.accounts, e.For();
      if e.For() == f.For() {
        CreditsCommute(c, k.accounts[e.For()], e, f);
        assert m[n := Credited(c, m[n], e)][n := Credited(c, Credited(c, m[n], e), f)] == m[n := Credited(c, Credited(c, m[n], e), f)];
        assert m[n := Credited(c, m[n], f)][n := Credited(c, Credited(c, m[n], f), e)] == m[n := Credited(c, Credited(c, m[n], f), e)];
      } else {
        assert m[n := Credited(c, m[n], e)][f.For() := Credited(c, m[f.For()], f)]
            == m[f.For() := Credited(c, m[f.For()], f)][n := Credited(c, m[n], e)];
      }
    }
  }

  lemma ApartAfter(k: Core, s: nat)
    requires Apart(k.pending)
    ensures Apart(After(k, s).pending)
    ensures forall t :: t != s && t in k.pending ==> t in After(k, s).pending
  {
  }

  ghost predicate Distinct(k: Core, s: seq<nat>) { NoDuplicates(s) && forall x :: x in s ==> x in k.pending }

  lemma DistinctTail(k: Core, s: seq<nat>)
    requires Distinct(k, s) && s != [] && Apart(k.pending)
    ensures Distinct(After(k, s[0]), s[1..]) && s[0] in k.pending && s[0] !in s[1..]
  {
    ApartAfter(k, s[0]);
  }

  /** An event can as well be consumed first. */
  lemma {:induction false} MoveToFront(k: Core, s: seq<nat>, i: nat)
    requires Apart(k.pending) && Distinct(k, s) && i < |s|
    ensures AfterAll(k, s) == AfterAll(k, [s[i]] + s[..i] + s[i + 1..])
    decreases i
  {
    if i > 0 {
      hide Distinct, After;
      var rest := s[1..];
      DistinctTail(k, s);
      ApartAfter(k, s[0]);
      MoveToFront(After(k, s[0]), rest, i - 1);
      DistinctAt(k, s, i);
      TwoCommute(k, s[0], s[i]);
      var t := [s[i]] + s[..i] + s[i + 1..];
      assert [rest[i - 1]] + rest[..i - 1] + rest[i..] == [s[i]] + s[1..i] + s[i + 1..];
      var u := [s[i]] + s[1..i] + s[i + 1..];
      assert u[1..] == s[1..i] + s[i + 1..];
      assert t[0] == s[i] && t[1..] == s[..i] + s[i + 1..];
      assert t[1..][0] == s[0] && t[1..][1..] == s[1..i] + s[i + 1..];
    } else {
      assert [s[0]] + s[..0] + s[1..] == s;
    }
  }

  lemma DistinctAt(k: Core, s: seq<nat>, i: nat)
    requires Distinct(k, s) && 0 < i < |s|
    ensures s[0] in k.pending && s[i] in k.pending && s[0] != s[i]
  {
  }

  /** The same events in another order. */
  ghost predicate SameMembers(s: seq<nat>, t: seq<nat>) { forall x :: x in s <==> x in t }

  lemma Dropped(k: Core, s: seq<nat>, t: seq<nat>, i: nat)
    requires Distinct(k, s) && Distinct(k, t) && SameMembers(s, t) && t != [] && i < |s| && s[i] == t[0] && Apart(k.pending)
    ensures Distinct(After(k, t[0]), s[..i] + s[i + 1..]) && SameMembers(s[..i] + s[i + 1..], t[1..])
  {
    CutOut(s, i);
    ApartAfter(k, t[0]);
    assert t[0] !in t[1..];
    assert forall x :: x in t <==> x == t[0] || x in t[1..];
  }

  /** Draining events in any order reaches the same accounts, slots, counters and books. */
  lemma {:induction false} AnyOrder(k: Core, s: seq<nat>, t: seq<nat>)
    requires Apart(k.pending) && Distinct(k, s) && Distinct(k, t) && SameMembers(s, t)
    ensures AfterAll(k, s) == AfterAll(k, t)
    decreases |t|
  {
    if t == [] {
      assert s == [] by { if s != [] { HeadIsIn(s); } }
    } else {
      assert t[0] in t;
      var i :| 0 <= i < |s| && s[i] == t[0];
      MoveToFront(k, s, i);
      var rest := s[..i] + s[i + 1..];
      Dropped(k, s, t, i);
      hide Distinct, SameMembers, After;
      ApartAfter(k, t[0]);
      assert [s[i]] + s[..i] + s[i + 1..] == [t[0]] + rest;
      assert ([t[0]] + rest)[1..] == rest;
      AnyOrder(After(k, t[0]), rest, t[1..]);
    }
  }

  // ---------- the instruction ----------

  lemma PendingIsApart(ex: Exchange, claims: map<ClaimId, Claim>)
    requires Good(ex, claims, 0, 0)
    ensures Apart(ex.orders.heap.pending)
    ensures forall s :: s in ex.orders.heap.pending ==> ex.orders.heap.pending[s].For() in ex.accounts
  {
    hide *;
    GoodParts(ex, claims, 0, 0);
    InvParts(Ledger(ex.market, ex.accounts, claims), 0, 0);
    var pending := ex.orders.heap.pending;
    forall s | s in pending
      ensures pending[s].For() in ex.accounts && InHeap(s) in claims && HoldsFor(pending[s], claims[InHeap(s)])
    {
      PendingHolds(ex.orders, ex.accounts, claims, s);
    }
    HoldersApart(pending, claims);
  }

  /** The claim is on the order that the event is about, and still holds its slot if the event ends the order. */
  predicate HoldsFor(e: Event, x: Claim) {
    x.owner == e.For() && x.slot == SlotOf(e) && (EndsOrder(e) ==> x.HoldsSlot())
  }

  lemma PendingHolds(o: Orders, accounts: map<Pubkey, Account>, claims: map<ClaimId, Claim>, s: nat)
    requires Tally(o, claims) && ClaimsOk(accounts, claims) && s in o.heap.pending
    ensures InHeap(s) in claims && HoldsFor(o.heap.pending[s], claims[InHeap(s)]) && o.heap.pending[s].For() in accounts
  {
    PendingClaim(o, claims, s);
    hide Tally;
    assert ClaimOk(accounts, claims[InHeap(s)]);
  }

  lemma HoldersApart(pending: map<nat, Event>, claims: map<ClaimId, Claim>)
    requires Exclusive(claims)
    requires forall s :: s in pending ==> InHeap(s) in claims && HoldsFor(pending[s], claims[InHeap(s)])
    ensures Apart(pending)
  {
    hide EndsOrder, SlotOf;
  }

  /** What consuming one event does to the core. */
  lemma ConsumeIsAfter(ex: Exchange, claims: map<ClaimId, Claim>, remaining: set<Pubkey>, slot: nat)
    requires Good(ex, claims, 0, 0) && slot in ex.orders.heap.pending && ex.orders.heap.pending[slot].For() in remaining
    ensures var r := ConsumeSlot(ex, remaining, slot);
            r.Ok? && CoreOf(r.value) == After(CoreOf(ex), slot) && Good(r.value, claims - {InHeap(slot)}, 0, 0)
  {
    hide Good, SameFrame;
    HandleKeeps(ex, claims, slot);
    ConsumeSlotIs(ex, remaining, slot);
    hide ExecuteMaker, CancelOrder, AmountsOfFill;
  }

  lemma ConsumeSlotHeap(ex: Exchange, claims: map<ClaimId, Claim>, remaining: set<Pubkey>, slot: nat)
    requires Good(ex, claims, 0, 0) && slot in ex.orders.heap.pending && ex.orders.heap.pending[slot].For() in remaining
    ensures ConsumeSlot(ex, remaining, slot).Ok?
    ensures ConsumeSlot(ex, remaining, slot).value.orders.heap == ex.orders.heap.Delete(slot)
    ensures ex.orders.heap.Delete(slot).pending == ex.orders.heap.pending - {slot}
  {
    hide Good, SameFrame;
    HandleKeeps(ex, claims, slot);
    ConsumeSlotIs(ex, remaining, slot);
    hide HandleEvent;
  }

  /** Consuming events: those whose accounts were passed along are handled, the others are skipped. */
  lemma {:induction false} ConsumeIsAfterAll(ex: Exchange, claims: map<ClaimId, Claim>, remaining: set<Pubkey>, slots: seq<nat>)
    requires Good(ex, claims, 0, 0) && Picked(ex.orders.heap, slots)
    ensures var r := ConsumeSlots(ex, remaining, slots);
            r.Ok? && CoreOf(r.value) == AfterAll(CoreOf(ex), Handled(ex.orders.heap, remaining, slots))
    decreases |slots|
  {
    hide Good, Picked, ConsumeSlot, After, HeapModel.Delete;
    if slots != [] {
      var heap, slot := ex.orders.heap, slots[0];
      TailPicked(heap, slots);
      ConsumeSlotIs(ex, remaining, slot);
      hide HandleEvent;
      if heap.pending[slot].For() in remaining {
        ConsumeIsAfter(ex, claims, remaining, slot);
        ConsumeSlotHeap(ex, claims, remaining, slot);
        var ex1 := ConsumeSlot(ex, remaining, slot).value;
        HandledAfter(heap, remaining, slots[1..], slot);
        ConsumeIsAfterAll(ex1, claims - {InHeap(slot)}, remaining, slots[1..]);
        var rest := Handled(heap, remaining, slots[1..]);
        assert ([slot] + rest)[1..] == rest;
      } else {
        ConsumeIsAfterAll(ex, claims, remaining, slots[1..]);
      }
    }
  }

  /** The events handled are those of the slots whose accounts were passed along. */
  lemma {:induction false} HandledAre(heap: HeapModel, remaining: set<Pubkey>, slots: seq<nat>)
    requires Picked(heap, slots)
    ensures forall x :: x in Handled(heap, remaining, slots) <==> x in slots && heap.pending[x].For() in remaining
    ensures Picked(heap, Handled(heap, remaining, slots))
  {
    if slots != [] {
      TailPicked(heap, slots);
      HandledAre(heap, remaining, slots[1..]);
      var rest := Handled(heap, remaining, slots[1..]);
      assert forall x :: x in slots <==> x == slots[0] || x in slots[1..];
      if heap.pending[slots[0]].For() in remaining { Appended(rest, slots[0]); }
    }
  }

  lemma {:induction false} LeftOfSame(order: seq<nat>, a: seq<nat>, b: seq<nat>)
    requires SameMembers(a, b)
    ensures Left(order, a) == Left(order, b)
  {
    if order != [] { LeftOfSame(order[1..], a, b); }
  }

  /** Consuming the same slots in two orders, whoever's accounts were passed along, leads to the same accounts, vault totals
      and books, and leaves the same events in the same order. Only the order in which free slots are used again may differ. */
  lemma ConsumingCommutes(ex: Exchange, claims: map<ClaimId, Claim>, remaining: set<Pubkey>, s: seq<nat>, t: seq<nat>)
    requires Good(ex, claims, 0, 0) && Picked(ex.orders.heap, s) && Picked(ex.orders.heap, t) && SameMembers(s, t)
    ensures var (r, q) := (ConsumeSlots(ex, remaining, s), ConsumeSlots(ex, remaining, t));
            && r.Ok? && q.Ok? && CoreOf(r.value) == CoreOf(q.value)
            && r.value.orders.heap.order == q.value.orders.heap.order
  {
    var heap := ex.orders.heap;
    var hs, ht := Handled(heap, remaining, s), Handled(heap, remaining, t);
    HandledAre(heap, remaining, s);
    HandledAre(heap, remaining, t);
    assert SameMembers(hs, ht);
    PickedIsDistinct(ex, hs);
    PickedIsDistinct(ex, ht);
    hide *;
    PendingIsApart(ex, claims);
    ConsumeIsAfterAll(ex, claims, remaining, s);
    ConsumeIsAfterAll(ex, claims, remaining, t);
    CorePending(ex);
    AnyOrder(CoreOf(ex), hs, ht);
    var _ := ConsumeKeeps(ex, claims, remaining, s);
    var _ := ConsumeKeeps(ex, claims, remaining, t);
    LeftOfSame(heap.order, hs, ht);
  }

  lemma CorePending(ex: Exchange)
    ensures CoreOf(ex).pending == ex.orders.heap.pending
  {
  }

  lemma PickedIsDistinct(ex: Exchange, s: seq<nat>)
    requires Picked(ex.orders.heap, s)
    ensures Distinct(CoreOf(ex), s)
  {
  }
}
