/** The event heap: used nodes in a circular doubly-linked list, free nodes in a singly-linked one, in one array. */
module EventHeaps {
  import opened Types

  const NO_NODE: nat := 0xFFFF

  /** What the heap is for its users: the events by slot, the slots in order of arrival, the slots to be used next. */
  datatype HeapModel = HeapModel(pending: map<nat, Event>, order: seq<nat>, free: seq<nat>)
  {
    predicate IsFull() { free == [] }

    function Push(e: Event): HeapModel
      requires !IsFull()
    {
      HeapModel(pending[free[0] := e], order + [free[0]], free[1..])
    }

    function Delete(slot: nat): HeapModel {
      HeapModel(pending - {slot}, Without(order, slot), [slot] + free)
    }

    ghost predicate InRange(slots: seq<nat>) { forall slot :: slot in slots ==> slot < |order| + |free| }

    /** The order lists the slots that have events, each once; no slot is both used and free, and all are within the heap. */
    ghost predicate Ok() {
      && NoDuplicates(order) && NoDuplicates(free)
      && InRange(order) && InRange(free)
      && (forall slot :: slot in order <==> slot in pending)
      && (forall slot :: slot in free ==> slot !in pending)
    }
  }

  /** All slots, in their own order. */
  function Upto(n: nat): (s: seq<nat>)
    ensures |s| == n && forall i :: 0 <= i < n ==> s[i] == i
  {
    seq(n, i => i)
  }

  ghost predicate NoDuplicates(s: seq<nat>) { forall i, j :: 0 <= i < j < |s| ==> s[i] != s[j] }

  lemma HeadIsIn(s: seq<nat>)
    requires s != []
    ensures s[0] in s
  {
  }

  /** The sequence without its first `x`. */
  function Without(s: seq<nat>, x: nat): seq<nat> {
    if s == [] then [] else if s[0] == x then s[1..] else [s[0]] + Without(s[1..], x)
  }

  lemma {:induction false} WithoutAt(s: seq<nat>, k: nat)
    requires NoDuplicates(s) && k < |s|
    ensures Without(s, s[k]) == s[..k] + s[k + 1..]
  {
    if k > 0 {
      WithoutAt(s[1..], k - 1);
      assert s[..k] == [s[0]] + s[1..][..k - 1];
    }
  }

  /** Taking out position `k` of a list without duplicates. */
  lemma CutOut(s: seq<nat>, k: nat)
    requires NoDuplicates(s) && k < |s|
    ensures NoDuplicates(s[..k] + s[k + 1..])
    ensures forall x :: x in s[..k] + s[k + 1..] <==> x in s && x != s[k]
  {
    var t := s[..k] + s[k + 1..];
    forall i, j | 0 <= i < j < |t|
      ensures t[i] != t[j]
    {
      assert t[i] == s[if i < k then i else i + 1] && t[j] == s[if j < k then j else j + 1];
    }
    forall x | x in s && x != s[k]
      ensures x in t
    {
      var i :| 0 <= i < |s| && s[i] == x;
      assert t[if i < k then i else i - 1] == x;
    }
  }

  lemma Appended(s: seq<nat>, x: nat)
    requires NoDuplicates(s) && x !in s
    ensures NoDuplicates(s + [x]) && NoDuplicates([x] + s)
    ensures forall y :: y in s + [x] <==> y in s || y == x
    ensures forall y :: y in [x] + s <==> y in s || y == x
  {
  }

  /** Pushing and deleting keep the model in order. */
  lemma PushOk(m: HeapModel, e: Event)
    requires m.Ok() && !m.IsFull()
    ensures m.Push(e).Ok()
  {
    assert m.free[0] in m.free;
    Appended(m.order, m.free[0]);
    TailIsIn(m.free);
  }

  lemma TailIsIn(s: seq<nat>)
    requires s != []
    ensures forall x :: x in s[1..] ==> x in s
  {
  }

  lemma WithoutOk(s: seq<nat>, x: nat)
    requires NoDuplicates(s) && x in s
    ensures NoDuplicates(Without(s, x))
    ensures forall y :: y in Without(s, x) <==> y in s && y != x
  {
    var k :| 0 <= k < |s| && s[k] == x;
    WithoutAt(s, k);
    CutOut(s, k);
  }

  lemma DeleteOk(m: HeapModel, slot: nat)
    requires m.Ok() && slot in m.pending
    ensures m.Delete(slot).Ok()
    ensures forall x :: x in m.Delete(slot).order <==> x in m.order && x != slot
  {
    hide NoDuplicates, Without;
    WithoutOk(m.order, slot);
    WithoutLength(m.order, slot);
    Appended(m.free, slot);
  }

  lemma {:induction false} WithoutLength(s: seq<nat>, x: nat)
    requires x in s
    ensures |Without(s, x)| == |s| - 1
  {
    if s[0] != x { WithoutLength(s[1..], x); }
  }

  lemma {:induction false} WithoutLast(s: seq<nat>, x: nat)
    requires x !in s
    ensures Without(s + [x], x) == s
  {
    if s == [] {
      assert s + [x] == [x];
    } else {
      WithoutLast(s[1..], x);
      assert (s + [x])[1..] == s[1..] + [x];
    }
  }

  /** An event that is pushed and taken off at once leaves the heap as it was. */
  lemma PushDelete(m: HeapModel, e: Event)
    requires m.Ok() && !m.IsFull()
    ensures m.Push(e).Delete(m.free[0]) == m
  {
    HeadIsIn(m.free);
    hide NoDuplicates, Without;
    WithoutLast(m.order, m.free[0]);
    assert m.pending[m.free[0] := e] - {m.free[0]} == m.pending;
  }

  // ---------- linked nodes ----------

  datatype EventNode = EventNode(next: nat, prev: nat, event: Event) {
    predicate IsFree() { prev == NO_NODE }
  }

  datatype Header = Header(freeHead: nat, usedHead: nat, count: nat, seqNum: nat)

  function After(n: nat, i: nat): nat { if i + 1 >= n then 0 else i + 1 }

  function Ahead(n: nat, i: nat): nat { if i == 0 then if n == 0 then 0 else n - 1 else i - 1 }

  /** The i-th used node is linked to both neighbours on the circle. */
  ghost predicate OnCircle(ns: seq<EventNode>, order: seq<nat>, i: nat)
    requires i < |order|
  {
    && order[i] < |ns|
    && After(|order|, i) < |order| && Ahead(|order|, i) < |order|
    && ns[order[i]].next == order[After(|order|, i)]
    && ns[order[i]].prev == order[Ahead(|order|, i)]
  }

  /** The i-th free node is linked to the next one. */
  ghost predicate OnFreeList(ns: seq<EventNode>, free: seq<nat>, i: nat)
    requires i < |free|
  {
    && free[i] < |ns| && ns[free[i]].IsFree()
    && ns[free[i]].next == if i + 1 < |free| then free[i + 1] else NO_NODE
  }

  ghost predicate HeapOk(ns: seq<EventNode>, h: Header, order: seq<nat>, free: seq<nat>) {
    && |ns| < NO_NODE
    && h.count == |order|
    && |order| + |free| == |ns|
    && h.usedHead == (if order == [] then NO_NODE else order[0])
    && h.freeHead == (if free == [] then NO_NODE else free[0])
    && NoDuplicates(order) && NoDuplicates(free)
    && (forall i :: 0 <= i < |order| ==> OnCircle(ns, order, i))
    && (forall i :: 0 <= i < |free| ==> OnFreeList(ns, free, i))
    && (forall slot :: 0 <= slot < |ns| ==> slot in order || slot in free)
  }

  ghost function EventsOf(ns: seq<EventNode>, order: seq<nat>): map<nat, Event> {
    map slot | slot in order && slot < |ns| :: ns[slot].event
  }

  ghost function ModelOf(ns: seq<EventNode>, order: seq<nat>, free: seq<nat>): HeapModel {
    HeapModel(EventsOf(ns, order), order, free)
  }

  /** A slot is free exactly when its `prev` says so. */
  lemma FreeSlots(ns: seq<EventNode>, h: Header, order: seq<nat>, free: seq<nat>, slot: nat)
    requires HeapOk(ns, h, order, free) && slot < |ns|
    ensures ns[slot].IsFree() <==> slot in free
    ensures ns[slot].IsFree() <==> slot !in order
  {
    if slot in order {
      var i :| 0 <= i < |order| && order[i] == slot;
      assert OnCircle(ns, order, i) && OnCircle(ns, order, Ahead(|order|, i));
    }
    if slot in free {
      var i :| 0 <= i < |free| && free[i] == slot;
      assert OnFreeList(ns, free, i);
    }
  }

  lemma HeapModelOk(ns: seq<EventNode>, h: Header, order: seq<nat>, free: seq<nat>)
    requires HeapOk(ns, h, order, free)
    ensures ModelOf(ns, order, free).Ok()
  {
    forall slot | slot in order
      ensures slot < |ns|
    {
      var i :| 0 <= i < |order| && order[i] == slot;
      assert OnCircle(ns, order, i);
    }
    forall slot | slot in free
      ensures slot !in EventsOf(ns, order) && slot < |ns|
    {
      var i :| 0 <= i < |free| && free[i] == slot;
      assert OnFreeList(ns, free, i);
      FreeSlots(ns, h, order, free, slot);
    }
  }

  // ---------- pushing ----------

  /** The nodes after `push_back` has written them. */
  function Linked(ns: seq<EventNode>, slot: nat, newNext: nat, newPrev: nat, e: Event): seq<EventNode>
    requires slot < |ns| && newNext < |ns| && newPrev < |ns|
  {
    var a := ns[newPrev := ns[newPrev].(next := slot)];
    var b := a[newNext := a[newNext].(prev := slot)];
    b[slot := EventNode(newNext, newPrev, e)]
  }

  /** The place of a slot in a list without duplicates is unique. */
  lemma SamePlace(s: seq<nat>, i: nat, j: nat)
    requires NoDuplicates(s) && i < |s| && j < |s|
    ensures s[i] == s[j] <==> i == j
  {
  }

  lemma PushCircle(ns: seq<EventNode>, order: seq<nat>, slot: nat, e: Event, i: nat)
    requires NoDuplicates(order) && forall k :: 0 <= k < |order| ==> OnCircle(ns, order, k)
    requires slot < |ns| && slot !in order && i <= |order|
    ensures var newNext := if order == [] then slot else order[0];
            var newPrev := if order == [] then slot else order[|order| - 1];
            && newNext < |ns| && newPrev < |ns|
            && OnCircle(Linked(ns, slot, newNext, newPrev, e), order + [slot], i)
  {
    if order != [] {
      assert OnCircle(ns, order, 0) && OnCircle(ns, order, |order| - 1);
      if i < |order| {
        assert OnCircle(ns, order, i) && order[i] in order;
        SamePlace(order, i, 0);
        SamePlace(order, i, |order| - 1);
      }
    }
  }

  lemma PushFree(ns: seq<EventNode>, ns': seq<EventNode>, free: seq<nat>)
    requires NoDuplicates(free) && free != [] && |ns'| == |ns|
    requires forall i :: 0 <= i < |free| ==> OnFreeList(ns, free, i)
    requires forall i :: 0 < i < |free| && free[i] < |ns| ==> ns'[free[i]] == ns[free[i]]
    ensures forall i :: 0 <= i < |free[1..]| ==> OnFreeList(ns', free[1..], i)
    ensures NoDuplicates(free[1..])
    ensures free[0] < |ns| && ns[free[0]].next == if |free| > 1 then free[1] else NO_NODE
  {
    assert OnFreeList(ns, free, 0);
    forall i | 0 <= i < |free[1..]|
      ensures OnFreeList(ns', free[1..], i)
    {
      assert OnFreeList(ns, free, i + 1);
    }
  }

  lemma PushOkNodes(ns: seq<EventNode>, h: Header, order: seq<nat>, free: seq<nat>, e: Event)
    requires HeapOk(ns, h, order, free) && free != []
    ensures var slot := free[0];
            slot < |ns| && slot !in order &&
            (order != [] ==> order[0] < |ns| && ns[order[0]].prev == order[|order| - 1]) &&
            var newNext := if order == [] then slot else order[0];
            var newPrev := if order == [] then slot else order[|order| - 1];
            newNext < |ns| && newPrev < |ns| &&
            var ns' := Linked(ns, slot, newNext, newPrev, e);
            && HeapOk(ns', Header(ns[slot].next, if order == [] then slot else h.usedHead, h.count + 1, h.seqNum + 1),
                      order + [slot], free[1..])
            && ModelOf(ns', order + [slot], free[1..]) == ModelOf(ns, order, free).Push(e)
  {
    hide Linked;
    var slot := free[0];
    assert OnFreeList(ns, free, 0);
    FreeSlots(ns, h, order, free, slot);
    if order != [] { assert OnCircle(ns, order, 0) && OnCircle(ns, order, |order| - 1); }
    var newNext := if order == [] then slot else order[0];
    var newPrev := if order == [] then slot else order[|order| - 1];
    var ns' := Linked(ns, slot, newNext, newPrev, e);
    LinkedElsewhere(ns, slot, newNext, newPrev, e);
    forall i | 0 <= i < |order + [slot]|
      ensures OnCircle(ns', order + [slot], i)
    {
      PushCircle(ns, order, slot, e, i);
    }
    PushedFree(ns, h, order, free, ns', newNext, newPrev);
    Appended(order, slot);
    PushedModel(ns, h, order, free, e, ns');
  }

  lemma LinkedElsewhere(ns: seq<EventNode>, slot: nat, newNext: nat, newPrev: nat, e: Event)
    requires slot < |ns| && newNext < |ns| && newPrev < |ns|
    ensures var ns' := Linked(ns, slot, newNext, newPrev, e);
            && |ns'| == |ns| && ns'[slot].event == e
            && (forall i :: 0 <= i < |ns| && i != slot && i != newNext && i != newPrev ==> ns'[i] == ns[i])
            && (forall i :: 0 <= i < |ns| && i != slot ==> ns'[i].event == ns[i].event)
  {
  }

  lemma PushedFree(ns: seq<EventNode>, h: Header, order: seq<nat>, free: seq<nat>, ns': seq<EventNode>, newNext: nat, newPrev: nat)
    requires HeapOk(ns, h, order, free) && free != [] && |ns'| == |ns|
    requires newNext == (if order == [] then free[0] else order[0])
    requires newPrev == (if order == [] then free[0] else order[|order| - 1])
    requires forall i :: 0 <= i < |ns| && i != free[0] && i != newNext && i != newPrev ==> ns'[i] == ns[i]
    ensures forall i :: 0 <= i < |free[1..]| ==> OnFreeList(ns', free[1..], i)
    ensures NoDuplicates(free[1..])
    ensures free[0] < |ns| && ns[free[0]].next == (if |free| > 1 then free[1] else NO_NODE)
    ensures forall slot :: 0 <= slot < |ns| ==> slot in order + [free[0]] || slot in free[1..]
  {
    forall i | 0 < i < |free|
      ensures free[i] < |ns| && free[i] != newNext && free[i] != newPrev
    {
      assert OnFreeList(ns, free, i);
      FreeSlots(ns, h, order, free, free[i]);
    }
    PushFree(ns, ns', free);
    forall slot | 0 <= slot < |ns|
      ensures slot in order + [free[0]] || slot in free[1..]
    {
      if slot in free {
        var i :| 0 <= i < |free| && free[i] == slot;
        if i > 0 { assert free[1..][i - 1] == slot; }
      }
    }
  }

  lemma PushedModel(ns: seq<EventNode>, h: Header, order: seq<nat>, free: seq<nat>, e: Event, ns': seq<EventNode>)
    requires HeapOk(ns, h, order, free) && free != [] && |ns'| == |ns| && free[0] < |ns|
    requires ns'[free[0]].event == e
    requires forall i :: 0 <= i < |ns| && i != free[0] ==> ns'[i].event == ns[i].event
    ensures ModelOf(ns', order + [free[0]], free[1..]) == ModelOf(ns, order, free).Push(e)
  {
    assert forall slot :: slot in order + [free[0]] <==> slot in order || slot == free[0];
    FreeSlots(ns, h, order, free, free[0]);
  }

  // ---------- deleting ----------

  /** The nodes after `delete_slot` has unlinked one. */
  function Unlinked(ns: seq<EventNode>, slot: nat, freeHead: nat): seq<EventNode>
    requires slot < |ns| && ns[slot].prev < |ns| && ns[slot].next < |ns|
  {
    var prev, next := ns[slot].prev, ns[slot].next;
    var a := ns[prev := ns[prev].(next := next)];
    var b := a[next := a[next].(prev := prev)];
    b[slot := EventNode(freeHead, NO_NODE, b[slot].event)]
  }

  /** Of the other nodes only the two neighbours get a new link each. */
  lemma UnlinkedLinks(ns: seq<EventNode>, slot: nat, freeHead: nat, x: nat)
    requires slot < |ns| && ns[slot].prev < |ns| && ns[slot].next < |ns| && x < |ns| && x != slot
    ensures var ns' := Unlinked(ns, slot, freeHead);
            && |ns'| == |ns|
            && ns'[x].next == (if x == ns[slot].prev then ns[slot].next else ns[x].next)
            && ns'[x].prev == (if x == ns[slot].next then ns[slot].prev else ns[x].prev)
  {
  }

  /** The position on the shorter circle that was position `i`. */
  function Shift(k: nat, i: nat): nat { if i < k then i else i + 1 }

  /** Neighbours on the circle without position `k` are the old neighbours, or the ones behind `k`. */
  lemma ShiftedNeighbours(n: nat, k: nat, i: nat)
    requires k < n && i < n - 1
    ensures var j := Shift(k, i);
            && j < n && j != k
            && Shift(k, After(n - 1, i)) == (if j == Ahead(n, k) then After(n, k) else After(n, j))
            && Shift(k, Ahead(n - 1, i)) == (if j == After(n, k) then Ahead(n, k) else Ahead(n, j))
            && After(n - 1, i) < n - 1 && Ahead(n - 1, i) < n - 1
  {
  }

  lemma ShiftedAt(s: seq<nat>, k: nat, i: nat)
    requires k < |s| && i < |s| - 1
    ensures (s[..k] + s[k + 1..])[i] == s[Shift(k, i)]
  {
  }

  lemma DeleteCircle(ns: seq<EventNode>, order: seq<nat>, k: nat, freeHead: nat, i: nat)
    requires NoDuplicates(order) && forall j :: 0 <= j < |order| ==> OnCircle(ns, order, j)
    requires k < |order| && i < |order| - 1
    requires order[k] < |ns| && ns[order[k]].prev < |ns| && ns[order[k]].next < |ns|
    ensures OnCircle(Unlinked(ns, order[k], freeHead), order[..k] + order[k + 1..], i)
  {
    var n, j := |order|, Shift(k, i);
    assert OnCircle(ns, order, k) && OnCircle(ns, order, j);
    ShiftedNeighbours(n, k, i);
    ShiftedAt(order, k, i);
    ShiftedAt(order, k, After(n - 1, i));
    ShiftedAt(order, k, Ahead(n - 1, i));
    SamePlace(order, j, After(n, k));
    SamePlace(order, j, Ahead(n, k));
    SamePlace(order, j, k);
    UnlinkedLinks(ns, order[k], freeHead, order[j]);
    hide Unlinked, NoDuplicates, Shift, After, Ahead;
  }

  lemma UnlinkedElsewhere(ns: seq<EventNode>, slot: nat, freeHead: nat)
    requires slot < |ns| && ns[slot].prev < |ns| && ns[slot].next < |ns|
    ensures var ns' := Unlinked(ns, slot, freeHead);
            && |ns'| == |ns| && ns'[slot] == EventNode(freeHead, NO_NODE, ns[slot].event)
            && (forall i :: 0 <= i < |ns| && i != slot && i != ns[slot].prev && i != ns[slot].next ==> ns'[i] == ns[i])
            && (forall i :: 0 <= i < |ns| ==> ns'[i].event == ns[i].event)
  {
  }

  lemma DeletedFree(ns: seq<EventNode>, h: Header, order: seq<nat>, free: seq<nat>, slot: nat, ns': seq<EventNode>)
    requires HeapOk(ns, h, order, free) && slot in order && slot < |ns| && |ns'| == |ns|
    requires ns[slot].prev in order && ns[slot].next in order
    requires ns'[slot].IsFree() && ns'[slot].next == h.freeHead
    requires forall i :: 0 <= i < |ns| && i != slot && i != ns[slot].prev && i != ns[slot].next ==> ns'[i] == ns[i]
    ensures forall i :: 0 <= i < |[slot] + free| ==> OnFreeList(ns', [slot] + free, i)
    ensures slot !in free
  {
    FreeSlots(ns, h, order, free, slot);
    forall i | 0 <= i < |[slot] + free|
      ensures OnFreeList(ns', [slot] + free, i)
    {
      if i > 0 {
        assert OnFreeList(ns, free, i - 1);
        FreeSlots(ns, h, order, free, free[i - 1]);
      }
    }
  }

  /** Where a used slot stands, and what its links say. */
  lemma UsedSlot(ns: seq<EventNode>, h: Header, order: seq<nat>, free: seq<nat>, slot: nat) returns (k: nat)
    requires HeapOk(ns, h, order, free) && slot < |ns| && !ns[slot].IsFree()
    ensures k < |order| && order[k] == slot
    ensures ns[slot].prev < |ns| && ns[slot].next < |ns| && ns[slot].prev in order && ns[slot].next in order
    ensures h.usedHead == slot <==> k == 0
    ensures k == 0 && |order| > 1 ==> ns[slot].next == order[1]
  {
    FreeSlots(ns, h, order, free, slot);
    k :| 0 <= k < |order| && order[k] == slot;
    assert OnCircle(ns, order, k) && OnCircle(ns, order, After(|order|, k)) && OnCircle(ns, order, Ahead(|order|, k));
    SamePlace(order, 0, k);
  }

  lemma DeletedCircle(ns: seq<EventNode>, order: seq<nat>, k: nat, freeHead: nat)
    requires NoDuplicates(order) && forall j :: 0 <= j < |order| ==> OnCircle(ns, order, j)
    requires k < |order| && order[k] < |ns| && ns[order[k]].prev < |ns| && ns[order[k]].next < |ns|
    ensures var order' := order[..k] + order[k + 1..];
            forall i :: 0 <= i < |order'| ==> OnCircle(Unlinked(ns, order[k], freeHead), order', i)
  {
    hide OnCircle, NoDuplicates, Unlinked;
    var order' := order[..k] + order[k + 1..];
    forall i | 0 <= i < |order'|
      ensures OnCircle(Unlinked(ns, order[k], freeHead), order', i)
    {
      DeleteCircle(ns, order, k, freeHead, i);
    }
  }

  lemma DeleteOkNodes(ns: seq<EventNode>, h: Header, order: seq<nat>, free: seq<nat>, slot: nat)
    requires HeapOk(ns, h, order, free) && slot < |ns| && !ns[slot].IsFree()
    ensures slot in order && ns[slot].prev < |ns| && ns[slot].next < |ns|
    ensures var ns' := Unlinked(ns, slot, h.freeHead);
            var usedHead := if h.count == 1 then NO_NODE else if h.usedHead == slot then ns[slot].next else h.usedHead;
            && h.count > 0
            && HeapOk(ns', Header(slot, usedHead, h.count - 1, h.seqNum), Without(order, slot), [slot] + free)
            && ModelOf(ns', Without(order, slot), [slot] + free) == ModelOf(ns, order, free).Delete(slot)
            && ns'[slot].event == ns[slot].event
  {
    hide Unlinked, OnCircle, OnFreeList, NoDuplicates, EventsOf, Without;
    var k := UsedSlot(ns, h, order, free, slot);
    var ns' := Unlinked(ns, slot, h.freeHead);
    UnlinkedElsewhere(ns, slot, h.freeHead);
    WithoutAt(order, k);
    CutOut(order, k);
    DeletedCircle(ns, order, k, h.freeHead);
    DeletedFree(ns, h, order, free, slot, ns');
    Appended(free, slot);
    DeletedRest(ns, h, order, free, k, ns');
  }

  lemma DeletedRest(ns: seq<EventNode>, h: Header, order: seq<nat>, free: seq<nat>, k: nat, ns': seq<EventNode>)
    requires HeapOk(ns, h, order, free) && k < |order| && order[k] < |ns|
    requires |ns'| == |ns| && forall i :: 0 <= i < |ns| ==> ns'[i].event == ns[i].event
    ensures var order' := order[..k] + order[k + 1..];
            && (forall slot :: 0 <= slot < |ns| ==> slot in order' || slot in [order[k]] + free)
            && ModelOf(ns', order', [order[k]] + free) == HeapModel(EventsOf(ns, order) - {order[k]}, order', [order[k]] + free)
            && (order' != [] ==> order'[0] == if k == 0 then order[1] else order[0])
  {
    CutOut(order, k);
  }

  // ---------- the data structure ----------

  class EventHeap {
    const nodes: array<EventNode>
    var header: Header
    ghost var order: seq<nat>
    ghost var free: seq<nat>

    ghost predicate Valid()
      reads this, nodes
    {
      HeapOk(nodes[..], header, order, free)
    }

    ghost function Model(): HeapModel
      reads this, nodes
    {
      ModelOf(nodes[..], order, free)
    }

    /** An empty heap: every node on the free list, in slot order. */
    constructor (capacity: nat)
      requires 1 <= capacity < NO_NODE
      ensures Valid() && fresh(this) && fresh(nodes)
      ensures Model() == HeapModel(map[], [], Upto(capacity))
    {
      nodes := new EventNode[capacity];
      header := Header(0, NO_NODE, 0, 0);
      order, free := [], Upto(capacity);
      new;
      for i := 0 to capacity
        invariant forall j :: 0 <= j < i ==> nodes[j].next == j + 1 && nodes[j].IsFree()
        invariant header == Header(0, NO_NODE, 0, 0) && order == [] && free == Upto(capacity)
      {
        nodes[i] := nodes[i].(next := i + 1, prev := NO_NODE);
      }
      nodes[capacity - 1] := nodes[capacity - 1].(next := NO_NODE);
      forall slot | 0 <= slot < capacity
        ensures slot in free
      {
        assert free[slot] == slot;
      }
    }

    /** The heap as another one is now, in memory of its own. */
    constructor Copy(from: EventHeap)
      requires from.Valid()
      ensures Valid() && fresh(this) && fresh(nodes)
      ensures Model() == from.Model()
    {
      hide HeapOk, ModelOf;
      var cells := from.nodes[..];
      nodes := new EventNode[|cells|](i requires 0 <= i < |cells| => cells[i]);
      header, order, free := from.header, from.order, from.free;
      new;
      assert nodes[..] == from.nodes[..];
    }

    function Len(): (n: nat)
      requires Valid()
      reads this, nodes
      ensures n == |Model().order|
    {
      header.count
    }

    predicate IsEmpty()
      requires Valid()
      reads this, nodes
      ensures IsEmpty() <==> Model().order == []
    {
      header.count == 0
    }

    predicate IsFull()
      requires Valid()
      reads this, nodes
      ensures IsFull() <==> Model().IsFull()
    {
      header.count == nodes.Length
    }

    /** The event in a slot. */
    function AtSlot(slot: nat): (r: Option<Event>)
      requires Valid()
      reads this, nodes
      ensures r == if slot in Model().pending then Some(Model().pending[slot]) else None
    {
      SlotFacts(slot);
      if slot >= nodes.Length || nodes[slot].IsFree() then None else Some(nodes[slot].event)
    }

    lemma SlotFacts(slot: nat)
      requires Valid()
      ensures slot < nodes.Length ==> (nodes[slot].IsFree() <==> slot !in order)
      ensures slot in order ==> slot < nodes.Length
    {
      if slot < nodes.Length { FreeSlots(nodes[..], header, order, free, slot); }
      HeapModelOk(nodes[..], header, order, free);
    }

    /** The event that arrived first. */
    function Front(): (r: Option<Event>)
      requires Valid()
      reads this, nodes
      ensures Model().order == [] ==> r == None
      ensures Model().order != [] ==>
                Model().order[0] in Model().pending && r == Some(Model().pending[Model().order[0]])
    {
      if header.count == 0 then None
      else
        SlotFacts(order[0]);
        assert order[0] in order;
        Some(nodes[header.usedHead].event)
    }

    method PushBack(value: Event)
      requires Valid() && !IsFull()
      modifies this, nodes
      ensures Valid()
      ensures Model() == old(Model()).Push(value)
    {
      hide HeapOk, ModelOf, Linked;
      HeadersSay(nodes[..], header, order, free);
      PushOkNodes(nodes[..], header, order, free, value);
      ghost var ns0 := nodes[..];
      var slot := header.freeHead;
      header := header.(freeHead := nodes[slot].next);
      var newNext, newPrev;
      if header.count == 0 {
        newNext, newPrev := slot, slot;
        header := header.(usedHead := slot);
      } else {
        newNext := header.usedHead;
        newPrev := nodes[newNext].prev;
        nodes[newPrev] := nodes[newPrev].(next := slot);
        nodes[newNext] := nodes[newNext].(prev := slot);
      }
      header := header.(count := header.count + 1, seqNum := header.seqNum + 1);
      nodes[slot] := EventNode(newNext, newPrev, value);
      WrittenAsLinked(ns0, slot, newNext, newPrev, value, |order| == 0, nodes[..]);
      order, free := order + [slot], free[1..];
    }

    method DeleteSlot(slot: nat) returns (r: Result<Event>)
      requires Valid()
      modifies this, nodes
      ensures Valid()
      ensures var was := old(Model());
              if slot in was.pending then r == Ok(was.pending[slot]) && Model() == was.Delete(slot)
              else r == Err(SomeError) && Model() == was
    {
      hide HeapOk, Unlinked, Without;
      SlotFacts(slot);
      HeadersSay(nodes[..], header, order, free);
      if slot >= nodes.Length || header.count == 0 || nodes[slot].IsFree() {
        return Err(SomeError);
      }
      DeleteOkNodes(nodes[..], header, order, free, slot);
      ghost var ns0 := nodes[..];
      var prevSlot, nextSlot, nextFree := nodes[slot].prev, nodes[slot].next, header.freeHead;
      nodes[prevSlot] := nodes[prevSlot].(next := nextSlot);
      nodes[nextSlot] := nodes[nextSlot].(prev := prevSlot);
      if header.count == 1 {
        header := header.(usedHead := NO_NODE);
      } else if header.usedHead == slot {
        header := header.(usedHead := nextSlot);
      }
      header := header.(count := header.count - 1, freeHead := slot);
      nodes[slot] := nodes[slot].(next := nextFree, prev := NO_NODE);
      WrittenAsUnlinked(ns0, slot, nextFree, nodes[..]);
      order, free := Without(order, slot), [slot] + free;
      r := Ok(nodes[slot].event);
    }

    /** Takes off the event that arrived first. */
    method PopFront() returns (r: Result<Event>)
      requires Valid()
      modifies this, nodes
      ensures Valid()
      ensures var was := old(Model());
              if was.order == [] then r == Err(SomeError) && Model() == was
              else
                && was.order[0] in was.pending
                && r == Ok(was.pending[was.order[0]]) && Model() == was.Delete(was.order[0])
                && Model().order == was.order[1..]
    {
      HeadersSay(nodes[..], header, order, free);
      HeapModelOk(nodes[..], header, order, free);
      SlotFacts(header.usedHead);
      r := DeleteSlot(header.usedHead);
    }

    /** Follows the circle from the head; yields the slots in order of arrival. */
    method Slots() returns (r: seq<nat>)
      requires Valid()
      ensures r == Model().order
    {
      r := [];
      var index, slot := 0, header.usedHead;
      while index != header.count
        invariant 0 <= index <= |order| && r == order[..index]
        invariant index < |order| ==> slot == order[index]
        decreases header.count - index
      {
        assert OnCircle(nodes[..], order, index);
        r := r + [slot];
        slot := nodes[slot].next;
        index := index + 1;
      }
    }
  }

  lemma HeadersSay(ns: seq<EventNode>, h: Header, order: seq<nat>, free: seq<nat>)
    requires HeapOk(ns, h, order, free)
    ensures h.count == |order| && (h.count == |ns| <==> free == [])
    ensures h.usedHead == (if order == [] then NO_NODE else order[0])
    ensures h.freeHead == (if free == [] then NO_NODE else free[0])
    ensures |ns| < NO_NODE
    ensures order == [] ==> NO_NODE !in order
  {
  }

  lemma WrittenAsLinked(ns: seq<EventNode>, slot: nat, newNext: nat, newPrev: nat, e: Event, empty: bool, ns': seq<EventNode>)
    requires slot < |ns| && newNext < |ns| && newPrev < |ns|
    requires empty ==> newNext == slot && newPrev == slot && ns' == ns[slot := EventNode(newNext, newPrev, e)]
    requires !empty ==>
               var a := ns[newPrev := ns[newPrev].(next := slot)];
               ns' == a[newNext := a[newNext].(prev := slot)][slot := EventNode(newNext, newPrev, e)]
    ensures ns' == Linked(ns, slot, newNext, newPrev, e)
  {
  }

  lemma WrittenAsUnlinked(ns: seq<EventNode>, slot: nat, freeHead: nat, ns': seq<EventNode>)
    requires slot < |ns| && ns[slot].prev < |ns| && ns[slot].next < |ns|
    requires var a := ns[ns[slot].prev := ns[ns[slot].prev].(next := ns[slot].next)];
             var b := a[ns[slot].next := a[ns[slot].next].(prev := ns[slot].prev)];
             ns' == b[slot := b[slot].(next := freeHead, prev := NO_NODE)]
    ensures ns' == Unlinked(ns, slot, freeHead)
  {
  }
}
