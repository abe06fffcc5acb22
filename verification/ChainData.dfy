/** The client's cache of account writes across forks: which write of an account counts, and what may be forgotten. */
module ChainDatas {
  import opened Types

  datatype SlotStatus = Rooted | Confirmed | Processed

  /** `chain` is the top slot of a chain that the slot is known to be part of. */
  datatype SlotData = SlotData(slot: nat, parent: Option<nat>, status: SlotStatus, chain: nat)

  /** A write to an account: the slot it happened in, and what was written. */
  datatype Write = Write(slot: nat, account: nat)

  datatype Chain = Chain(slots: map<nat, SlotData>, accounts: map<Pubkey, seq<Write>>, root: nat, processed: nat, best: nat)
  {
    /** Rooted, in the best chain, or newer than its head; slots no longer known count as rooted if they are not after the root. */
    predicate Live(w: Write) {
      if w.slot in slots
      then slots[w.slot].status.Rooted? || slots[w.slot].chain == best || w.slot > best
      else w.slot <= root
    }

    /** The latest live write of a list. */
    function LastLive(ws: seq<Write>): Option<Write> {
      if ws == [] then None
      else if Live(ws[|ws| - 1]) then Some(ws[|ws| - 1])
      else LastLive(ws[..|ws| - 1])
    }

    /** What is known of an account. */
    function AccountAndSlot(k: Pubkey): Option<Write> {
      if k in accounts then LastLive(accounts[k]) else None
    }

    /** No later than the root, and either not known any more, rooted, or in the best chain. */
    predicate CountsAsRooted(w: Write) {
      && w.slot <= root
      && (w.slot in slots ==> slots[w.slot].status.Rooted? || slots[w.slot].chain == best)
    }

    function LastRooted(ws: seq<Write>): nat {
      if ws == [] then root + 1
      else if CountsAsRooted(ws[|ws| - 1]) then ws[|ws| - 1].slot
      else LastRooted(ws[..|ws| - 1])
    }

    /** The writes of slot `n` and those after the root. */
    function Retained(ws: seq<Write>, n: nat): seq<Write> {
      if ws == [] then []
      else
        var rest := Retained(ws[..|ws| - 1], n);
        var w := ws[|ws| - 1];
        if w.slot == n || w.slot > root then rest + [w] else rest
    }

    /** Forgets all writes before the newest rooted one, and all slots before the root. */
    function Prune(): Chain {
      this.(accounts := map k | k in accounts :: Retained(accounts[k], LastRooted(accounts[k])),
            slots := map s | s in slots && s >= root :: slots[s])
    }

    /** A slot comes after its parent. */
    ghost predicate ParentsBefore() {
      forall s :: s in slots && slots[s].parent.Some? ==> slots[s].parent.value < s
    }

    ghost predicate Ok() {
      && (forall k :: k in accounts ==> Sorted(accounts[k]))
      && ParentsBefore()
    }
  }

  ghost predicate Sorted(ws: seq<Write>) { forall i, j :: 0 <= i < j < |ws| ==> ws[i].slot <= ws[j].slot }

  // ---------- what counts ----------

  /** The answer is a live write, and no live write of the account is newer. */
  lemma {:induction false} LastLiveIsLatest(c: Chain, ws: seq<Write>)
    requires Sorted(ws)
    ensures c.LastLive(ws).None? <==> forall i :: 0 <= i < |ws| ==> !c.Live(ws[i])
    ensures c.LastLive(ws).Some? ==>
              var w := c.LastLive(ws).value;
              && w in ws && c.Live(w) && forall i :: 0 <= i < |ws| && c.Live(ws[i]) ==> ws[i].slot <= w.slot
  {
    if ws != [] && !c.Live(ws[|ws| - 1]) {
      LastLiveIsLatest(c, ws[..|ws| - 1]);
      forall i | 0 <= i < |ws| && c.Live(ws[i])
        ensures ws[i] == ws[..|ws| - 1][i]
      {
      }
    }
  }

  // ---------- pruning ----------

  /** A write that pruning throws away although it is what is known of its account: it is in a slot after the head of the best
      chain but not after the root, and that slot is known, not rooted and not in the best chain. */
  predicate IsLost(c: Chain, w: Write) {
    c.best < w.slot <= c.root && !c.CountsAsRooted(w)
  }

  lemma LiveOrRooted(c: Chain, w: Write)
    ensures w.slot <= c.root ==> (c.Live(w) <==> c.CountsAsRooted(w) || IsLost(c, w))
    ensures w.slot > c.root ==> (c.Prune().Live(w) <==> c.Live(w))
    ensures c.CountsAsRooted(w) ==> c.Prune().Live(w)
  {
  }

  /** The slot that is kept counts as rooted, if there is such a write at all. */
  lemma {:induction false} LastRootedCounts(c: Chain, ws: seq<Write>)
    ensures forall w: Write :: w.slot == c.LastRooted(ws) && w.slot <= c.root ==> c.CountsAsRooted(w)
  {
    if ws != [] && !c.CountsAsRooted(ws[|ws| - 1]) {
      LastRootedCounts(c, ws[..|ws| - 1]);
    }
  }

  lemma {:induction false} RetainedMembers(c: Chain, ws: seq<Write>, n: nat)
    ensures forall w :: w in c.Retained(ws, n) ==> w in ws && (w.slot == n || w.slot > c.root)
  {
    if ws != [] {
      RetainedMembers(c, ws[..|ws| - 1], n);
    }
  }

  lemma {:induction false} LastLiveIsMember(c: Chain, ws: seq<Write>)
    ensures c.LastLive(ws).Some? ==> c.LastLive(ws).value in ws
  {
    if ws != [] && !c.Live(ws[|ws| - 1]) { LastLiveIsMember(c, ws[..|ws| - 1]); }
  }

  /** One list of writes before and after pruning. */
  lemma {:induction false} PrunedAnswer(c: Chain, ws: seq<Write>, n: nat)
    requires n == c.LastRooted(ws)
    ensures var before, after := c.LastLive(ws), c.Prune().LastLive(c.Retained(ws, n));
            before == after <==> before.None? || !IsLost(c, before.value)
  {
    if ws != [] {
      var w, front := ws[|ws| - 1], ws[..|ws| - 1];
      LiveOrRooted(c, w);
      LastRootedCounts(c, ws);
      if !c.Live(w) {
        PrunedAnswer(c, front, n);
      } else if IsLost(c, w) {
        RetainedMembers(c, ws, n);
        LastLiveIsMember(c.Prune(), c.Retained(ws, n));
      }
    }
  }

  /** Pruning changes what is known of an account exactly when that is a write that gets lost. */
  lemma PruneExactlyWhen(c: Chain, k: Pubkey)
    ensures var before := c.AccountAndSlot(k);
            c.Prune().AccountAndSlot(k) == before <==> before.None? || !IsLost(c, before.value)
  {
    if k in c.accounts {
      PrunedAnswer(c, c.accounts[k], c.LastRooted(c.accounts[k]));
    }
  }

  /** As long as the head of the best chain is not before the root, pruning changes nothing for any account. */
  lemma PruneKeepsAnswers(c: Chain)
    requires c.best >= c.root
    ensures forall k :: c.Prune().AccountAndSlot(k) == c.AccountAndSlot(k)
  {
    forall k
      ensures c.Prune().AccountAndSlot(k) == c.AccountAndSlot(k)
    {
      PruneExactlyWhen(c, k);
    }
  }

  lemma {:induction false} RetainedSorted(c: Chain, ws: seq<Write>, n: nat)
    requires Sorted(ws)
    ensures Sorted(c.Retained(ws, n))
  {
    if ws != [] {
      RetainedSorted(c, ws[..|ws| - 1], n);
      RetainedMembers(c, ws[..|ws| - 1], n);
      forall w | w in ws[..|ws| - 1]
        ensures w.slot <= ws[|ws| - 1].slot
      {
      }
    }
  }

  lemma PruneKeepsOk(c: Chain)
    requires c.Ok()
    ensures c.Prune().Ok()
  {
    forall k | k in c.accounts
      ensures Sorted(c.Retained(c.accounts[k], c.LastRooted(c.accounts[k])))
    {
      RetainedSorted(c, c.accounts[k], c.LastRooted(c.accounts[k]));
    }
  }

  // ---------- a new write ----------

  /** Behind the last write that is not in a later slot. */
  function Position(ws: seq<Write>, slot: nat): (n: nat)
    ensures n <= |ws|
    ensures n > 0 ==> ws[n - 1].slot <= slot
    ensures forall i :: n <= i < |ws| ==> ws[i].slot > slot
  {
    if ws == [] then 0 else if ws[|ws| - 1].slot <= slot then |ws| else Position(ws[..|ws| - 1], slot)
  }

  function Inserted(ws: seq<Write>, w: Write): seq<Write> {
    var pos := Position(ws, w.slot);
    ws[..pos] + [w] + ws[pos..]
  }

  lemma SortedBefore(ws: seq<Write>, w: Write, pos: nat)
    requires Sorted(ws) && pos == Position(ws, w.slot)
    ensures forall i :: 0 <= i < pos ==> ws[i].slot <= w.slot
  {
    if pos > 0 {
      forall i | 0 <= i < pos ensures ws[i].slot <= ws[pos - 1].slot {}
    }
  }

  lemma InsertedSorted(ws: seq<Write>, w: Write, pos: nat)
    requires Sorted(ws) && pos <= |ws|
    requires forall i :: 0 <= i < pos ==> ws[i].slot <= w.slot
    requires forall i :: pos <= i < |ws| ==> ws[i].slot > w.slot
    ensures Sorted(ws[..pos] + [w] + ws[pos..])
    ensures forall j :: pos < j < |ws| + 1 ==> (ws[..pos] + [w] + ws[pos..])[j].slot > w.slot
  {
    var s := ws[..pos] + [w] + ws[pos..];
    forall j | 0 <= j < |s|
      ensures s[j] == if j < pos then ws[j] else if j == pos then w else ws[j - 1]
    {
    }
    forall i, j | 0 <= i < j < |s|
      ensures s[i].slot <= s[j].slot
    {
    }
  }

  /** Where the new write stands: all writes after it are of later slots. */
  ghost predicate StandsLast(s: seq<Write>, w: Write, i: nat) {
    i < |s| && s[i] == w && forall j :: i < j < |s| ==> s[j].slot > w.slot
  }

  /** The write is added, never put in place of another, and comes after all writes of the same slot. */
  lemma InsertedInOrder(ws: seq<Write>, w: Write)
    requires Sorted(ws)
    ensures Sorted(Inserted(ws, w)) && multiset(Inserted(ws, w)) == multiset(ws) + multiset{w}
    ensures StandsLast(Inserted(ws, w), w, Position(ws, w.slot))
  {
    var pos := Position(ws, w.slot);
    SortedBefore(ws, w, pos);
    InsertedSorted(ws, w, pos);
    AddedOnce(ws, w, pos);
    var s := ws[..pos] + [w] + ws[pos..];
    assert Inserted(ws, w) == s && s[pos] == w && |s| == |ws| + 1;
    hide Inserted, Sorted, Position;
  }

  lemma AddedOnce(ws: seq<Write>, w: Write, pos: nat)
    requires pos <= |ws|
    ensures multiset(ws[..pos] + [w] + ws[pos..]) == multiset(ws) + multiset{w}
  {
    assert ws == ws[..pos] + ws[pos..];
  }

  /** After the write of a live slot, that is what is known of its account, unless a live write of a later slot is there. */
  lemma NewWriteIsKnown(c: Chain, ws: seq<Write>, w: Write)
    requires Sorted(ws)
    ensures c.LastLive(Inserted(ws, w)) == Some(w) <==>
              c.Live(w) && forall i :: 0 <= i < |ws| && c.Live(ws[i]) ==> ws[i].slot <= w.slot
  {
    var pos := Position(ws, w.slot);
    var before, after := ws[..pos], ws[pos..];
    AnswerAfterInsert(c, ws, w);
    hide Inserted, Chain.LastLive, Chain.Live, Position;
    forall i | pos <= i < |ws| ensures ws[i] == after[i - pos] {}
    SortedBefore(ws, w, pos);
    if c.LastLive(after).Some? {
      SomeIsLive(c, after);
      var i :| 0 <= i < |after| && c.Live(after[i]) && after[i] == c.LastLive(after).value;
      assert ws[pos + i] == after[i];
    } else {
      NoneIsLive(c, after);
      if c.LastLive(before).Some? { SomeIsLive(c, before); }
    }
  }

  /** The answer is the last live write behind the new one, then the new one itself, then the last before it. */
  lemma AnswerAfterInsert(c: Chain, ws: seq<Write>, w: Write)
    ensures var pos := Position(ws, w.slot);
            var before, after := c.LastLive(ws[..pos]), c.LastLive(ws[pos..]);
            c.LastLive(Inserted(ws, w)) == if after.Some? then after else if c.Live(w) then Some(w) else before
  {
    var pos := Position(ws, w.slot);
    LastLiveOfSum(c, ws[..pos] + [w], ws[pos..]);
    LastLiveOfSum(c, ws[..pos], [w]);
    hide Position, Chain.Live;
    assert [w][..0] == [];
    assert c.LastLive([w]) == if c.Live(w) then Some(w) else c.LastLive([w][..0]);
  }

  lemma {:induction false} NoneIsLive(c: Chain, ws: seq<Write>)
    requires c.LastLive(ws).None?
    ensures forall i :: 0 <= i < |ws| ==> !c.Live(ws[i])
  {
    if ws != [] {
      NoneIsLive(c, ws[..|ws| - 1]);
      forall i | 0 <= i < |ws| - 1
        ensures ws[i] == ws[..|ws| - 1][i]
      {
      }
    }
  }

  lemma {:induction false} SomeIsLive(c: Chain, ws: seq<Write>)
    requires c.LastLive(ws).Some?
    ensures exists i :: 0 <= i < |ws| && c.Live(ws[i]) && ws[i] == c.LastLive(ws).value
  {
    if !c.Live(ws[|ws| - 1]) {
      SomeIsLive(c, ws[..|ws| - 1]);
      var i :| 0 <= i < |ws[..|ws| - 1]| && c.Live(ws[..|ws| - 1][i]) && ws[..|ws| - 1][i] == c.LastLive(ws).value;
      assert ws[i] == ws[..|ws| - 1][i];
    }
  }

  lemma {:induction false} LastLiveOfSum(c: Chain, a: seq<Write>, b: seq<Write>)
    ensures c.LastLive(a + b) == if c.LastLive(b).Some? then c.LastLive(b) else c.LastLive(a)
  {
    if b == [] {
      assert a + b == a;
    } else {
      assert (a + b)[..|a + b| - 1] == a + b[..|b| - 1];
      LastLiveOfSum(c, a, b[..|b| - 1]);
    }
  }

  // ---------- a new slot ----------

  /** The slots from `slot` down to the first rooted one, or to one without a known parent. */
  function Path(slots: map<nat, SlotData>, slot: nat): seq<nat>
    decreases slot
  {
    if slot !in slots then []
    else
      var d := slots[slot];
      if d.status.Rooted? || d.parent.None? || d.parent.value >= slot then [slot]
      else [slot] + Path(slots, d.parent.value)
  }

  /** The slots of that path join the chain with head `top`. */
  function Marked(slots: map<nat, SlotData>, slot: nat, top: nat): map<nat, SlotData>
    decreases slot
  {
    if slot !in slots then slots
    else
      var d := slots[slot];
      var slots' := slots[slot := d.(chain := top)];
      if d.status.Rooted? || d.parent.None? || d.parent.value >= slot then slots' else Marked(slots', d.parent.value, top)
  }

  lemma {:induction false} PathBelow(slots: map<nat, SlotData>, slot: nat, x: nat, d: SlotData)
    requires slot < x
    ensures Path(slots[x := d], slot) == Path(slots, slot) && x !in Path(slots, slot)
    decreases slot
  {
    if slot in slots {
      var e := slots[slot];
      if !(e.status.Rooted? || e.parent.None? || e.parent.value >= slot) { PathBelow(slots, e.parent.value, x, d); }
    }
  }

  /** Exactly the slots of the path are marked; nothing else of any slot changes. */
  lemma {:induction false} MarkedExactly(slots: map<nat, SlotData>, slot: nat, top: nat)
    ensures Marked(slots, slot, top).Keys == slots.Keys
    ensures forall x :: x in slots ==>
              Marked(slots, slot, top)[x] == if x in Path(slots, slot) then slots[x].(chain := top) else slots[x]
    decreases slot
  {
    if slot in slots {
      var d := slots[slot];
      if !(d.status.Rooted? || d.parent.None? || d.parent.value >= slot) {
        var d' := d.(chain := top);
        PathBelow(slots, d.parent.value, slot, d');
        MarkedExactly(slots[slot := d'], d.parent.value, top);
      }
    }
  }

  function Joined(v: SlotData, s: SlotData): SlotData {
    v.(parent := if v.parent.Some? then v.parent else s.parent,
       status := if v.status.Processed? || s.status.Rooted? then s.status else v.status)
  }

  /** The heads and the slot itself, after news about a slot. */
  function Noted(c: Chain, s: SlotData): Chain {
    c.(processed := if s.slot > c.processed then s.slot else c.processed,
       root := if s.slot > c.root && s.status.Rooted? then s.slot else c.root,
       best := if s.parent.Some? && s.slot > c.best then s.slot else c.best,
       slots := c.slots[s.slot := if s.slot in c.slots then Joined(c.slots[s.slot], s) else s])
  }

  function MarkBest(c: Chain): Chain { c.(slots := Marked(c.slots, c.best, c.best)) }

  /** News about a slot. */
  function Updated(c: Chain, s: SlotData): Chain {
    var newRoot := s.slot > c.root && s.status.Rooted?;
    var newBest := s.parent.Some? && s.slot > c.best;
    var parentUpdate := s.slot in c.slots && c.slots[s.slot].parent != s.parent && s.parent.Some?;
    var c1 := if newBest || parentUpdate then MarkBest(Noted(c, s)) else Noted(c, s);
    if newRoot then c1.Prune() else c1
  }

  lemma MarkBestOk(c: Chain)
    requires c.Ok()
    ensures MarkBest(c).Ok() && MarkBest(c).slots.Keys == c.slots.Keys
  {
    MarkedExactly(c.slots, c.best, c.best);
    hide Marked, Sorted;
  }

  lemma NotedOk(c: Chain, s: SlotData)
    requires c.Ok() && (s.parent.Some? ==> s.parent.value < s.slot)
    ensures Noted(c, s).Ok() && Noted(c, s).slots.Keys == c.slots.Keys + {s.slot}
  {
    hide Sorted;
  }

  /** News keeps the lists sorted and parents before their slots, and slots before the root are forgotten with a new root. */
  lemma UpdatedOk(c: Chain, s: SlotData)
    requires c.Ok() && (s.parent.Some? ==> s.parent.value < s.slot)
    requires s.slot >= c.root && forall x :: x in c.slots ==> x >= c.root
    ensures Updated(c, s).Ok()
    ensures forall x :: x in Updated(c, s).slots ==> x >= Updated(c, s).root
  {
    NotedOk(c, s);
    MarkBestOk(Noted(c, s));
    PruneKeepsOk(Noted(c, s));
    PruneKeepsOk(MarkBest(Noted(c, s)));
    assert forall x :: x in Noted(c, s).slots.Keys ==> x >= c.root;
    hide Chain.Ok, MarkBest;
  }

  /** A slot that becomes the head of the best chain is live. */
  lemma NewHeadIsLive(c: Chain, s: SlotData, w: Write)
    requires s.parent.Some? && s.slot > c.best && w.slot == s.slot && s.status.Processed?
    ensures Updated(c, s).Live(w) && Updated(c, s).best == s.slot
  {
    var slots := c.slots[s.slot := if s.slot in c.slots then Joined(c.slots[s.slot], s) else s];
    MarkedExactly(slots, s.slot, s.slot);
  }

  // ---------- the cache ----------

  class ChainData {
    var slots: map<nat, SlotData>
    var accounts: map<Pubkey, seq<Write>>
    var newestRootedSlot: nat
    var newestProcessedSlot: nat
    var bestChainSlot: nat

    ghost function Value(): Chain
      reads this
    {
      Chain(slots, accounts, newestRootedSlot, newestProcessedSlot, bestChainSlot)
    }

    constructor ()
      ensures Value() == Chain(map[], map[], 0, 0, 0) && Value().Ok()
    {
      slots, accounts := map[], map[];
      newestRootedSlot, newestProcessedSlot, bestChainSlot := 0, 0, 0;
    }

    method UpdateSlot(newSlot: SlotData)
      requires Value().Ok() && (newSlot.parent.Some? ==> newSlot.parent.value < newSlot.slot)
      modifies this
      ensures Value() == Updated(old(Value()), newSlot)
    {
      if newSlot.slot > newestProcessedSlot {
        newestProcessedSlot := newSlot.slot;
      }
      var newRootedHead := newSlot.slot > newestRootedSlot && newSlot.status.Rooted?;
      if newRootedHead {
        newestRootedSlot := newSlot.slot;
      }
      var newBestChain := newSlot.parent.Some? && newSlot.slot > bestChainSlot;
      if newBestChain {
        bestChainSlot := newSlot.slot;
      }
      var parentUpdate := false;
      if newSlot.slot in slots {
        var v := slots[newSlot.slot];
        parentUpdate := v.parent != newSlot.parent && newSlot.parent.Some?;
        slots := slots[newSlot.slot := Joined(v, newSlot)];
      } else {
        slots := slots[newSlot.slot := newSlot];
      }
      if newBestChain || parentUpdate {
        MarkChain();
      }
      if newRootedHead {
        PruneAll();
      }
    }

    /** The chain of the best slot, down to the first rooted slot. */
    method MarkChain()
      requires Value().ParentsBefore()
      modifies this`slots
      ensures slots == Marked(old(slots), bestChainSlot, bestChainSlot)
    {
      var slot := bestChainSlot;
      while slot in slots
        invariant Marked(slots, slot, bestChainSlot) == Marked(old(slots), bestChainSlot, bestChainSlot)
        invariant Value().ParentsBefore()
        decreases slot
      {
        var data := slots[slot];
        slots := slots[slot := data.(chain := bestChainSlot)];
        if data.status.Rooted? || data.parent.None? {
          return;
        }
        slot := data.parent.value;
      }
    }

    /** Forgets writes and slots that are settled by the new root. */
    method PruneAll()
      modifies this`slots, this`accounts
      ensures Value() == old(Value()).Prune()
    {
      hide Chain.Retained, Chain.LastRooted;
      ghost var c := Value();
      var todo := accounts.Keys;
      while todo != {}
        invariant todo <= accounts.Keys == c.accounts.Keys && Value() == c.(accounts := accounts)
        invariant forall k :: k in accounts ==>
                    accounts[k] == if k in todo then c.accounts[k] else c.Retained(c.accounts[k], c.LastRooted(c.accounts[k]))
        decreases todo
      {
        var k :| k in todo;
        var writes := PruneWrites(accounts[k], c);
        accounts := accounts[k := writes];
        todo := todo - {k};
      }
      slots := map s | s in slots && s >= newestRootedSlot :: slots[s];
    }

    method PruneWrites(ws: seq<Write>, ghost c: Chain) returns (r: seq<Write>)
      requires slots == c.slots && newestRootedSlot == c.root && bestChainSlot == c.best
      ensures r == c.Retained(ws, c.LastRooted(ws))
    {
      var i, newestRootedWrite := |ws|, newestRootedSlot + 1;
      assert ws[..|ws|] == ws;
      while i > 0
        invariant 0 <= i <= |ws| && newestRootedWrite == newestRootedSlot + 1
        invariant c.LastRooted(ws[..i]) == c.LastRooted(ws)
        decreases i
      {
        var w := ws[i - 1];
        assert ws[..i][..i - 1] == ws[..i - 1];
        if w.slot <= newestRootedSlot && (w.slot in slots ==> slots[w.slot].status.Rooted? || slots[w.slot].chain == bestChainSlot) {
          newestRootedWrite := w.slot;
          break;
        }
        i := i - 1;
      }
      r := [];
      for j := 0 to |ws|
        invariant r == c.Retained(ws[..j], newestRootedWrite)
      {
        assert ws[..j + 1][..j] == ws[..j];
        if ws[j].slot == newestRootedWrite || ws[j].slot > newestRootedSlot {
          r := r + [ws[j]];
        }
      }
    }

    method UpdateAccount(k: Pubkey, w: Write)
      modifies this`accounts
      ensures Value() == old(Value()).(accounts := old(accounts)[k := Inserted(if k in old(accounts) then old(accounts)[k] else [], w)])
    {
      if k !in accounts {
        accounts := accounts[k := [w]];
        assert Inserted([], w) == [w];
        return;
      }
      var v := accounts[k];
      var pos := |v|;
      assert v[..|v|] == v;
      while pos > 0 && v[pos - 1].slot > w.slot
        invariant 0 <= pos <= |v| && Position(v[..pos], w.slot) == Position(v, w.slot)
        invariant pos < |v| ==> v[pos].slot > w.slot
        decreases pos
      {
        assert v[..pos][..pos - 1] == v[..pos - 1];
        pos := pos - 1;
      }
      // The write at `pos` is of a later slot, so no write is ever overwritten here.
      if pos < |v| && v[pos].slot == w.slot {
        assert false;
      } else {
        v := v[..pos] + [w] + v[pos..];
      }
      accounts := accounts[k := v];
    }

    /** The latest live write of an account. */
    method AccountAndSlot(k: Pubkey) returns (r: Option<Write>)
      ensures r == Value().AccountAndSlot(k)
    {
      if k !in accounts {
        return None;
      }
      var ws := accounts[k];
      var i := |ws|;
      assert ws[..|ws|] == ws;
      while i > 0
        invariant 0 <= i <= |ws| && Value().LastLive(ws[..i]) == Value().LastLive(ws)
        decreases i
      {
        assert ws[..i][..i - 1] == ws[..i - 1];
        if IsLive(ws[i - 1]) {
          return Some(ws[i - 1]);
        }
        i := i - 1;
      }
      return None;
    }

    predicate IsLive(w: Write)
      reads this
      ensures IsLive(w) <==> Value().Live(w)
    {
      if w.slot in slots
      then slots[w.slot].status.Rooted? || slots[w.slot].chain == bestChainSlot || w.slot > bestChainSlot
      else w.slot <= newestRootedSlot
    }

    /** Adds a stub slot first if the write is from the future. */
    method UpdateFromRpc(k: Pubkey, w: Write)
      requires Value().Ok()
      modifies this
      ensures var c := old(Value());
              var c' := if w.slot > c.best then Updated(c, SlotData(w.slot, Some(c.best), Processed, 0)) else c;
              Value() == c'.(accounts := c'.accounts[k := Inserted(if k in c'.accounts then c'.accounts[k] else [], w)])
    {
      if w.slot > bestChainSlot {
        UpdateSlot(SlotData(w.slot, Some(bestChainSlot), Processed, 0));
      }
      UpdateAccount(k, w);
    }
  }

  // ---------- a write that gets lost ----------

  const Somebody: Pubkey := Pubkey(1)

  const LostWrite: Write := Write(5, 7)

  const NoNews: Chain := Chain(map[], map[], 0, 0, 0)

  const HeadKnown: Chain := Chain(map[3 := SlotData(3, Some(2), Processed, 3)], map[], 0, 3, 3)

  const ForkKnown: Chain := HeadKnown.(slots := HeadKnown.slots[5 := SlotData(5, None, Processed, 0)], processed := 5)

  const Written: Chain := ForkKnown.(accounts := map[Somebody := [LostWrite]])

  lemma NewsSteps()
    ensures Updated(NoNews, SlotData(3, Some(2), Processed, 0)) == HeadKnown
    ensures Updated(HeadKnown, SlotData(5, None, Processed, 0)) == ForkKnown
    ensures Inserted([], LostWrite) == [LostWrite]
    ensures NoNews.Ok() && HeadKnown.Ok() && ForkKnown.Ok() && Written.Ok()
  {
    var slots := map[3 := SlotData(3, Some(2), Processed, 0)];
    assert Marked(slots, 3, 3) == map[3 := SlotData(3, Some(2), Processed, 3)];
  }

  /** A write can get lost: slot 5 is known but not in the best chain, which ends at slot 3, when slot 6 is rooted. */
  lemma PruneMayLose()
    ensures Written.AccountAndSlot(Somebody) == Some(LostWrite)
    ensures Updated(Written, SlotData(6, None, Rooted, 0)).AccountAndSlot(Somebody) == None
  {
    var c := Noted(Written, SlotData(6, None, Rooted, 0));
    assert c.accounts[Somebody][..0] == [];
    assert c.LastRooted([LostWrite]) == 7;
    assert c.Retained([LostWrite], 7) == [];
    assert Updated(Written, SlotData(6, None, Rooted, 0)) == c.Prune();
  }

  /** The cache itself loses it: an account is known, and after news about another slot it is not. */
  method LosesAWrite() returns (before: Option<Write>, after: Option<Write>)
    ensures before == Some(LostWrite) && after == None
  {
    NewsSteps();
    PruneMayLose();
    hide Updated, Inserted, Chain.AccountAndSlot, Chain.Ok;
    var cache := new ChainData();
    cache.UpdateSlot(SlotData(3, Some(2), Processed, 0));
    cache.UpdateSlot(SlotData(5, None, Processed, 0));
    cache.UpdateAccount(Somebody, LostWrite);
    before := cache.AccountAndSlot(Somebody);
    cache.UpdateSlot(SlotData(6, None, Rooted, 0));
    after := cache.AccountAndSlot(Somebody);
  }
}
