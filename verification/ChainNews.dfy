/** What news about a slot makes of the client's cache: heads, parents, status, the best chain, and the writes that count. */
module ChainNews {
  import opened Types
  import opened ChainDatas

  // ---------- heads ----------

  /** News of a new root. */
  predicate IsNewRoot(c: Chain, s: SlotData) { s.status.Rooted? && s.slot > c.root }

  /** News that may change the best chain: a later head whose parent is known, or a parent that was not known. */
  predicate TouchesBest(c: Chain, s: SlotData) {
    s.parent.Some? && (s.slot > c.best || (s.slot in c.slots && c.slots[s.slot].parent != s.parent))
  }

  /** All heads only move up, each to the latest slot of its kind. */
  lemma HeadsMoveUp(c: Chain, s: SlotData)
    ensures var c' := Updated(c, s);
            && c'.processed == Max(c.processed, s.slot)
            && c'.root == (if s.status.Rooted? then Max(c.root, s.slot) else c.root)
            && c'.best == (if s.parent.Some? then Max(c.best, s.slot) else c.best)
  {
  }

  // ---------- what is known of a slot ----------

  /** What is known of a slot after news about it: a parent stays, and is only learnt once; a root stays a root, and what is
      not yet confirmed takes any news. */
  predicate Learns(v: SlotData, s: SlotData, d: SlotData) {
    && d.slot == v.slot
    && (v.parent.Some? ==> d.parent == v.parent) && (v.parent.None? ==> d.parent == s.parent)
    && (v.status.Rooted? || s.status.Rooted? ==> d.status.Rooted?)
    && (v.status.Processed? ==> d.status == s.status)
    && (v.status.Confirmed? && !s.status.Rooted? ==> d.status.Confirmed?)
  }

  /** The slots known after news about one of them: that slot has learnt it or is new, the others are as they were. */
  ghost predicate KnownAfter(c: Chain, s: SlotData, d: map<nat, SlotData>) {
    && d.Keys == c.slots.Keys + {s.slot} && (forall x :: x in c.slots && x != s.slot ==> d[x] == c.slots[x])
    && (s.slot in c.slots ==> Learns(c.slots[s.slot], s, d[s.slot]) && d[s.slot].chain == c.slots[s.slot].chain)
    && (s.slot !in c.slots ==> d[s.slot] == s)
  }

  lemma NotedIsKnown(c: Chain, s: SlotData)
    ensures KnownAfter(c, s, Noted(c, s).slots)
  {
  }

  /** The slots of a chain, from its head down to the first that is rooted. */
  ghost predicate IsChainFrom(slots: map<nat, SlotData>, head: nat, chain: set<nat>) {
    && (head in chain <==> head in slots) && chain <= slots.Keys
    && (forall x :: x in chain && !slots[x].status.Rooted? && slots[x].parent.Some? ==>
          slots[x].parent.value in slots && slots[x].parent.value < x ==> slots[x].parent.value in chain)
    && (forall x :: x in chain && x != head ==>
          exists y :: y in chain && y > x && slots[y].parent == Some(x) && !slots[y].status.Rooted?)
  }

  lemma {:induction false} PathIsChain(slots: map<nat, SlotData>, head: nat)
    ensures IsChainFrom(slots, head, Members(Path(slots, head)))
    ensures forall x :: x in Path(slots, head) ==> x <= head
    decreases head
  {
    if head in slots {
      var d := slots[head];
      if !(d.status.Rooted? || d.parent.None? || d.parent.value >= head) {
        var p := d.parent.value;
        PathIsChain(slots, p);
        var rest, all := Members(Path(slots, p)), Members(Path(slots, head));
        assert all == rest + {head};
        forall x | x in all && x != head
          ensures exists y :: y in all && y > x && slots[y].parent == Some(x) && !slots[y].status.Rooted?
        {
          if x == p {
            assert head in all;
          } else {
            var y :| y in rest && y > x && slots[y].parent == Some(x) && !slots[y].status.Rooted?;
            assert y in all;
          }
        }
      }
    }
  }

  /** What is left of the known slots: those not before a new root; and if the best chain may have changed, all of its slots
      say so. */
  ghost predicate Keeps(c: Chain, s: SlotData, d: map<nat, SlotData>, chain: set<nat>, c': Chain) {
    && (forall x :: x in c'.slots <==> x in d && (IsNewRoot(c, s) ==> x >= s.slot))
    && forall x :: x in c'.slots ==>
         c'.slots[x] == d[x].(chain := if TouchesBest(c, s) && x in chain then c'.best else d[x].chain)
  }

  /** After news every slot knows what it should: what was known of it, what was learnt, and whether it is in the best chain. */
  lemma SlotsLearn(c: Chain, s: SlotData)
    ensures var c' := Updated(c, s);
            exists d: map<nat, SlotData>, chain: set<nat> ::
              KnownAfter(c, s, d) && IsChainFrom(d, c'.best, chain) && Keeps(c, s, d, chain, c')
  {
    var c', n := Updated(c, s), Noted(c, s);
    NotedIsKnown(c, s);
    HeadsMoveUp(c, s);
    UpdatedIs(c, s);
    PathIsChain(n.slots, c'.best);
    MarkedExactly(n.slots, c'.best, c'.best);
    var chain := Members(Path(n.slots, c'.best));
    hide Updated, Noted, Path, Marked, KnownAfter, IsChainFrom;
    assert Keeps(c, s, n.slots, chain, c');
  }

  lemma UpdatedIs(c: Chain, s: SlotData)
    ensures var c', n := Updated(c, s), Noted(c, s);
            var slots := if TouchesBest(c, s) then Marked(n.slots, n.best, n.best) else n.slots;
            && c'.best == n.best && c'.root == n.root
            && c'.slots == (if IsNewRoot(c, s) then map x | x in slots && x >= s.slot :: slots[x] else slots)
            && (!IsNewRoot(c, s) ==> c'.accounts == c.accounts)
            && (IsNewRoot(c, s) ==> c' == n.(slots := slots).Prune())
  {
    hide Marked, Chain.Retained, Chain.LastRooted;
  }

  // ---------- the writes that count ----------

  /** After news of a later head, the writes that count are those of its chain and of rooted slots; and those of slots not
      known any more, up to the root. Until then no slot names that head. */
  lemma HeadDecides(c: Chain, s: SlotData, w: Write)
    requires s.parent.Some? && s.slot > c.best && s.chain <= c.best
    requires forall x :: x in c.slots ==> c.slots[x].chain <= c.best
    ensures var c' := Updated(c, s);
            exists d: map<nat, SlotData>, chain: set<nat> ::
              && KnownAfter(c, s, d) && IsChainFrom(d, s.slot, chain) && Keeps(c, s, d, chain, c')
              && (c'.Live(w) <==> if w.slot in c'.slots then w.slot in chain || d[w.slot].status.Rooted? || w.slot > s.slot
                                  else w.slot <= c'.root)
  {
    hide *;
    var c' := Updated(c, s);
    SlotsLearn(c, s);
    BestIs(c, s);
    var d: map<nat, SlotData>, chain: set<nat> :|
      KnownAfter(c, s, d) && IsChainFrom(d, c'.best, chain) && Keeps(c, s, d, chain, c');
    CountsWhen(c, s, d, chain, c', w);
    KeptIsKnown(c, s, d, chain, c', w.slot);
  }

  lemma BestIs(c: Chain, s: SlotData)
    requires s.parent.Some? && s.slot > c.best
    ensures Updated(c, s).best == s.slot
  {
    HeadsMoveUp(c, s);
    hide Updated;
  }

  lemma KeptIsKnown(c: Chain, s: SlotData, d: map<nat, SlotData>, chain: set<nat>, c': Chain, x: nat)
    requires Keeps(c, s, d, chain, c')
    ensures x in c'.slots ==> x in d
  {
  }

  lemma CountsWhen(c: Chain, s: SlotData, d: map<nat, SlotData>, chain: set<nat>, c': Chain, w: Write)
    requires KnownAfter(c, s, d) && Keeps(c, s, d, chain, c') && c'.best == s.slot > c.best && s.parent.Some? && s.chain <= c.best
    requires forall x :: x in c.slots ==> c.slots[x].chain <= c.best
    ensures w.slot in c'.slots ==>
              w.slot in d && (c'.Live(w) <==> w.slot in chain || d[w.slot].status.Rooted? || w.slot > s.slot)
    ensures w.slot !in c'.slots ==> (c'.Live(w) <==> w.slot <= c'.root)
  {
    hide Learns;
    if w.slot in c'.slots { assert c'.slots[w.slot] == d[w.slot].(chain := if w.slot in chain then c'.best else d[w.slot].chain); }
  }

  /** The slot itself is rooted by news of a new root, and is not before it. */
  lemma RootIsRooted(c: Chain, s: SlotData)
    requires IsNewRoot(c, s)
    ensures var n := Noted(c, s);
            && n.root == s.slot && n.accounts == c.accounts
            && s.slot in n.slots && n.slots[s.slot].status.Rooted?
  {
  }

  lemma RootedCounts(c: Chain, w: Write)
    requires w.slot in c.slots && c.slots[w.slot].status.Rooted? && w.slot <= c.root
    ensures c.CountsAsRooted(w) && c.Live(w) && !IsLost(c, w)
  {
  }

  /** With news that slot `s` is the new root, every account that was written to there answers with such a write, unless a
      write of a later slot counts. */
  lemma RootAnswers(c: Chain, s: SlotData, k: Pubkey, i: nat)
    requires c.Ok() && IsNewRoot(c, s)
    requires k in c.accounts && i < |c.accounts[k]| && c.accounts[k][i].slot == s.slot
    requires forall w :: w in c.accounts[k] && w.slot > s.slot ==> !Updated(c, s).Live(w)
    ensures var r := Updated(c, s).AccountAndSlot(k); r.Some? && r.value in c.accounts[k] && r.value.slot == s.slot
  {
    hide *;
    var (n, ws) := (Noted(c, s), c.accounts[k]);
    var slots := if TouchesBest(c, s) then Marked(n.slots, n.best, n.best) else n.slots;
    var c1 := n.(slots := slots);
    WritesSorted(c, k);
    UpdatedIs(c, s);
    RootIsRooted(c, s);
    MarkedExactly(n.slots, n.best, n.best);
    LastLiveIsLatest(c1, ws);
    PruneExactlyWhen(c1, k);
    RootedCounts(c1, ws[i]);
    var w := c1.LastLive(ws).value;
    RootedCountsIf(c1, w);
    LiveOrRooted(c1, w);
    AnswerIs(c1, k);
  }

  lemma WritesSorted(c: Chain, k: Pubkey)
    requires c.Ok() && k in c.accounts
    ensures Sorted(c.accounts[k])
  {
  }

  lemma RootedCountsIf(c: Chain, w: Write)
    ensures w.slot in c.slots && c.slots[w.slot].status.Rooted? && w.slot <= c.root ==> !IsLost(c, w)
  {
  }

  lemma AnswerIs(c: Chain, k: Pubkey)
    ensures k in c.accounts ==> c.AccountAndSlot(k) == c.LastLive(c.accounts[k])
  {
  }
}
