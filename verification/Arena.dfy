/** The node array that the two trees of a book side share, its allocator, and what the linked nodes stand for. */
module Arenas {
  import opened Types
  import opened Trees

  datatype AnyNode =
    | Uninitialized
    | InnerNode(prefixLen: nat, key: nat, zero: nat, one: nat, zeroExpiry: int, oneExpiry: int)
    | Leaf(leaf: LeafNode)
    | FreeNode(next: nat)
    | LastFreeNode(next: nat)
  {
    /** The nodes that `node` and `node_mut` hand out. */
    predicate InUse() { InnerNode? || Leaf? }

    function Key(): nat
      requires InUse()
    {
      if InnerNode? then key else leaf.key
    }

    function EarliestExpiry(): int
      requires InUse()
    {
      if InnerNode? then Min(zeroExpiry, oneExpiry) else leaf.Expiry()
    }

    function Child(bit: bool): nat
      requires InnerNode?
    {
      if bit then one else zero
    }

    function ChildExpiry(bit: bool): int
      requires InnerNode?
    {
      if bit then oneExpiry else zeroExpiry
    }

    function WithChildExpiry(bit: bool, e: int): AnyNode
      requires InnerNode?
    {
      if bit then this.(oneExpiry := e) else this.(zeroExpiry := e)
    }
  }

  function JoinNode(n: nat, key: nat, bit: bool, h: nat, sibling: nat, e: int, siblingExpiry: int): AnyNode {
    if bit then InnerNode(n, key, sibling, h, siblingExpiry, e) else InnerNode(n, key, h, sibling, e, siblingExpiry)
  }

  // ---------- linked nodes as trees ----------

  /** The cells hold exactly the tree `t`, with exact child expiries in every inner node. */
  ghost predicate Represents(ns: seq<AnyNode>, t: Tree) {
    t.h < |ns| &&
    match t
    case Tip(h, leaf) => ns[h] == Leaf(leaf)
    case Fork(h, n, key, zero, one) =>
      && ns[h] == InnerNode(n, key, zero.h, one.h, Earliest(zero), Earliest(one))
      && Represents(ns, zero) && Represents(ns, one)
  }

  /** The cells hold the context `c`, whose hole links to handle `h` and caches the expiry `e` for it. */
  ghost predicate RepresentsContext(ns: seq<AnyNode>, c: Context, h: nat, e: int) {
    c.Under? ==>
      && c.h < |ns|
      && ns[c.h] == JoinNode(c.prefixLen, c.key, c.bit, h, c.sibling.h, e, Earliest(c.sibling))
      && Represents(ns, c.sibling)
      && RepresentsContext(ns, c.up, c.h, Min(e, Earliest(c.sibling)))
  }

  lemma TipRepresents(ns: seq<AnyNode>, t: Tree)
    requires t.Tip?
    ensures Represents(ns, t) <==> t.h < |ns| && ns[t.h] == Leaf(t.leaf)
  {
  }

  lemma {:induction false} RepresentsInRange(ns: seq<AnyNode>, t: Tree)
    requires Represents(ns, t)
    ensures forall h :: h in Handles(t) ==> h < |ns| && ns[h].InUse()
    ensures t.h < |ns| && ns[t.h].InUse()
    ensures ns[t.h].EarliestExpiry() == Earliest(t)
  {
    if t.Fork? {
      RepresentsInRange(ns, t.zero);
      RepresentsInRange(ns, t.one);
    }
  }

  lemma {:induction false} RepresentsFrame(ns: seq<AnyNode>, ns': seq<AnyNode>, t: Tree)
    requires Represents(ns, t) && |ns| <= |ns'|
    requires forall h :: h in Handles(t) && h < |ns| ==> ns'[h] == ns[h]
    ensures Represents(ns', t)
  {
    if t.Fork? {
      RepresentsFrame(ns, ns', t.zero);
      RepresentsFrame(ns, ns', t.one);
    }
  }

  lemma {:induction false} RepresentsContextFrame(ns: seq<AnyNode>, ns': seq<AnyNode>, c: Context, h: nat, e: int)
    requires RepresentsContext(ns, c, h, e) && |ns| <= |ns'|
    requires forall i :: i in ContextHandles(c) && i < |ns| ==> ns'[i] == ns[i]
    ensures RepresentsContext(ns', c, h, e)
  {
    if c.Under? {
      RepresentsFrame(ns, ns', c.sibling);
      RepresentsContextFrame(ns, ns', c.up, c.h, Min(e, Earliest(c.sibling)));
    }
  }

  lemma {:induction false} PlugRepresents(ns: seq<AnyNode>, c: Context, t: Tree)
    ensures Represents(ns, Plug(c, t)) <==> Represents(ns, t) && RepresentsContext(ns, c, t.h, Earliest(t))
  {
    if c.Under? {
      PlugRepresents(ns, c.up, Join(c.h, c.prefixLen, c.key, c.bit, t, c.sibling));
    }
  }

  // ---------- the upward walk that keeps the cached expiries ----------

  /** The path that a descent collects: the inner nodes passed and the side taken at each. */
  function StackOf(c: Context): seq<(nat, bool)> {
    match c
    case Top => []
    case Under(h, _, _, bit, _, up) => StackOf(up) + [(h, bit)]
  }

  ghost predicate StackOk(ns: seq<AnyNode>, stack: seq<(nat, bool)>) {
    forall i :: 0 <= i < |stack| ==> stack[i].0 < |ns| && ns[stack[i].0].InnerNode?
  }

  ghost function UpdateExpiries(ns: seq<AnyNode>, stack: seq<(nat, bool)>, outdated: int, fresh': int): (r: seq<AnyNode>)
    requires StackOk(ns, stack)
    ensures |r| == |ns|
    decreases |stack|
  {
    if stack == [] then ns
    else
      var (h, bit) := stack[|stack| - 1];
      if ns[h].ChildExpiry(bit) != outdated then ns
      else
        var node := ns[h].WithChildExpiry(bit, fresh');
        UpdateExpiries(ns[h := node], stack[..|stack| - 1], ns[h].EarliestExpiry(), node.EarliestExpiry())
  }

  lemma {:induction false} ContextStackOk(ns: seq<AnyNode>, c: Context, h: nat, e: int)
    requires RepresentsContext(ns, c, h, e)
    ensures StackOk(ns, StackOf(c))
  {
    if c.Under? {
      ContextStackOk(ns, c.up, c.h, Min(e, Earliest(c.sibling)));
    }
  }

  /** One step of the walk. */
  lemma UpdateExpiriesStep(ns: seq<AnyNode>, stack: seq<(nat, bool)>, h: nat, bit: bool, outdated: int, fresh': int)
    requires StackOk(ns, stack) && h < |ns| && ns[h].InnerNode?
    ensures StackOk(ns, stack + [(h, bit)])
    ensures ns[h].ChildExpiry(bit) != outdated ==> UpdateExpiries(ns, stack + [(h, bit)], outdated, fresh') == ns
    ensures ns[h].ChildExpiry(bit) == outdated ==>
              var node := ns[h].WithChildExpiry(bit, fresh');
              && StackOk(ns[h := node], stack)
              && UpdateExpiries(ns, stack + [(h, bit)], outdated, fresh')
                 == UpdateExpiries(ns[h := node], stack, ns[h].EarliestExpiry(), node.EarliestExpiry())
  {
    assert (stack + [(h, bit)])[..|stack|] == stack;
  }

  /** Stopping the walk early loses nothing: afterwards every cached expiry around the hole is exact again. */
  lemma {:induction false} UpdateExpiriesIsExact(
      ns: seq<AnyNode>, c: Context, h: nat, before: int, outdated: int, after: int)
    requires RepresentsContext(ns, c, h, before) && ContextSeparate(c)
    requires StackOk(ns, StackOf(c))
    requires outdated == before || after == before
    ensures var ns' := UpdateExpiries(ns, StackOf(c), outdated, after);
            && RepresentsContext(ns', c, h, after)
            && forall i :: 0 <= i < |ns| && i !in ContextHandles(c) ==> ns'[i] == ns[i]
    decreases c
  {
    hide Represents, Separate, Earliest, Handles, StackOk, UpdateExpiries;
    if c.Top? {
      WalkEnds(ns, outdated, after);
    } else {
      var e := Earliest(c.sibling);
      ContextStackOk(ns, c.up, c.h, Min(before, e));
      UpdateExpiriesStep(ns, StackOf(c.up), c.h, c.bit, outdated, after);
      if ns[c.h].ChildExpiry(c.bit) == outdated {
        var ns1 := ns[c.h := ns[c.h].WithChildExpiry(c.bit, after)];
        RepresentsContextFrame(ns, ns1, c.up, c.h, Min(before, e));
        UpdateExpiriesIsExact(ns1, c.up, c.h, Min(before, e), Min(before, e), Min(after, e));
        var ns2 := UpdateExpiries(ns1, StackOf(c.up), Min(before, e), Min(after, e));
        RepresentsFrame(ns, ns2, c.sibling);
        assert RepresentsContext(ns2, c, h, after);
      }
    }
  }

  lemma WalkEnds(ns: seq<AnyNode>, outdated: int, fresh': int)
    ensures UpdateExpiries(ns, [], outdated, fresh') == ns
  {
  }

  // ---------- the allocator ----------

  datatype Arena = Arena(nodes: seq<AnyNode>, bump: nat, freeLen: nat, freeHead: nat)

  /** `Broken` stands for the allocator's asserts on the tags of the free list. */
  datatype Allocation = Allocated(arena: Arena, handle: nat) | OutOfSpace | Broken

  const U32_MAX: int := 0xFFFF_FFFF

  function Allocate(a: Arena, val: AnyNode): Allocation {
    if a.freeLen == 0 then
      if a.bump < |a.nodes| && a.bump < U32_MAX
      then Allocated(a.(nodes := a.nodes[a.bump := val], bump := a.bump + 1), a.bump)
      else OutOfSpace
    else if a.freeHead >= |a.nodes| then Broken
    else match a.nodes[a.freeHead]
      case FreeNode(next) =>
        if a.freeLen > 1 then
          Allocated(a.(nodes := a.nodes[a.freeHead := val], freeHead := next, freeLen := a.freeLen - 1), a.freeHead)
        else Broken
      case LastFreeNode(next) =>
        if a.freeLen == 1 then
          Allocated(a.(nodes := a.nodes[a.freeHead := val], freeHead := next, freeLen := a.freeLen - 1), a.freeHead)
        else Broken
      case _ => Broken
  }

  function Release(a: Arena, h: nat): (r: Arena)
    requires h < |a.nodes|
    ensures |r.nodes| == |a.nodes|
  {
    var node := if a.freeLen == 0 then LastFreeNode(a.freeHead) else FreeNode(a.freeHead);
    a.(nodes := a.nodes[h := node], freeLen := a.freeLen + 1, freeHead := h)
  }

  /** The free cells are linked from `head` on, and only the last one is tagged as such. */
  ghost predicate Chained(ns: seq<AnyNode>, free: seq<nat>, head: nat) {
    free != [] ==>
      && head == free[0] < |ns|
      && free[0] !in free[1..]
      && (if |free| == 1 then ns[head].LastFreeNode?
          else ns[head] == FreeNode(free[1]) && Chained(ns, free[1..], free[1]))
  }

  /** Every cell below the bump index is either in use or on the free chain. */
  ghost predicate ArenaOk(a: Arena, used: set<nat>, free: seq<nat>) {
    && a.bump <= |a.nodes| <= U32_MAX
    && |free| == a.freeLen
    && |used| + |free| == a.bump
    && Chained(a.nodes, free, a.freeHead)
    && (forall h: nat :: h < a.bump <==> h in used || h in free)
    && (forall h :: h in used ==> h !in free)
  }

  lemma {:induction false} ChainedFrame(ns: seq<AnyNode>, ns': seq<AnyNode>, free: seq<nat>, head: nat)
    requires Chained(ns, free, head) && |ns'| == |ns|
    requires forall h :: h in free && h < |ns| ==> ns'[h] == ns[h]
    ensures Chained(ns', free, head)
  {
    if |free| > 1 {
      ChainedFrame(ns, ns', free[1..], free[1]);
    }
  }

  /** What an allocation takes from the free chain. */
  function FreeAfterAllocate(free: seq<nat>): seq<nat> { if free == [] then [] else free[1..] }

  function Available(a: Arena): int { a.freeLen + |a.nodes| - a.bump }

  lemma TakeFromBump(a: Arena, used: set<nat>, val: AnyNode)
    requires ArenaOk(a, used, []) && a.bump < |a.nodes|
    ensures ArenaOk(a.(nodes := a.nodes[a.bump := val], bump := a.bump + 1), used + {a.bump}, [])
  {
  }

  lemma TakeFromChain(a: Arena, used: set<nat>, free: seq<nat>, val: AnyNode)
    requires ArenaOk(a, used, free) && free != []
    ensures var r := Allocate(a, val);
            && r.Allocated? && r.handle == free[0]
            && r.arena.nodes == a.nodes[free[0] := val] && r.arena.bump == a.bump && r.arena.freeLen == a.freeLen - 1
            && ArenaOk(r.arena, used + {free[0]}, free[1..])
  {
    forall h: nat
      ensures h in free <==> h == free[0] || h in free[1..]
    {
      assert free == [free[0]] + free[1..];
    }
    if |free| > 1 {
      ChainedFrame(a.nodes, a.nodes[free[0] := val], free[1..], free[1]);
    }
  }

  /** The asserts of the allocator never fire, and it fails only when no cell is left. */
  lemma AllocateOk(a: Arena, used: set<nat>, free: seq<nat>, val: AnyNode)
    requires ArenaOk(a, used, free)
    ensures var r := Allocate(a, val);
            && !r.Broken?
            && (r.OutOfSpace? <==> Available(a) == 0)
            && (r.Allocated? ==>
                  && r.handle !in used && r.handle < |a.nodes|
                  && r.arena.nodes == a.nodes[r.handle := val]
                  && r.arena.bump == Max(a.bump, |used| + 1)
                  && Available(r.arena) == Available(a) - 1
                  && ArenaOk(r.arena, used + {r.handle}, FreeAfterAllocate(free)))
  {
    if free != [] {
      TakeFromChain(a, used, free, val);
    } else if a.bump < |a.nodes| {
      TakeFromBump(a, used, val);
    }
  }

  lemma ReleaseOk(a: Arena, used: set<nat>, free: seq<nat>, h: nat)
    requires ArenaOk(a, used, free)
    requires h in used
    ensures ArenaOk(Release(a, h), used - {h}, [h] + free)
    ensures Available(Release(a, h)) == Available(a) + 1
  {
    var r, free' := Release(a, h), [h] + free;
    assert free'[1..] == free;
    ChainedFrame(a.nodes, r.nodes, free, a.freeHead);
  }

  /** Overwriting a cell in use does not concern the allocator. */
  lemma OverwriteOk(a: Arena, used: set<nat>, free: seq<nat>, ns: seq<AnyNode>)
    requires ArenaOk(a, used, free)
    requires |ns| == |a.nodes|
    requires forall h :: 0 <= h < |ns| && h !in used ==> ns[h] == a.nodes[h]
    ensures ArenaOk(a.(nodes := ns), used, free)
  {
    ChainedFrame(a.nodes, ns, free, a.freeHead);
  }
}
