/** Crit-bit trees as values: the shape that the linked nodes of an arena stand for. */
module Trees {
  import opened Types
  import opened Keys

  /** Every node keeps the handle of the arena cell it occupies. An inner node's `key` may be the
      key of an order removed long ago; only its first `prefixLen` bits matter. */
  datatype Tree =
    | Tip(h: nat, leaf: LeafNode)
    | Fork(h: nat, prefixLen: nat, key: nat, zero: Tree, one: Tree)
  {
    function Child(bit: bool): Tree
      requires Fork?
    {
      if bit then one else zero
    }
  }

  /** The smallest expiry in the tree. */
  function Earliest(t: Tree): int {
    match t
    case Tip(_, leaf) => leaf.Expiry()
    case Fork(_, _, _, zero, one) => Min(Earliest(zero), Earliest(one))
  }

  function Handles(t: Tree): set<nat> {
    match t
    case Tip(h, _) => {h}
    case Fork(h, _, _, zero, one) => {h} + Handles(zero) + Handles(one)
  }

  /** No two nodes share an arena cell. */
  ghost predicate Separate(t: Tree) {
    t.Fork? ==>
      && Separate(t.zero) && Separate(t.one)
      && t.h !in Handles(t.zero) && t.h !in Handles(t.one)
      && Handles(t.zero) !! Handles(t.one)
  }

  /** The orders in the tree by key. */
  function Orders(t: Tree): map<nat, LeafNode> {
    match t
    case Tip(_, leaf) => map[leaf.key := leaf]
    case Fork(_, _, _, zero, one) => Orders(zero) + Orders(one)
  }

  function Tips(t: Tree): nat {
    match t
    case Tip(_, _) => 1
    case Fork(_, _, _, zero, one) => Tips(zero) + Tips(one)
  }

  /** `k` shares the first `n` bits with `key` and continues with `bit`. */
  predicate OnSide(k: nat, n: nat, key: nat, bit: bool) {
    k < KEY_SIZE && n < KEY_BITS && Prefix(k, n) == Prefix(key, n) && CritBit(k, n) == bit
  }

  ghost predicate AllOnSide(ks: set<nat>, n: nat, key: nat, bit: bool) {
    forall k :: k in ks ==> OnSide(k, n, key, bit)
  }

  /** The crit-bit invariant, for whole subtrees. */
  ghost predicate WellFormed(t: Tree) {
    match t
    case Tip(_, leaf) => leaf.key < KEY_SIZE
    case Fork(_, n, key, zero, one) =>
      && key < KEY_SIZE && n < KEY_BITS
      && WellFormed(zero) && WellFormed(one)
      && AllOnSide(Orders(zero).Keys, n, key, false)
      && AllOnSide(Orders(one).Keys, n, key, true)
  }

  /** A tree with one subtree taken out, read from the hole up to the root. */
  datatype Context =
    | Top
    | Under(h: nat, prefixLen: nat, key: nat, bit: bool, sibling: Tree, up: Context)

  function Join(h: nat, n: nat, key: nat, bit: bool, t: Tree, sibling: Tree): Tree {
    if bit then Fork(h, n, key, sibling, t) else Fork(h, n, key, t, sibling)
  }

  /** The tree with `t` in the hole. */
  function Plug(c: Context, t: Tree): Tree {
    match c
    case Top => t
    case Under(h, n, key, bit, sibling, up) => Plug(up, Join(h, n, key, bit, t, sibling))
  }

  function ContextHandles(c: Context): set<nat> {
    match c
    case Top => {}
    case Under(h, _, _, _, sibling, up) => {h} + Handles(sibling) + ContextHandles(up)
  }

  function ContextOrders(c: Context): map<nat, LeafNode> {
    match c
    case Top => map[]
    case Under(_, _, _, _, sibling, up) => Orders(sibling) + ContextOrders(up)
  }

  function ContextTips(c: Context): nat {
    match c
    case Top => 0
    case Under(_, _, _, _, sibling, up) => Tips(sibling) + ContextTips(up)
  }

  ghost predicate ContextSeparate(c: Context) {
    c.Under? ==>
      && Separate(c.sibling) && ContextSeparate(c.up)
      && c.h !in Handles(c.sibling) && c.h !in ContextHandles(c.up)
      && Handles(c.sibling) !! ContextHandles(c.up)
  }

  /** The invariant for the nodes around the hole, when the hole holds the keys `ks`. */
  ghost predicate ContextWellFormed(c: Context, ks: set<nat>) {
    match c
    case Top => true
    case Under(_, n, key, bit, sibling, up) =>
      && key < KEY_SIZE && n < KEY_BITS
      && WellFormed(sibling)
      && AllOnSide(ks, n, key, bit) && AllOnSide(Orders(sibling).Keys, n, key, !bit)
      && ContextWellFormed(up, ks + Orders(sibling).Keys)
  }

  /** `k` may be put in the hole. */
  predicate Admits(c: Context, k: nat) {
    c.Under? ==> OnSide(k, c.prefixLen, c.key, c.bit) && Admits(c.up, k)
  }

  /** The definitions above, read off a single order. */
  lemma TipFacts(t: Tree)
    requires t.Tip?
    ensures Handles(t) == {t.h} && Orders(t) == map[t.leaf.key := t.leaf]
    ensures Earliest(t) == t.leaf.Expiry() && Tips(t) == 1
    ensures Separate(t) && (WellFormed(t) <==> t.leaf.key < KEY_SIZE)
  {
  }

  // ---------- a plugged tree has the parts of its context and of what fills the hole ----------

  lemma {:induction false} PlugHandles(c: Context, t: Tree)
    ensures Handles(Plug(c, t)) == Handles(t) + ContextHandles(c)
  {
    if c.Under? {
      PlugHandles(c.up, Join(c.h, c.prefixLen, c.key, c.bit, t, c.sibling));
    }
  }

  lemma {:induction false} PlugTips(c: Context, t: Tree)
    ensures Tips(Plug(c, t)) == Tips(t) + ContextTips(c)
  {
    if c.Under? {
      PlugTips(c.up, Join(c.h, c.prefixLen, c.key, c.bit, t, c.sibling));
    }
  }

  lemma {:induction false} PlugSeparate(c: Context, t: Tree)
    ensures Separate(Plug(c, t)) <==> Separate(t) && ContextSeparate(c) && Handles(t) !! ContextHandles(c)
  {
    if c.Under? {
      PlugSeparate(c.up, Join(c.h, c.prefixLen, c.key, c.bit, t, c.sibling));
    }
  }

  lemma {:induction false} PlugWellFormed(c: Context, t: Tree)
    ensures WellFormed(Plug(c, t)) <==> WellFormed(t) && ContextWellFormed(c, Orders(t).Keys)
  {
    if c.Under? {
      var u := Join(c.h, c.prefixLen, c.key, c.bit, t, c.sibling);
      assert Orders(u).Keys == Orders(t).Keys + Orders(c.sibling).Keys;
      PlugWellFormed(c.up, u);
    }
  }

  /** The two sides of a well-formed node hold different keys. */
  lemma ForkDisjoint(t: Tree)
    requires WellFormed(t) && t.Fork?
    ensures Orders(t.zero).Keys !! Orders(t.one).Keys
  {
    SidesDisjoint(Orders(t.zero).Keys, Orders(t.one).Keys, t.prefixLen, t.key, false);
  }

  lemma SidesDisjoint(a: set<nat>, b: set<nat>, n: nat, key: nat, bit: bool)
    requires AllOnSide(a, n, key, bit) && AllOnSide(b, n, key, !bit)
    ensures a !! b
  {
    forall k | k in a
      ensures k !in b
    {
      assert OnSide(k, n, key, bit);
    }
  }

  lemma JoinOrders(h: nat, n: nat, key: nat, bit: bool, t: Tree, sibling: Tree)
    requires AllOnSide(Orders(t).Keys, n, key, bit) && AllOnSide(Orders(sibling).Keys, n, key, !bit)
    ensures Orders(Join(h, n, key, bit, t, sibling)) == Orders(t) + Orders(sibling)
    ensures Orders(t).Keys !! Orders(sibling).Keys
  {
    SidesDisjoint(Orders(t).Keys, Orders(sibling).Keys, n, key, bit);
  }

  lemma {:induction false} PlugOrders(c: Context, t: Tree)
    requires ContextWellFormed(c, Orders(t).Keys)
    ensures Orders(t).Keys !! ContextOrders(c).Keys
    ensures Orders(Plug(c, t)) == Orders(t) + ContextOrders(c)
  {
    if c.Under? {
      var u := Join(c.h, c.prefixLen, c.key, c.bit, t, c.sibling);
      JoinOrders(c.h, c.prefixLen, c.key, c.bit, t, c.sibling);
      assert Orders(u).Keys == Orders(t).Keys + Orders(c.sibling).Keys;
      PlugOrders(c.up, u);
      UnionAssociates(Orders(t), Orders(c.sibling), ContextOrders(c.up));
    }
  }

  lemma UnionAssociates(a: map<nat, LeafNode>, b: map<nat, LeafNode>, c: map<nat, LeafNode>)
    ensures (a + b) + c == a + (b + c)
  {
  }

  /** Fewer keys, or one more that every node around the hole admits, keep the invariant. */
  lemma {:induction false} ContextMonotone(c: Context, ks: set<nat>, ks': set<nat>)
    requires ContextWellFormed(c, ks)
    requires forall k :: k in ks' && k !in ks ==> Admits(c, k)
    ensures ContextWellFormed(c, ks')
  {
    if c.Under? {
      ContextMonotone(c.up, ks + Orders(c.sibling).Keys, ks' + Orders(c.sibling).Keys);
    }
  }

  /** A key that the context admits is in the whole tree only if it is in the hole. */
  lemma {:induction false} AdmittedIsNotAround(c: Context, ks: set<nat>, k: nat)
    requires ContextWellFormed(c, ks) && Admits(c, k)
    ensures k !in ContextOrders(c)
  {
    if c.Under? {
      AdmittedIsNotAround(c.up, ks + Orders(c.sibling).Keys, k);
    }
  }

  lemma {:induction false} OrdersHaveTheirKeys(t: Tree)
    ensures forall k :: k in Orders(t) ==> Orders(t)[k].key == k
    ensures |Orders(t)| >= 1
  {
    if t.Fork? {
      OrdersHaveTheirKeys(t.zero);
      OrdersHaveTheirKeys(t.one);
      var k :| k in Orders(t.zero);
      assert k in Orders(t);
    }
  }

  lemma {:induction false} TipsAreOrders(t: Tree)
    requires WellFormed(t)
    ensures Tips(t) == |Orders(t)|
  {
    if t.Fork? {
      TipsAreOrders(t.zero);
      TipsAreOrders(t.one);
      ForkDisjoint(t);
      assert Orders(t).Keys == Orders(t.zero).Keys + Orders(t.one).Keys;
      assert |Orders(t).Keys| == |Orders(t.zero).Keys| + |Orders(t.one).Keys|;
    }
  }

  /** A tree of n orders takes 2n-1 cells. */
  lemma {:induction false} HandleCount(t: Tree)
    requires Separate(t)
    ensures |Handles(t)| == 2 * Tips(t) - 1
    ensures Tips(t) >= 1
  {
    if t.Fork? {
      HandleCount(t.zero);
      HandleCount(t.one);
      assert |Handles(t.zero) + Handles(t.one)| == |Handles(t.zero)| + |Handles(t.one)|;
      assert Handles(t) == (Handles(t.zero) + Handles(t.one)) + {t.h};
    }
  }

  /** No order expires before the cached time, and one expires then. */
  lemma {:induction false} EarliestIsMinimum(t: Tree)
    ensures forall k :: k in Orders(t) ==> Earliest(t) <= Orders(t)[k].Expiry()
    ensures WellFormed(t) ==> exists k :: k in Orders(t) && Orders(t)[k].Expiry() == Earliest(t)
  {
    if t.Tip? {
      assert t.leaf.key in Orders(t);
    } else {
      EarliestIsMinimum(t.zero);
      EarliestIsMinimum(t.one);
      if WellFormed(t) {
        ForkDisjoint(t);
        var u := if Earliest(t.zero) <= Earliest(t.one) then t.zero else t.one;
        var k :| k in Orders(u) && Orders(u)[k].Expiry() == Earliest(u);
        assert k in Orders(t) && Orders(t)[k] == Orders(u)[k];
      }
    }
  }
}
