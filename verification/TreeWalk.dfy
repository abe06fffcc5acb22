/** The orders of a crit-bit tree from one end to the other, and the ones a search along one side finds. */
module TreeWalks {
  import opened Types
  import opened Keys
  import opened Trees
  import opened Rankings

  /** The tips with their cells: left to right for asks, right to left for bids. */
  function Walk(t: Tree, side: Side): seq<(nat, LeafNode)> {
    match t
    case Tip(h, leaf) => [(h, leaf)]
    case Fork(_, _, _, zero, one) =>
      if side.Bid? then Walk(one, side) + Walk(zero, side) else Walk(zero, side) + Walk(one, side)
  }

  function Leaves(s: seq<(nat, LeafNode)>): (r: seq<LeafNode>)
    ensures |r| == |s| && forall i :: 0 <= i < |s| ==> r[i] == s[i].1
  {
    seq(|s|, i requires 0 <= i < |s| => s[i].1)
  }

  /** Everything under the zero side has a smaller key than everything under the one side. */
  lemma SidesOrdered(t: Tree, a: nat, b: nat)
    requires WellFormed(t) && t.Fork?
    requires a in Orders(t.zero) && b in Orders(t.one)
    ensures a < b
  {
    assert OnSide(a, t.prefixLen, t.key, false) && OnSide(b, t.prefixLen, t.key, true);
    CritBitOrders(a, b, t.prefixLen);
  }

  lemma ListsUnion(a: seq<LeafNode>, b: seq<LeafNode>, x: map<nat, LeafNode>, y: map<nat, LeafNode>)
    requires Lists(a, x) && Lists(b, y) && x.Keys !! y.Keys
    ensures Lists(a + b, x + y)
  {
    var s := a + b;
    forall i | 0 <= i < |s|
      ensures s[i].key in x + y && (x + y)[s[i].key] == s[i]
    {
      if i < |a| { assert s[i] == a[i]; } else { assert s[i] == b[i - |a|]; }
    }
  }

  /** The two halves of a walk. */
  lemma WalkHalves(t: Tree, side: Side)
    requires WellFormed(t) && t.Fork?
    ensures var first, second := t.Child(side.Bid?), t.Child(!side.Bid?);
            && WellFormed(first) && WellFormed(second)
            && Leaves(Walk(t, side)) == Leaves(Walk(first, side)) + Leaves(Walk(second, side))
            && |Walk(t, side)| == |Walk(first, side)| + |Walk(second, side)|
            && Orders(t) == Orders(first) + Orders(second)
            && Orders(first).Keys !! Orders(second).Keys
            && (forall x, y :: x in Orders(first) && y in Orders(second) ==> Before(side, x, y))
  {
    ForkDisjoint(t);
    forall x, y | x in Orders(t.zero) && y in Orders(t.one)
      ensures x < y
    {
      SidesOrdered(t, x, y);
    }
  }

  lemma {:induction false} WalkLists(t: Tree, side: Side)
    requires WellFormed(t)
    ensures Lists(Leaves(Walk(t, side)), Orders(t)) && |Walk(t, side)| == Tips(t)
  {
    if t.Fork? {
      var first, second := t.Child(side.Bid?), t.Child(!side.Bid?);
      WalkHalves(t, side);
      WalkLists(first, side);
      WalkLists(second, side);
      hide WellFormed, Lists, Orders, Walk;
      ListsUnion(Leaves(Walk(first, side)), Leaves(Walk(second, side)), Orders(first), Orders(second));
    } else {
      assert Leaves(Walk(t, side))[0] == t.leaf;
    }
  }

  lemma ConcatRanked(side: Side, a: seq<LeafNode>, b: seq<LeafNode>, x: map<nat, LeafNode>, y: map<nat, LeafNode>)
    requires StrictlyRanked(side, a) && StrictlyRanked(side, b) && Lists(a, x) && Lists(b, y)
    requires forall p, q :: p in x && q in y ==> Before(side, p, q)
    ensures StrictlyRanked(side, a + b)
  {
    var s := a + b;
    forall i, j | 0 <= i < j < |s|
      ensures Before(side, s[i].key, s[j].key)
    {
      if i < |a| <= j {
        assert a[i].key in x && b[j - |a|].key in y;
      } else if |a| <= i {
        assert s[i] == b[i - |a|] && s[j] == b[j - |a|];
      }
    }
  }

  lemma {:induction false} WalkIsStrictlyRanked(t: Tree, side: Side)
    requires WellFormed(t)
    ensures StrictlyRanked(side, Leaves(Walk(t, side)))
  {
    if t.Fork? {
      var first, second := t.Child(side.Bid?), t.Child(!side.Bid?);
      WalkHalves(t, side);
      WalkIsStrictlyRanked(first, side);
      WalkIsStrictlyRanked(second, side);
      WalkLists(first, side);
      WalkLists(second, side);
      hide WellFormed, Lists, Orders, Walk, StrictlyRanked;
      ConcatRanked(side, Leaves(Walk(first, side)), Leaves(Walk(second, side)), Orders(first), Orders(second));
    }
  }

  /** Walking the tree lists its orders by rank, each exactly once. */
  lemma WalkIsRanking(t: Tree, side: Side)
    requires WellFormed(t)
    ensures Leaves(Walk(t, side)) == Ranked(side, Orders(t))
  {
    WalkLists(t, side);
    WalkIsStrictlyRanked(t, side);
    OrdersHaveTheirKeys(t);
    RankingIsUnique(side, Leaves(Walk(t, side)), Orders(t));
  }

  // ---------- searches that keep to one side ----------

  /** The tip that `leaf_min_max` and a walk in the other direction start from. */
  function Outermost(t: Tree, bit: bool): Tree {
    if t.Tip? then t else Outermost(t.Child(bit), bit)
  }

  lemma {:induction false} OutermostIsFirst(t: Tree, bit: bool)
    requires WellFormed(t)
    ensures Orders(t).Keys != {} && |Walk(t, if bit then Bid else Ask)| > 0
    ensures var side := if bit then Bid else Ask;
            && Outermost(t, bit).Tip?
            && Walk(t, side)[0] == (Outermost(t, bit).h, Outermost(t, bit).leaf)
            && Outermost(t, bit).leaf == Orders(t)[FirstKey(side, Orders(t).Keys)]
  {
    OutermostHeadsWalk(t, bit);
    WalkIsRanking(t, if bit then Bid else Ask);
    OrdersHaveTheirKeys(t);
  }

  lemma {:induction false} OutermostHeadsWalk(t: Tree, bit: bool)
    ensures var side := if bit then Bid else Ask;
            && Outermost(t, bit).Tip? && |Walk(t, side)| > 0
            && Walk(t, side)[0] == (Outermost(t, bit).h, Outermost(t, bit).leaf)
  {
    if t.Fork? {
      OutermostHeadsWalk(t.Child(bit), bit);
      OutermostHeadsWalk(t.Child(!bit), bit);
    }
  }

  /** The tip that following the smaller cached expiry leads to, the left one when they are equal. */
  function Expiring(t: Tree): Tree {
    if t.Tip? then t else Expiring(t.Child(Earliest(t.zero) > Earliest(t.one)))
  }

  lemma {:induction false} ExpiringExpiresFirst(t: Tree)
    requires WellFormed(t)
    ensures Expiring(t).Tip? && Expiring(t).leaf.Expiry() == Earliest(t)
    ensures ExpiresFirst(Orders(t), Expiring(t).leaf.key)
    ensures Orders(t)[Expiring(t).leaf.key] == Expiring(t).leaf
  {
    if t.Fork? {
      var bit := Earliest(t.zero) > Earliest(t.one);
      ExpiringExpiresFirst(t.Child(bit));
      EarliestIsMinimum(t.Child(!bit));
      ForkDisjoint(t);
      var k := Expiring(t).leaf.key;
      forall q | q in Orders(t) && q != k
        ensures Orders(t)[k].Expiry() < Orders(t)[q].Expiry() || (Orders(t)[k].Expiry() == Orders(t)[q].Expiry() && k < q)
      {
        if q in Orders(t.Child(!bit)) && !bit {
          SidesOrdered(t, k, q);
        }
      }
    }
  }

  // ---------- the cell of an order ----------

  /** Cell `h` holds the order under `k`. */
  predicate TipAt(t: Tree, h: nat, k: nat) {
    match t
    case Tip(g, leaf) => g == h && leaf.key == k
    case Fork(_, _, _, zero, one) => TipAt(zero, h, k) || TipAt(one, h, k)
  }

  lemma {:induction false} WalkTipAt(t: Tree, side: Side)
    ensures forall i :: 0 <= i < |Walk(t, side)| ==> TipAt(t, Walk(t, side)[i].0, Walk(t, side)[i].1.key)
  {
    if t.Fork? {
      WalkTipAt(t.zero, side);
      WalkTipAt(t.one, side);
    }
  }

  /** The context of an order's cell. */
  lemma {:induction false} TipContext(t: Tree, h: nat, k: nat, c: Context) returns (d: Context, tip: Tree)
    requires TipAt(t, h, k)
    ensures Plug(d, tip) == Plug(c, t) && tip.Tip? && tip.h == h && tip.leaf.key == k
  {
    match t
    case Tip(_, _) => d, tip := c, t;
    case Fork(g, n, key, zero, one) =>
      if TipAt(zero, h, k) {
        d, tip := TipContext(zero, h, k, Under(g, n, key, false, one, c));
      } else {
        d, tip := TipContext(one, h, k, Under(g, n, key, true, zero, c));
      }
  }

  /** Replacing an order by one with the same key leaves the other cells with theirs. */
  lemma {:induction false} TipAtFrame(c: Context, t: Tree, u: Tree, h: nat, k: nat)
    requires TipAt(t, h, k) ==> TipAt(u, h, k)
    ensures TipAt(Plug(c, t), h, k) ==> TipAt(Plug(c, u), h, k)
  {
    if c.Under? {
      TipAtFrame(c.up, Join(c.h, c.prefixLen, c.key, c.bit, t, c.sibling),
                 Join(c.h, c.prefixLen, c.key, c.bit, u, c.sibling), h, k);
    }
  }
}
