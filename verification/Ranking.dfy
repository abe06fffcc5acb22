/** Orders of one tree listed from the best key to the worst. */
module Rankings {
  import opened Types

  /** Does key `a` come before key `b` on this side? Ascending for asks, descending for bids. */
  predicate Before(side: Side, a: int, b: int) { if side.Bid? then a > b else a < b }

  ghost predicate IsFirst(side: Side, ks: set<nat>, k: nat) {
    k in ks && forall q :: q in ks ==> q == k || Before(side, k, q)
  }

  lemma FirstOfMore(side: Side, ks: set<nat>, x: nat, y: nat)
    requires x in ks && IsFirst(side, ks - {x}, y)
    ensures IsFirst(side, ks, if Before(side, x, y) then x else y)
  {
    forall q | q in ks
      ensures var k := if Before(side, x, y) then x else y; q == k || Before(side, k, q)
    {
      assert q == x || q in ks - {x};
    }
  }

  lemma {:induction false} FirstKeyExists(side: Side, ks: set<nat>)
    requires ks != {}
    ensures exists k :: IsFirst(side, ks, k)
    decreases |ks|
  {
    var x :| x in ks;
    if ks == {x} {
      assert IsFirst(side, ks, x);
    } else {
      hide IsFirst;
      FirstKeyExists(side, ks - {x});
      var y :| IsFirst(side, ks - {x}, y);
      FirstOfMore(side, ks, x, y);
    }
  }

  ghost function FirstKey(side: Side, ks: set<nat>): (k: nat)
    requires ks != {}
    ensures k in ks && forall q :: q in ks ==> q == k || Before(side, k, q)
  {
    FirstKeyExists(side, ks);
    var k :| IsFirst(side, ks, k);
    k
  }

  /** The orders from the first to the last. */
  ghost function Ranked(side: Side, orders: map<nat, LeafNode>): seq<LeafNode>
    decreases |orders|
  {
    if orders == map[] then []
    else
      var k := FirstKey(side, orders.Keys);
      [orders[k]] + Ranked(side, orders - {k})
  }

  ghost predicate KeysMatch(orders: map<nat, LeafNode>) {
    forall k :: k in orders ==> orders[k].key == k
  }

  ghost predicate StrictlyRanked(side: Side, s: seq<LeafNode>) {
    forall i, j :: 0 <= i < j < |s| ==> Before(side, s[i].key, s[j].key)
  }

  /** `s` lists exactly the orders of the map. */
  ghost predicate Lists(s: seq<LeafNode>, orders: map<nat, LeafNode>) {
    && (forall i :: 0 <= i < |s| ==> s[i].key in orders && orders[s[i].key] == s[i])
    && (forall k :: k in orders ==> orders[k] in s)
  }

  lemma PrependListed(side: Side, k: nat, orders: map<nat, LeafNode>, tail: seq<LeafNode>)
    requires KeysMatch(orders) && k in orders
    requires forall q :: q in orders ==> q == k || Before(side, k, q)
    requires StrictlyRanked(side, tail) && Lists(tail, orders - {k})
    ensures StrictlyRanked(side, [orders[k]] + tail) && Lists([orders[k]] + tail, orders)
  {
    var s := [orders[k]] + tail;
    forall i, j | 0 <= i < j < |s|
      ensures Before(side, s[i].key, s[j].key)
    {
      assert s[j] == tail[j - 1];
      assert tail[j - 1].key in orders - {k};
      if i > 0 { assert s[i] == tail[i - 1]; }
    }
    forall i | 0 <= i < |s|
      ensures s[i].key in orders && orders[s[i].key] == s[i]
    {
      if i > 0 { assert s[i] == tail[i - 1]; assert tail[i - 1].key in orders - {k}; }
    }
    forall q | q in orders
      ensures orders[q] in s
    {
      if q != k { assert (orders - {k})[q] in tail; }
    }
  }

  lemma {:induction false} RankedIsRanked(side: Side, orders: map<nat, LeafNode>)
    requires KeysMatch(orders)
    ensures StrictlyRanked(side, Ranked(side, orders)) && Lists(Ranked(side, orders), orders)
    decreases |orders|
  {
    hide StrictlyRanked, Lists;
    if orders == map[] {
      NothingListed(side);
    } else {
      assert orders.Keys != {} by { var q :| q in orders; }
      var k := FirstKey(side, orders.Keys);
      RankedIsRanked(side, orders - {k});
      PrependListed(side, k, orders, Ranked(side, orders - {k}));
    }
  }

  lemma NothingListed(side: Side)
    ensures StrictlyRanked(side, []) && Lists([], map[])
  {
  }

  /** There is only one such list. */
  lemma {:induction false} RankingIsUnique(side: Side, s: seq<LeafNode>, orders: map<nat, LeafNode>)
    requires KeysMatch(orders) && StrictlyRanked(side, s) && Lists(s, orders)
    ensures s == Ranked(side, orders)
    decreases |s|
  {
    if s == [] {
      assert orders == map[] by {
        if k :| k in orders { assert orders[k] in s; }
      }
    } else {
      assert s[0].key in orders.Keys;
      var k := FirstKey(side, orders.Keys);
      var i :| 0 <= i < |s| && s[i] == orders[k];
      assert s[0].key == k || Before(side, k, s[0].key);
      assert i == 0;
      var rest := orders - {k};
      forall q | q in rest
        ensures rest[q] in s[1..]
      {
        var j :| 0 <= j < |s| && s[j] == orders[q];
        assert j > 0;
        assert s[1..][j - 1] == orders[q];
      }
      RankingIsUnique(side, s[1..], rest);
    }
  }

  /** The order that expires first; among those that expire together the one with the smallest key. */
  ghost predicate ExpiresFirst(orders: map<nat, LeafNode>, k: nat) {
    k in orders &&
    forall q :: q in orders && q != k ==>
      orders[k].Expiry() < orders[q].Expiry() || (orders[k].Expiry() == orders[q].Expiry() && k < q)
  }

  lemma {:induction false} ExpiresFirstExists(orders: map<nat, LeafNode>)
    requires orders != map[]
    ensures exists k :: ExpiresFirst(orders, k)
    decreases |orders|
  {
    var x :| x in orders;
    var rest := orders - {x};
    if rest == map[] {
      assert forall q :: q in orders && q != x ==> q in rest;
      assert ExpiresFirst(orders, x);
    } else {
      ExpiresFirstExists(rest);
      var y :| ExpiresFirst(rest, y);
      var ex, ey := orders[x].Expiry(), orders[y].Expiry();
      var k := if ex < ey || (ex == ey && x < y) then x else y;
      forall q | q in orders && q != k
        ensures orders[k].Expiry() < orders[q].Expiry() || (orders[k].Expiry() == orders[q].Expiry() && k < q)
      {
        if q != x { assert q in rest; }
      }
      assert ExpiresFirst(orders, k);
    }
  }

  ghost function FirstToExpire(orders: map<nat, LeafNode>): (k: nat)
    requires orders != map[]
    ensures ExpiresFirst(orders, k)
  {
    ExpiresFirstExists(orders);
    var k :| ExpiresFirst(orders, k);
    k
  }
}
