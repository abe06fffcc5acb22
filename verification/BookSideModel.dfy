/** What a book side is for its users: two maps from key to order over a bounded number of cells. */
module BookSideModels {
  import opened Types
  import opened Rankings
  import opened Prices

  /** The number of cells that a tree of `n` orders takes: its orders and the inner nodes above them. */
  function Cells(n: nat): nat { if n == 0 then 0 else 2 * n - 1 }

  /** `bump` is the number of cells that were ever in use at the same time. */
  datatype BookSideModel = BookSideModel(
    fixed: map<nat, LeafNode>,
    pegged: map<nat, LeafNode>,
    bump: nat,
    capacity: nat)
  {
    function Get(c: Component): map<nat, LeafNode> { if c.Fixed? then fixed else pegged }

    function With(c: Component, orders: map<nat, LeafNode>): BookSideModel {
      if c.Fixed? then this.(fixed := orders) else this.(pegged := orders)
    }

    function UsedCells(): nat { Cells(|fixed|) + Cells(|pegged|) }

    function Available(): int { capacity - UsedCells() }

    /** Unless this holds, two more cells can be had. */
    predicate IsFull() { bump - UsedCells() <= 1 && bump >= capacity - 1 }

    /** The cells that one more order under `key` takes. */
    function Demand(c: Component, key: nat): nat {
      if key in Get(c) then 0 else if Get(c) == map[] then 1 else 2
    }

    /** Map insertion, if the cells are there. */
    function Insert(c: Component, leaf: LeafNode): Result<BookSideModel> {
      var n := Demand(c, leaf.key);
      if Available() < n then Err(SomeError)
      else Ok(With(c, Get(c)[leaf.key := leaf]).(bump := if n == 0 then bump else Max(bump, UsedCells() + n)))
    }

    /** Map removal. */
    function Remove(c: Component, key: nat): BookSideModel { With(c, Get(c) - {key}) }

    function WithQuantity(c: Component, key: nat, quantity: int): BookSideModel
      requires key in Get(c)
    {
      With(c, Get(c)[key := Get(c)[key].(quantity := quantity)])
    }

    predicate IsEmpty() { fixed == map[] && pegged == map[] }
  }

  /** A side that is not full takes any order. */
  lemma NotFullInserts(m: BookSideModel, c: Component, leaf: LeafNode)
    requires m.UsedCells() <= m.bump <= m.capacity
    requires !m.IsFull()
    ensures m.Insert(c, leaf).Ok?
  {
  }

  /** Removing one order of a full side makes room for another, except when that order was the only one of its tree, the new
      one goes to the other tree, which is not empty, and there was no cell left. */
  lemma RemovalMakesRoom(m: BookSideModel, from: Component, key: nat, to: Component, leaf: LeafNode)
    requires m.UsedCells() <= m.bump <= m.capacity && key in m.Get(from) && leaf.key !in m.Get(to)
    ensures m.Remove(from, key).Insert(to, leaf).Ok? <==>
              !(|m.Get(from)| == 1 && to != from && m.Get(to) != map[] && m.Available() == 0)
  {
    var orders, rest := m.Get(from), m.Remove(from, key).Get(from);
    assert orders == rest[key := orders[key]];
    assert |rest| == |orders| - 1;
    assert m.Remove(from, key).Get(from.Other()) == m.Get(from.Other());
  }

  function SampleLeaf(key: nat): LeafNode { LeafNode(0, 0, key, Pubkey(0), 1, 0, -1, 0) }

  /** One fixed and two pegged orders take all four cells of a side. Without the fixed order there is one cell, and a third pegged
      order needs two. */
  lemma RemovalMayNotMakeRoom()
    ensures var m := BookSideModel(map[1 := SampleLeaf(1)], map[2 := SampleLeaf(2), 3 := SampleLeaf(3)], 4, 4);
            && m.UsedCells() <= m.bump <= m.capacity && m.IsFull()
            && m.Remove(Fixed, 1).Insert(OraclePegged, SampleLeaf(4)).Err?
  {
    var m := BookSideModel(map[1 := SampleLeaf(1)], map[2 := SampleLeaf(2), 3 := SampleLeaf(3)], 4, 4);
    assert |m.fixed| == 1 && |m.pegged| == 2;
    RemovalMakesRoom(m, Fixed, 1, OraclePegged, SampleLeaf(4));
  }

  /** The order that `remove_one_expired` takes out of one tree. */
  ghost function ExpiredOrder(orders: map<nat, LeafNode>, now: int): (r: Option<LeafNode>)
    ensures r.Some? ==> r.value in orders.Values && r.value.Expiry() < now
    ensures r.None? ==> forall k :: k in orders ==> orders[k].Expiry() >= now
  {
    if orders == map[] then None
    else
      var k := FirstToExpire(orders);
      if orders[k].Expiry() < now then Some(orders[k]) else None
  }

  /** The component that the expired order comes from: the preferred one if it has any. */
  ghost function ExpiredComponent(m: BookSideModel, comp: Component, now: int): Component {
    if ExpiredOrder(m.Get(comp), now).Some? then comp else comp.Other()
  }

  ghost function Worst(side: Side, orders: map<nat, LeafNode>): Option<LeafNode> {
    if orders == map[] then None else Some(orders[FirstKey(side.Invert(), orders.Keys)])
  }

  /** The order with the worst price of both trees. */
  ghost function WorstItem(m: BookSideModel, side: Side, now: int, oracle: Option<int>): Option<Item> {
    RankOrders(side, Worst(side, m.fixed), Worst(side, m.pegged), true, now, oracle)
  }
}
