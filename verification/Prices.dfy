/** How prices and arrival order are encoded in keys, and the price an order has under the current oracle price. */
module Prices {
  import opened Types
  import opened Rankings

  const OFFSET_BIAS: int := 0x8000_0000_0000_0000

  predicate IsI64(x: int) { I64_MIN <= x <= I64_MAX }

  predicate IsU64(x: int) { 0 <= x <= U64_MAX }

  /** The key of an order: price data in the upper half, arrival number (complemented for bids) in the lower. */
  function NewNodeKey(side: Side, priceData: int, seqNum: int): (k: nat)
    requires IsU64(priceData) && IsU64(seqNum)
  {
    priceData * U64_SIZE + (if side.Bid? then U64_MAX - seqNum else seqNum)
  }

  function SeqNumOf(side: Side, key: nat): int {
    if side.Bid? then U64_MAX - key % U64_SIZE else key % U64_SIZE
  }

  /** `(offset as u64).wrapping_add(u64::MAX / 2 + 1)`. */
  function OraclePeggedPriceData(offset: int): int { (offset % U64_SIZE + OFFSET_BIAS) % U64_SIZE }

  /** `price_data.wrapping_sub(u64::MAX / 2 + 1) as i64`. */
  function OraclePeggedPriceOffset(priceData: int): int {
    var x := (priceData - OFFSET_BIAS) % U64_SIZE;
    if x > I64_MAX then x - U64_SIZE else x
  }

  /** Offsets go to price data and back, in order. */
  lemma PegOffsetRoundTrip(a: int, b: int)
    requires IsI64(a) && IsI64(b)
    ensures IsU64(OraclePeggedPriceData(a))
    ensures OraclePeggedPriceOffset(OraclePeggedPriceData(a)) == a
    ensures OraclePeggedPriceData(a) < OraclePeggedPriceData(b) <==> a < b
  {
    PegOffsetShift(a);
    PegOffsetShift(b);
  }

  lemma PegOffsetShift(a: int)
    requires IsI64(a)
    ensures OraclePeggedPriceData(a) == a + OFFSET_BIAS
  {
    if a < 0 {
      assert a % U64_SIZE == a + U64_SIZE;
    }
  }

  /** Every price data stands for one offset. */
  lemma PegDataRoundTrip(d: int)
    requires IsU64(d)
    ensures OraclePeggedPriceOffset(d) == d - OFFSET_BIAS && IsI64(d - OFFSET_BIAS)
    ensures OraclePeggedPriceData(OraclePeggedPriceOffset(d)) == d
  {
    PegOffsetShift(d - OFFSET_BIAS);
    if d < OFFSET_BIAS {
      assert (d - OFFSET_BIAS) % U64_SIZE == d - OFFSET_BIAS + U64_SIZE;
    }
  }

  /** A key holds its price data and its arrival number, and nothing else. */
  lemma KeyRoundTrip(side: Side, priceData: int, seqNum: int)
    requires IsU64(priceData) && IsU64(seqNum)
    ensures var k := NewNodeKey(side, priceData, seqNum);
            && k / U64_SIZE == priceData && SeqNumOf(side, k) == seqNum
            && k < 0x1_0000_0000_0000_0000_0000_0000_0000_0000
  {
    var low := if side.Bid? then U64_MAX - seqNum else seqNum;
    DivModUnique(NewNodeKey(side, priceData, seqNum), priceData, low);
  }

  lemma DivModUnique(k: int, q: int, r: int)
    requires k == q * U64_SIZE + r && 0 <= r < U64_SIZE
    ensures k / U64_SIZE == q && k % U64_SIZE == r
  {
  }

  /** Keys are ordered by price and then by arrival, on both sides. */
  lemma KeyOrder(side: Side, a: int, m: int, b: int, n: int)
    requires IsU64(a) && IsU64(m) && IsU64(b) && IsU64(n)
    ensures Before(side, NewNodeKey(side, a, m), NewNodeKey(side, b, n))
            <==> side.IsPriceBetter(a, b) || (a == b && m < n)
  {
  }

  // ---------- prices under the oracle ----------

  datatype OrderState = Valid | Invalid | Skipped

  function SaturatingAdd(a: int, b: int): int { Max(I64_MIN, Min(I64_MAX, a + b)) }

  /** State and price of a pegged order; prices outside 1..i64::MAX are skipped and clamped. */
  function OraclePeggedPrice(oracle: int, leaf: LeafNode, side: Side): (r: (OrderState, int))
    ensures r.1 >= 1
  {
    var price := SaturatingAdd(oracle, OraclePeggedPriceOffset(leaf.PriceData()));
    if 1 <= price < I64_MAX then
      if leaf.pegLimit != -1 && side.IsPriceBetter(price, leaf.pegLimit) then (Invalid, price) else (Valid, price)
    else (Skipped, Max(price, 1))
  }

  predicate IsSkipped(oracle: int, leaf: LeafNode, side: Side) { OraclePeggedPrice(oracle, leaf, side).0.Skipped? }

  /** The key a pegged order would have as a fixed order at `price`. */
  function KeyForFixedPrice(key: nat, price: int): nat
    requires price >= 1
  {
    price * U64_SIZE + key % U64_SIZE
  }

  /** Re-keying the pegged orders of a side at an oracle price keeps their order, as long as none is skipped. */
  lemma RekeyKeepsOrder(side: Side, oracle: int, a: LeafNode, b: LeafNode)
    requires a.key < U64_SIZE * U64_SIZE && b.key < U64_SIZE * U64_SIZE
    requires !IsSkipped(oracle, a, side) && !IsSkipped(oracle, b, side)
    ensures Before(side, KeyForFixedPrice(a.key, OraclePeggedPrice(oracle, a, side).1),
                         KeyForFixedPrice(b.key, OraclePeggedPrice(oracle, b, side).1))
            <==> Before(side, a.key, b.key)
  {
    PegDataRoundTrip(a.PriceData());
    PegDataRoundTrip(b.PriceData());
  }

  // ---------- one order of the book as the matching engine sees it ----------

  datatype Item = Item(comp: Component, leaf: LeafNode, price: int, state: OrderState)

  function FixedItem(leaf: LeafNode, now: int): Item {
    Item(Fixed, leaf, leaf.PriceData(), if leaf.IsExpired(now) then Invalid else Valid)
  }

  function PeggedItem(leaf: LeafNode, side: Side, oracle: int, now: int): Item {
    var (state, price) := OraclePeggedPrice(oracle, leaf, side);
    Item(OraclePegged, leaf, price, if leaf.IsExpired(now) then Invalid else state)
  }

  /** The key by which an item is compared with the others. */
  function RankKey(item: Item): nat
    requires item.comp.OraclePegged? ==> item.price >= 1
  {
    if item.comp.Fixed? then item.leaf.key else KeyForFixedPrice(item.leaf.key, item.price)
  }

  /** Which of the two would match first, or last if `worse` is set. */
  function RankOrders(side: Side, fixed: Option<LeafNode>, pegged: Option<LeafNode>, worse: bool, now: int,
                      oracle: Option<int>): Option<Item>
  {
    var f := if fixed.Some? then Some(FixedItem(fixed.value, now)) else None;
    var p := if pegged.Some? && oracle.Some? then Some(PeggedItem(pegged.value, side, oracle.value, now)) else None;
    if f.Some? && p.Some? then
      if Before(side, RankKey(f.value), RankKey(p.value)) != worse then f else p
    else if p.Some? then p else f
  }
}
