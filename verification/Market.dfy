/** The market's counters and its fee arithmetic. */
module Markets {
  import opened Types

  const FEES_SCALE_FACTOR: int := 1_000_000

  /** What is fixed when a market is created. Fees are in millionths. */
  datatype Config = Config(quoteLotSize: int, baseLotSize: int, makerFee: int, takerFee: int) {
    /** What `create_market` checks. */
    predicate Ok() {
      && quoteLotSize > 0 && baseLotSize > 0
      && -FEES_SCALE_FACTOR <= makerFee <= FEES_SCALE_FACTOR
      && 0 <= takerFee <= FEES_SCALE_FACTOR
      && (makerFee >= 0 || -makerFee <= takerFee)
    }
  }

  datatype Market = Market(
    config: Config,
    seqNum: int,
    referrerRebatesAccrued: int,
    feesAvailable: int,
    baseDepositTotal: int,
    quoteDepositTotal: int)
  {
    predicate IsEmpty() {
      baseDepositTotal == 0 && quoteDepositTotal == 0 && feesAvailable == 0 && referrerRebatesAccrued == 0
    }
  }

  function CeilFeeDivision(numerator: int): int { TruncDiv(numerator + FEES_SCALE_FACTOR - 1, FEES_SCALE_FACTOR) }

  function Abs(x: int): int { if x < 0 then -x else x }

  function UnsignedMakerFeesFloor(c: Config, amount: int): int { TruncDiv(amount * Abs(c.makerFee), FEES_SCALE_FACTOR) }

  function MakerFeesFloor(c: Config, amount: int): int {
    if c.makerFee > 0 then UnsignedMakerFeesFloor(c, amount) else 0
  }

  function MakerRebateFloor(c: Config, amount: int): int {
    if c.makerFee > 0 then 0 else UnsignedMakerFeesFloor(c, amount)
  }

  function MakerFeesCeil(c: Config, amount: int): int {
    if c.makerFee > 0 then CeilFeeDivision(amount * Abs(c.makerFee)) else 0
  }

  function TakerFeesCeil(c: Config, amount: int): int { CeilFeeDivision(amount * c.takerFee) }

  function SubtractTakerFees(c: Config, quote: int): int
    requires c.takerFee >= 0
  {
    TruncDiv(quote * FEES_SCALE_FACTOR, FEES_SCALE_FACTOR + c.takerFee)
  }

  function MaxBaseLots(c: Config): int
    requires c.baseLotSize > 0
  {
    I64_MAX / c.baseLotSize
  }

  function MaxQuoteLots(c: Config): int
    requires c.quoteLotSize > 0
  {
    I64_MAX / c.quoteLotSize
  }

  // ---------- rounding ----------

  /** `r` is a part of an amount at a rate in millionths, rounded down. */
  predicate RoundsDown(r: int, amount: int, rate: int) { r * 1_000_000 <= amount * rate < (r + 1) * 1_000_000 }

  /** The same rounded up. */
  predicate RoundsUp(r: int, amount: int, rate: int) { (r - 1) * 1_000_000 < amount * rate <= r * 1_000_000 }

  /** Each fee is the part of the amount that its rate says, up to rounding: what a maker pays or gets is rounded down, what is
      locked for it and what a taker pays is rounded up. */
  lemma FeesRound(c: Config, amount: int)
    requires c.Ok() && amount >= 0
    ensures c.makerFee > 0 ==>
              && RoundsDown(MakerFeesFloor(c, amount), amount, c.makerFee) && RoundsUp(MakerFeesCeil(c, amount), amount, c.makerFee)
              && MakerRebateFloor(c, amount) == 0
    ensures c.makerFee <= 0 ==>
              && RoundsDown(MakerRebateFloor(c, amount), amount, -c.makerFee)
              && MakerFeesFloor(c, amount) == 0 && MakerFeesCeil(c, amount) == 0
    ensures RoundsUp(TakerFeesCeil(c, amount), amount, c.takerFee)
  {
    ScaledBounds(amount, Abs(c.makerFee));
    ScaledBounds(amount, c.takerFee);
  }

  /** What a bid may take is the most that leaves room for the taker fee on it. */
  lemma MostWithFee(c: Config, quote: int)
    requires c.Ok() && quote >= 0
    ensures var m := SubtractTakerFees(c, quote);
            0 <= m && m * (1_000_000 + c.takerFee) <= quote * 1_000_000 < (m + 1) * (1_000_000 + c.takerFee)
  {
    var m := SubtractTakerFees(c, quote);
    assert (m + 1) * (1_000_000 + c.takerFee) == m * (1_000_000 + c.takerFee) + (1_000_000 + c.takerFee);
  }

  lemma ScaledBounds(a: int, fee: int)
    requires a >= 0 && 0 <= fee <= FEES_SCALE_FACTOR
    ensures 0 <= a * fee <= a * FEES_SCALE_FACTOR
  {
  }

  /** A fee is never negative and never more than the amount it is taken from. */
  lemma FeeBounds(c: Config, amount: int)
    requires c.Ok() && amount >= 0
    ensures 0 <= MakerFeesFloor(c, amount) <= MakerFeesCeil(c, amount) <= amount
    ensures 0 <= MakerRebateFloor(c, amount) <= amount
    ensures 0 <= TakerFeesCeil(c, amount) <= amount
  {
    ScaledBounds(amount, Abs(c.makerFee));
    ScaledBounds(amount, c.takerFee);
  }

  /** Fees grow with the amount. */
  lemma FeesMonotone(c: Config, a: int, b: int)
    requires c.Ok() && 0 <= a <= b
    ensures MakerFeesFloor(c, a) <= MakerFeesFloor(c, b)
    ensures MakerFeesCeil(c, a) <= MakerFeesCeil(c, b)
    ensures TakerFeesCeil(c, a) <= TakerFeesCeil(c, b)
  {
    ScaledBounds(a, Abs(c.makerFee));
    ScaledBounds(b, Abs(c.makerFee));
    ScaledBounds(b - a, Abs(c.makerFee));
    ScaledBounds(a, c.takerFee);
    ScaledBounds(b, c.takerFee);
    ScaledBounds(b - a, c.takerFee);
    assert b * Abs(c.makerFee) == a * Abs(c.makerFee) + (b - a) * Abs(c.makerFee);
    assert b * c.takerFee == a * c.takerFee + (b - a) * c.takerFee;
  }

  /** Splitting an amount: the floor of one part and the ceiling of the other fit in the ceiling of the whole. */
  lemma SplitFee(c: Config, a: int, b: int)
    requires c.Ok() && a >= 0 && b >= 0
    ensures MakerFeesFloor(c, a) + MakerFeesCeil(c, b) <= MakerFeesCeil(c, a + b)
  {
    ScaledBounds(a, Abs(c.makerFee));
    ScaledBounds(b, Abs(c.makerFee));
    assert (a + b) * Abs(c.makerFee) == a * Abs(c.makerFee) + b * Abs(c.makerFee);
  }

  /** The rebate on one more fill is paid by the taker fee on it. */
  lemma RebateCovered(c: Config, a: int, b: int)
    requires c.Ok() && a >= 0 && b >= 0
    ensures MakerRebateFloor(c, a) + TakerFeesCeil(c, b) <= TakerFeesCeil(c, a + b)
  {
    ScaledBounds(a, Abs(c.makerFee));
    ScaledBounds(b, c.takerFee);
    ScaledBounds(a, c.takerFee);
    assert (a + b) * c.takerFee == a * c.takerFee + b * c.takerFee;
    if c.makerFee <= 0 {
      assert Abs(c.makerFee) <= c.takerFee;
      assert a * Abs(c.makerFee) + a * (c.takerFee - Abs(c.makerFee)) == a * c.takerFee;
      assert 0 <= a * (c.takerFee - Abs(c.makerFee));
    }
  }
}
