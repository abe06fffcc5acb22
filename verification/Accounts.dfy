/** Open orders accounts: positions, order slots, and what fills and cancellations do to them. */
module Accounts {
  import opened Types
  import opened Markets

  const MAX_OPEN_ORDERS: nat := 24

  datatype Position = Position(
    bidsBaseLots: int,
    asksBaseLots: int,
    baseFree: int,
    quoteFree: int,
    lockedMakerFees: int,
    referrerRebates: int,
    penaltyHeapCount: nat,
    bidsQuoteLots: int)
  {
    predicate IsEmpty() {
      && bidsBaseLots == 0 && asksBaseLots == 0 && baseFree == 0 && quoteFree == 0
      && lockedMakerFees == 0 && referrerRebates == 0 && penaltyHeapCount == 0 && bidsQuoteLots == 0
    }
  }

  datatype OpenOrder = OpenOrder(
    isFree: bool,
    side: Side,
    comp: Component,
    id: nat,
    clientId: nat,
    lockedPrice: int)

  const FreeOrder: OpenOrder := OpenOrder(true, Bid, Fixed, 0, 0, 0)

  const EmptyPosition: Position := Position(0, 0, 0, 0, 0, 0, 0, 0)

  datatype Account = Account(position: Position, slots: seq<OpenOrder>)

  function FreeSlots(): (s: seq<OpenOrder>)
    ensures |s| == MAX_OPEN_ORDERS && forall i :: 0 <= i < |s| ==> s[i] == FreeOrder
  {
    seq(MAX_OPEN_ORDERS, _ => FreeOrder)
  }

  const NewAccount: Account := Account(EmptyPosition, FreeSlots())

  /** The first free slot from `i` on. */
  function NextOrderSlotFrom(slots: seq<OpenOrder>, i: nat): (r: Option<nat>)
    requires i <= |slots|
    ensures r.Some? ==> i <= r.value < |slots| && slots[r.value].isFree
    ensures r.None? ==> forall j :: i <= j < |slots| ==> !slots[j].isFree
    ensures r.Some? ==> forall j :: i <= j < r.value ==> !slots[j].isFree
    decreases |slots| - i
  {
    if i == |slots| then None else if slots[i].isFree then Some(i) else NextOrderSlotFrom(slots, i + 1)
  }

  function NextOrderSlot(a: Account): (r: Option<nat>)
    ensures r.Some? ==> r.value < |a.slots| && a.slots[r.value].isFree
  {
    NextOrderSlotFrom(a.slots, 0)
  }

  /** The amounts that a fill moves in its maker's account. */
  datatype MakerAmounts = MakerAmounts(
    quoteNative: int, makerFees: int, makerRebate: int, lockedMakerFees: int, lockedAboveFillPrice: int, lockedPrice: int)

  function MakerSide(f: Event): Side
    requires f.Fill?
  {
    f.takerSide.Invert()
  }

  /** The price at which the maker's funds were locked, as the fill tells it. */
  function FillLockedPrice(f: Event): int
    requires f.Fill?
  {
    if f.pegLimit != -1 && MakerSide(f).Bid? then f.pegLimit else f.price
  }

  function AmountsOfFill(c: Config, f: Event): MakerAmounts
    requires f.Fill?
  {
    var quoteNative := f.quantity * f.price * c.quoteLotSize;
    var self := f.maker == f.taker;
    var makerFees := if self then 0 else MakerFeesFloor(c, quoteNative);
    var makerRebate := if self then 0 else MakerRebateFloor(c, quoteNative);
    if f.pegLimit != -1 && MakerSide(f).Bid? then
      var quoteAtLockPrice := f.quantity * f.pegLimit * c.quoteLotSize;
      var quoteToFree := quoteAtLockPrice - quoteNative;
      var feesAtLockPrice := MakerFeesFloor(c, quoteAtLockPrice);
      var makerFeesToFree := feesAtLockPrice - makerFees;
      MakerAmounts(quoteNative, makerFees, makerRebate, feesAtLockPrice, quoteToFree + makerFeesToFree, f.pegLimit)
    else
      MakerAmounts(quoteNative, makerFees, makerRebate, makerFees, 0, f.price)
  }

  /** Takes an order's lots out of the position and frees its slot. */
  function RemoveOrder(a: Account, slot: nat, quantity: int, lockedPrice: int): Account
    requires slot < |a.slots|
  {
    var p := a.position;
    Account(
      if a.slots[slot].side.Bid?
      then p.(bidsBaseLots := p.bidsBaseLots - quantity, bidsQuoteLots := p.bidsQuoteLots - quantity * lockedPrice)
      else p.(asksBaseLots := p.asksBaseLots - quantity),
      a.slots[slot := FreeOrder])
  }

  /** Credits the maker of a fill. */
  function ExecuteMaker(c: Config, a: Account, f: Event): Account
    requires f.Fill? && f.makerSlot < |a.slots|
  {
    var m, p := AmountsOfFill(c, f), a.position;
    var q :=
      match MakerSide(f)
      case Bid =>
        p.(baseFree := p.baseFree + f.quantity * c.baseLotSize,
           quoteFree := p.quoteFree + m.makerRebate + m.lockedAboveFillPrice,
           lockedMakerFees := p.lockedMakerFees - m.lockedMakerFees)
      case Ask =>
        p.(quoteFree := p.quoteFree + m.quoteNative + m.makerRebate - m.makerFees);
    var r := q.(referrerRebates := q.referrerRebates + m.makerFees);
    if f.makerOut then RemoveOrder(a.(position := r), f.makerSlot, f.quantity, m.lockedPrice)
    else a.(position :=
      if MakerSide(f).Bid?
      then r.(bidsBaseLots := r.bidsBaseLots - f.quantity, bidsQuoteLots := r.bidsQuoteLots - f.quantity * m.lockedPrice)
      else r.(asksBaseLots := r.asksBaseLots - f.quantity))
  }

  /** Gives back what an order still locks and frees its slot. */
  function CancelOrder(c: Config, a: Account, slot: nat, quantity: int): Account
    requires slot < |a.slots|
  {
    var p, oo := a.position, a.slots[slot];
    var quote := quantity * oo.lockedPrice * c.quoteLotSize;
    var fees := MakerFeesCeil(c, quote);
    var q :=
      if oo.side.Bid? then p.(quoteFree := p.quoteFree + quote + fees, lockedMakerFees := p.lockedMakerFees - fees)
      else p.(baseFree := p.baseFree + quantity * c.baseLotSize);
    RemoveOrder(a.(position := q), slot, quantity, oo.lockedPrice)
  }

  /** Enters a posted order in its slot and its lots in the position. */
  function AddOrder(a: Account, side: Side, comp: Component, leaf: LeafNode, lockedPrice: int): Account
    requires leaf.ownerSlot < |a.slots|
  {
    var p := a.position;
    Account(
      if side.Bid?
      then p.(bidsBaseLots := p.bidsBaseLots + leaf.quantity, bidsQuoteLots := p.bidsQuoteLots + leaf.quantity * lockedPrice)
      else p.(asksBaseLots := p.asksBaseLots + leaf.quantity),
      a.slots[leaf.ownerSlot := OpenOrder(false, side, comp, leaf.key, leaf.clientOrderId, lockedPrice)])
  }

  /** Credits a taker at once. */
  function ExecuteTaker(a: Account, side: Side, baseNative: int, quoteNative: int, takerFees: int, referrerAmount: int): Account {
    var p := a.position;
    var q := if side.Bid? then p.(baseFree := p.baseFree + baseNative)
             else p.(quoteFree := p.quoteFree + (quoteNative - takerFees));
    a.(position := q.(referrerRebates := q.referrerRebates + referrerAmount))
  }

  // ---------- the account in memory ----------

  class OpenOrdersAccount {
    var position: Position
    const openOrders: array<OpenOrder>

    ghost function Value(): Account
      reads this, openOrders
    {
      Account(position, openOrders[..])
    }

    constructor ()
      ensures Value() == NewAccount && fresh(openOrders)
    {
      position := EmptyPosition;
      openOrders := new OpenOrder[MAX_OPEN_ORDERS](_ => FreeOrder);
      new;
      assert openOrders[..] == NewAccount.slots;
    }

    /** The first slot that is not in use. */
    method NextSlot() returns (r: Option<nat>)
      ensures r == NextOrderSlot(Value())
    {
      var i := 0;
      while i < openOrders.Length
        invariant 0 <= i <= openOrders.Length
        invariant NextOrderSlotFrom(openOrders[..], 0) == NextOrderSlotFrom(openOrders[..], i)
      {
        if openOrders[i].isFree {
          return Some(i);
        }
        i := i + 1;
      }
      return None;
    }

    method Remove(slot: nat, baseQuantity: int, lockedPrice: int)
      requires slot < openOrders.Length && !openOrders[slot].isFree
      modifies this, openOrders
      ensures Value() == RemoveOrder(old(Value()), slot, baseQuantity, lockedPrice)
    {
      match openOrders[slot].side {
        case Bid =>
          position := position.(bidsBaseLots := position.bidsBaseLots - baseQuantity);
          position := position.(bidsQuoteLots := position.bidsQuoteLots - baseQuantity * lockedPrice);
        case Ask =>
          position := position.(asksBaseLots := position.asksBaseLots - baseQuantity);
      }
      openOrders[slot] := FreeOrder;
    }

    method Cancel(slot: nat, baseQuantity: int, c: Config)
      requires slot < openOrders.Length && !openOrders[slot].isFree
      modifies this, openOrders
      ensures Value() == CancelOrder(c, old(Value()), slot, baseQuantity)
    {
      var price := openOrders[slot].lockedPrice;
      var baseQuantityNative := baseQuantity * c.baseLotSize;
      var quoteQuantityNative := baseQuantity * price * c.quoteLotSize;
      var fees := MakerFeesCeil(c, quoteQuantityNative);
      match openOrders[slot].side {
        case Bid =>
          position := position.(quoteFree := position.quoteFree + quoteQuantityNative + fees);
          position := position.(lockedMakerFees := position.lockedMakerFees - fees);
        case Ask =>
          position := position.(baseFree := position.baseFree + baseQuantityNative);
      }
      Remove(slot, baseQuantity, price);
    }

    method Add(side: Side, comp: Component, leaf: LeafNode, lockedPrice: int)
      requires leaf.ownerSlot < openOrders.Length
      modifies this, openOrders
      ensures Value() == AddOrder(old(Value()), side, comp, leaf, lockedPrice)
    {
      match side {
        case Bid =>
          position := position.(bidsBaseLots := position.bidsBaseLots + leaf.quantity);
          position := position.(bidsQuoteLots := position.bidsQuoteLots + leaf.quantity * lockedPrice);
        case Ask =>
          position := position.(asksBaseLots := position.asksBaseLots + leaf.quantity);
      }
      openOrders[leaf.ownerSlot] := OpenOrder(false, side, comp, leaf.key, leaf.clientOrderId, lockedPrice);
    }

    method Taker(side: Side, baseNative: int, quoteNative: int, takerFees: int, referrerAmount: int, market: Market)
        returns (market': Market)
      modifies this
      ensures Value() == ExecuteTaker(old(Value()), side, baseNative, quoteNative, takerFees, referrerAmount)
      ensures market' == market.(referrerRebatesAccrued := market.referrerRebatesAccrued + referrerAmount)
    {
      match side {
        case Bid => position := position.(baseFree := position.baseFree + baseNative);
        case Ask => position := position.(quoteFree := position.quoteFree + (quoteNative - takerFees));
      }
      position := position.(referrerRebates := position.referrerRebates + referrerAmount);
      market' := market.(referrerRebatesAccrued := market.referrerRebatesAccrued + referrerAmount);
    }

    /** A fill reaches its maker. */
    method Maker(fill: Event, market: Market) returns (market': Market)
      requires fill.Fill? && fill.makerSlot < openOrders.Length
      requires fill.makerOut ==> !openOrders[fill.makerSlot].isFree
      modifies this, openOrders
      ensures Value() == ExecuteMaker(market.config, old(Value()), fill)
      ensures market' == market.(referrerRebatesAccrued :=
                market.referrerRebatesAccrued + AmountsOfFill(market.config, fill).makerFees)
    {
      var c := market.config;
      var side := fill.takerSide.Invert();
      var quoteNative := fill.quantity * fill.price * c.quoteLotSize;
      var makerFees, makerRebate := 0, 0;
      if fill.maker != fill.taker {
        makerFees, makerRebate := MakerFeesFloor(c, quoteNative), MakerRebateFloor(c, quoteNative);
      }
      var lockedMakerFees, lockedAmountAboveFillPrice, lockedPrice := makerFees, 0, fill.price;
      if fill.pegLimit != -1 && side.Bid? {
        var quoteAtLockPrice := fill.quantity * fill.pegLimit * c.quoteLotSize;
        var quoteToFree := quoteAtLockPrice - quoteNative;
        var feesAtLockPrice := MakerFeesFloor(c, quoteAtLockPrice);
        lockedMakerFees := feesAtLockPrice;
        lockedAmountAboveFillPrice := quoteToFree + (feesAtLockPrice - makerFees);
        lockedPrice := fill.pegLimit;
      }
      match side {
        case Bid =>
          position := position.(baseFree := position.baseFree + fill.quantity * c.baseLotSize);
          position := position.(quoteFree := position.quoteFree + makerRebate + lockedAmountAboveFillPrice);
          position := position.(lockedMakerFees := position.lockedMakerFees - lockedMakerFees);
        case Ask =>
          position := position.(quoteFree := position.quoteFree + quoteNative + makerRebate - makerFees);
      }
      position := position.(referrerRebates := position.referrerRebates + makerFees);
      market' := market.(referrerRebatesAccrued := market.referrerRebatesAccrued + makerFees);
      if fill.makerOut {
        Remove(fill.makerSlot, fill.quantity, lockedPrice);
      } else {
        match side {
          case Bid =>
            position := position.(bidsBaseLots := position.bidsBaseLots - fill.quantity);
            position := position.(bidsQuoteLots := position.bidsQuoteLots - fill.quantity * lockedPrice);
          case Ask =>
            position := position.(asksBaseLots := position.asksBaseLots - fill.quantity);
        }
      }
    }
  }
}
