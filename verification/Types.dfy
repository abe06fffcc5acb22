/** Values shared by every part of the model: sides, resting orders, order parameters, errors. */
module Types {

  datatype Option<+T> = None | Some(value: T)

  datatype Result<+T> = Ok(value: T) | Err(error: Error) {
    predicate IsFailure() { Err? }

    function PropagateFailure<U>(): Result<U>
      requires Err?
    {
      Err(error)
    }

    function Extract(): T
      requires Ok?
    {
      value
    }
  }

  /** The errors and panics after which an instruction leaves the whole state as it was. */
  datatype Error =
    | SomeError                    // allocation failure, bad heap slot, order no better than the worst one
    | HeapFull                     // push_back asserts that the heap has room
    | BorrowFailed                 // an account that is already borrowed is loaded again
    | InvalidInputLots
    | InvalidInputCancelSize
    | InvalidInputOrderId
    | InvalidInputOrderType
    | BadSlotIndex                 // an index beyond the heap
    | InvalidInputLotsSize
    | InvalidInputPegLimit
    | InvalidPriceLots
    | InvalidPostAmount
    | OraclePegInvalidOracleState
    | OpenOrdersFull
    | OrderIdNotFound
    | OpenOrdersOrderNotFound
    | WouldSelfTrade
    | WouldExecutePartially
    | SeqNumOverflow
    | AccountMissing
    | NonEmptyOpenOrdersPosition
    | NonEmptyMarket
    | InsufficientFunds            // the token transfer that pays for the deposit fails
    | ArithmeticOverflow           // a checked addition or subtraction that failed
    | AssertionFailed              // an assert on an order slot that failed
    | Underflow                    // an unsigned subtraction below zero

  /** The address of an account. */
  datatype Pubkey = Pubkey(id: nat)

  const U64_MAX: int := 0xFFFF_FFFF_FFFF_FFFF
  const U64_SIZE: int := 0x1_0000_0000_0000_0000
  const I64_MAX: int := 0x7FFF_FFFF_FFFF_FFFF
  const I64_MIN: int := -0x8000_0000_0000_0000

  /** Rust's integer division, which truncates toward zero. */
  function TruncDiv(a: int, b: int): (r: int)
    requires b > 0
    ensures a >= 0 ==> r >= 0 && r * b <= a < r * b + b
    ensures a < 0 ==> r <= 0 && r * b - b < a <= r * b
  {
    if a >= 0 then a / b else -((-a) / b)
  }

  function Min(a: int, b: int): int { if a <= b then a else b }

  function Max(a: int, b: int): int { if a >= b then a else b }

  function Members(s: seq<nat>): set<nat> { set x | x in s }

  datatype Side = Bid | Ask {
    function Invert(): Side { if Bid? then Ask else Bid }

    /** Is `lhs` a better price than `rhs` for an order on this side? */
    predicate IsPriceBetter(lhs: int, rhs: int) { if Bid? then lhs > rhs else lhs < rhs }

    /** Is `price` acceptable for a `limit` order on this side? */
    predicate IsPriceWithinLimit(price: int, limit: int) { if Bid? then price <= limit else price >= limit }
  }

  /** The two trees of a book side: BookSideOrderTree. */
  datatype Component = Fixed | OraclePegged {
    function Other(): Component { if Fixed? then OraclePegged else Fixed }
  }

  /** A resting order. */
  datatype LeafNode = LeafNode(
    ownerSlot: nat,
    timeInForce: nat,
    key: nat,
    owner: Pubkey,
    quantity: int,
    timestamp: nat,
    pegLimit: int,
    clientOrderId: nat)
  {
    /** Time at which the order expires, U64_MAX if never. */
    function Expiry(): int {
      if timeInForce == 0 then U64_MAX else timestamp + timeInForce
    }

    predicate IsExpired(now: int) {
      timeInForce > 0 && now >= timestamp + timeInForce
    }

    function PriceData(): nat { key / U64_SIZE }
  }

  datatype PostOrderType = Limit | PostOnly | PostOnlySlide

  datatype SelfTradeBehavior = DecrementTake | CancelProvide | AbortTransaction

  datatype OrderParams =
    | MarketOrder
    | ImmediateOrCancel(priceLots: int)
    | FixedOrder(priceLots: int, orderType: PostOrderType)
    | PeggedOrder(priceOffsetLots: int, orderType: PostOrderType, pegLimit: int)
    | FillOrKill(priceLots: int)

  datatype Order = Order(
    side: Side,
    maxBaseLots: int,
    maxQuoteLotsIncludingFees: int,
    clientOrderId: nat,
    timeInForce: nat,
    selfTradeBehavior: SelfTradeBehavior,
    params: OrderParams)

  /** What waits on the event heap: a fill to be credited to its maker, or an order taken off the book. */
  datatype Event =
    | Fill(takerSide: Side, makerOut: bool, makerSlot: nat, maker: Pubkey, taker: Pubkey,
           price: int, pegLimit: int, quantity: int)
    | Out(side: Side, ownerSlot: nat, owner: Pubkey, quantity: int)
  {
    /** The account that the event is for. */
    function For(): Pubkey { if Fill? then maker else owner }
  }
}
