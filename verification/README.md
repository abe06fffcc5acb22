# OpenBook v2: the order book, its matching engine and its accounting

This project models the on-chain central-limit order book of OpenBook v2 and proves properties of it, layer by layer:

1. **The arena and its crit-bit trees** (`CritBit`, `Tree`, `TreeWalk`, `Ranking`, `Arena`, `BookSideModel`,
   `BookSideCells`, `BookSide`, `BookSideIter`, `Prices`, `Iteration`, `Completeness`, `BookItems`, `Eviction`). One node array holds two trees of
   orders (fixed prices and prices pegged to an oracle), a bump pointer, a free list and a cache of the earliest expiry under
   every child. `BookSide` is the class that writes the array in place; what it stands for is a pair of finite maps.
2. **The event heap** (`EventHeap`). A circular doubly-linked list and a free list in one array; it stands for a sequence of
   slots with their events.
3. **Matching and posting** (`Market`, `Matching`, `MatchingLaws`, `MatchingTerms`, `Crossing`, `Posting`, `Simulator`,
   `OrderLaws`). The greedy walk of an order through the opposing side, its limits, fees and self-trade rules, and what is left to
   be posted. `Simulator` is the off-chain computation of a take order.
4. **Accounting** (`Sums`, `Accounts`, `Ledger`, `Solvency`). Positions, order slots and vault totals against *claims*: one
   claim for every resting order and every pending event.
5. **The whole market** (`Exchange`, `ExchangeInvariant`, `ExchangeSteps`, `ExchangeActions`, `ExchangePosting`,
   `ExchangeOrders`, `ExchangeNewOrder`, `ExchangeSpending`, `Instructions`, `InstructionFunds`, `InstructionOrders`,
   `InstructionBatch`, `InstructionEdit`, `InstructionEvents`, `EventsCommute`, `Runs`, `Unwinding`, `CrossedBook`). The market as
   one value, every instruction as a function on it, and an invariant that every instruction keeps, so that it holds after every
   run; and from every state so reached a run that pays everything out. What an instruction does is stated a second time, in terms
   of what the order, the resting orders and the accounts say (`OrderTerms`, `OrderOutcome`, `PostingOutcome`, `EventOutcome`,
   `OrderRefusal`, `CancelOutcome`, `InstructionOutcome`).
6. **The engine in place** (`Deferred`, `EngineLoop`, `EngineFacts`, `Engine`, `Handlers`, `HandlerRuns`,
   `Simulation`). The class `Engine` works on the
   arena-backed books and the linked heap: its matching loop iterates over the tree, handles events at once and puts changes
   to the book off until the loop is over. Its methods are proved equal to the functions of layer 5.
7. **The client's account cache** (`ChainData`, `ChainNews`).

How the layers meet: each method of a class states its new state as a function of the old one, and the properties are proved
about those functions. The functions say how the code computes something; the `...Outcome` modules, `BookItems`, `OrderTerms`,
`Eviction` and `ChainNews` say what must come out, without these functions: with inequalities for every rounding, with the limits of
the code as literals, and with a resting order's own key, time and limits. An instruction is atomic: after an error or a failed assert the state is the one before it. `HandlerRuns`
carries this out as the runtime does: a handler works on a copy of the engine, which replaces it only if the handler succeeds.

`Engine` keeps the accounts as values, in a map. The class `Accounts.OpenOrdersAccount` shows separately that the methods which
update an account in place, field by field, come to the functions on such values that the engine uses.

## What was found on the way

The code is followed wherever it differs from its comments, or from what one would expect.

- `BookSideIter::next` can pass over pegged orders. When the pegged iterator stands at an order whose price cannot be
  represented, the skip loop leaves it behind the order that it returns. `Completeness.CompleteExactlyWhen` says when nothing
  is lost, and `Completeness.OrderPassedOver` gives asks where something is. Fixed orders are never lost.
- A limit order can be posted while an opposing order within its price is left, because the quote budget is computed anew
  after matching (`CrossedBook.LimitBidMayCross`). It clears the opposing book exactly when the budget it starts with pays
  for every valid order within its price (`OrderLaws.NewOrderIsClearExactlyWhen`). Post-only orders are safe.
- An ask that is limited by quote can fill several bids in part (`MatchingLaws.AskMayLeaveTwoPartial`); a bid at most one.
  `OrderLaws.FillsOneInPartExactlyWhen` says exactly when there is at most one.
- Dropping the worst order of a full side does not always make room for the new one (`BookSideModels.RemovalMakesRoom`,
  with an input in `BookSideModels.RemovalMayNotMakeRoom`): a tree with a single order frees one cell only.
- Editing an order of which nothing was filled in the meantime only cancels it: nothing is placed in its stead
  (`InstructionEdits.EditPlacesExactlyWhen`).
- `remove_one_expired` removes an order only when its expiry is strictly before now, although an order counts as expired
  already when its expiry is now.
- `update_account` of the client cache says that it overwrites a write of the same slot. It never does: the position that it
  computes is always behind such a write, and the new write is added there.
- Pruning the client cache can lose the answer for an account when the best chain ends before the new root
  (`ChainDatas.PruneExactlyWhen`, `ChainDatas.LosesAWrite`).

## Model

| member | source | states |
|---|---|---|
| `Keys.SharedPrefixLenIsLongest` | programs/openbook-v2/src/state/orderbook/ordertree.rs:340-346 | the leading zeros of the exclusive or of two keys are the longest prefix that they share; the next bit differs |
| `Keys.CritBitOrders` | programs/openbook-v2/src/state/orderbook/nodes.rs:120-126 | keys that agree up to the crit bit are ordered by it, so walking down is a search |
| `Trees.PlugWellFormed` | programs/openbook-v2/src/state/orderbook/ordertree.rs:318-370 | a subtree that fits can be put into its hole: the prefix invariant of the whole tree holds again, for any keys in inner nodes |
| `Trees.PlugOrders` | programs/openbook-v2/src/state/orderbook/ordertree.rs:318-370 | replacing a subtree replaces exactly its orders in the map of the tree |
| `Trees.HandleCount` | programs/openbook-v2/src/state/orderbook/ordertree.rs:254-306 | a tree of n orders takes 2n - 1 cells |
| `Trees.EarliestIsMinimum` | programs/openbook-v2/src/state/orderbook/ordertree.rs:427-447 | no order of a tree expires before its earliest expiry, and in a well-formed tree one expires then |
| `TreeWalks.WalkIsRanking` | programs/openbook-v2/src/state/orderbook/ordertree_iterator.rs:50-85 | the in-order walk lists every order of the map once, in key order of the side |
| `TreeWalks.ExpiringExpiresFirst` | programs/openbook-v2/src/state/orderbook/ordertree.rs:427-447 | following the smaller of both cached expiries ends at the order that expires first of all |
| `Rankings.RankingIsUnique` | programs/openbook-v2/src/state/orderbook/ordertree_iterator.rs:66-85 | there is only one list of the orders of a map in key order |
| `Arenas.UpdateExpiriesIsExact` | programs/openbook-v2/src/state/orderbook/ordertree.rs:407-424 | walking up the stack, the early break loses nothing: all cached expiries above are exact again |
| `Arenas.AllocateOk` | programs/openbook-v2/src/state/orderbook/ordertree.rs:275-306 | the asserts of the allocator never fire; the cell it gives out was not in use; it fails only when no cell is left |
| `Arenas.ReleaseOk` | programs/openbook-v2/src/state/orderbook/ordertree.rs:254-273 | a cell that is given back heads the free list, whose tail alone is tagged as last |
| `BookSideCells.CellAccounting` | programs/openbook-v2/src/state/orderbook/ordertree.rs:397-401 | cells ever used less free cells are the cells of both trees; the free list's length is exact |
| `BookSideCells.SplitOk` | programs/openbook-v2/src/state/orderbook/ordertree.rs:345-397 | inserting beside a subtree keeps the invariant of the arena and leaves the other tree alone |
| `BookSideCells.RemoveOk` | programs/openbook-v2/src/state/orderbook/ordertree.rs:228-251 | moving the sibling into the parent's cell keeps the invariant of the arena and leaves the other tree alone |
| `BookSideModels.NotFullInserts` | programs/openbook-v2/src/state/orderbook/ordertree.rs:397-401 | a side that is not full takes any order |
| `BookSideModels.RemovalMayNotMakeRoom` | programs/openbook-v2/src/state/orderbook/book.rs:424-448 | a full side on which dropping one order makes no room: the case that the condition shuts out |
| `BookSideModels.RemovalMakesRoom` | programs/openbook-v2/src/state/orderbook/book.rs:424-448 | dropping one order makes room for another, except when it was alone in its tree, the new one goes to the other tree, which is not empty, and no cell was left |
| `BookSideModels.ExpiredOrder` | programs/openbook-v2/src/state/orderbook/ordertree.rs:118-129 | an order that is removed for its expiry is of the tree and expired before now; none is removed only if none is |
| `BookSides.BookSide.Insert` | programs/openbook-v2/src/state/orderbook/ordertree.rs:275-306 | the allocator's exact effect on nodes, bump index and free list, or failure with nothing changed |
| `BookSides.BookSide.InsertLeaf` | programs/openbook-v2/src/state/orderbook/ordertree.rs:308-397 | inserts into the map of one tree, returning the order it clobbers; it fails exactly when too few cells are left, with both maps unchanged |
| `BookSides.BookSide.RemoveByKey` | programs/openbook-v2/src/state/orderbook/ordertree.rs:194-251 | removes exactly the order with that key and returns it; without such an order nothing changes |
| `BookSides.BookSide.FindEarliestExpiry` | programs/openbook-v2/src/state/orderbook/ordertree.rs:427-447 | finds the order of the tree that expires first |
| `BookSides.BookSide.RemoveOneExpired` | programs/openbook-v2/src/state/orderbook/bookside.rs:127-143 | removes the order that expires first if that has expired: of the given tree if it has one, else of the other |
| `BookSides.BookSide.RemoveWorst` | programs/openbook-v2/src/state/orderbook/bookside.rs:102-123 | removes the order with the worst price of both trees |
| `BookSides.BookSide.SetQuantity` | programs/openbook-v2/src/state/orderbook/book.rs:328-336 | writing a quantity through a handle changes that order only, and all handles stay good |
| `BookSideIterators.OrderTreeIter.Next` | programs/openbook-v2/src/state/orderbook/ordertree_iterator.rs:50-85 | yields the next order of the walk |
| `BookSideIterators.BookSideIter.Next` | programs/openbook-v2/src/state/orderbook/bookside_iterator.rs:167-205 | one step of the merge of both trees, with the handle of the order; what such a step says of an order is `BookItems.ItemsAreTrue` |
| `BookItems.ItemsAreTrue` | programs/openbook-v2/src/state/orderbook/bookside_iterator.rs:59-126 | every item of a book shows an order at the price in its key, or at its offset from the oracle price, and as valid if and only if it has no time in force or is not yet past it and, if pegged, is not past its peg limit |
| `BookItems.SkippedExactlyWhen` | programs/openbook-v2/src/state/orderbook/bookside_iterator.rs:59-77 | a pegged order is passed over if and only if oracle price and offset do not come to a price from 1 to below i64::MAX |
| `BookItems.ItemsInPriceTimeOrder` | programs/openbook-v2/src/state/orderbook/bookside_iterator.rs:128-205 | items come by price and at one price by arrival, across both trees |
| `Prices.PegOffsetRoundTrip` | programs/openbook-v2/src/state/orderbook/nodes.rs:42-58 | offsets go to price data and back, in order |
| `Prices.KeyRoundTrip` | programs/openbook-v2/src/state/orderbook/nodes.rs:32-40 | a key holds price data and arrival number and nothing else |
| `Prices.KeyOrder` | programs/openbook-v2/src/state/orderbook/nodes.rs:32-40 | key order is price, then arrival, on both sides |
| `Prices.RekeyKeepsOrder` | programs/openbook-v2/src/state/orderbook/bookside_iterator.rs:59-87 | giving pegged orders keys at an oracle price keeps their order unless one cannot be represented |
| `Iterations.ItemsInMergeOrder` | programs/openbook-v2/src/state/orderbook/bookside_iterator.rs:128-205 | the merge never yields an order after one that would match later |
| `Iterations.ItemsInTreeOrder` | programs/openbook-v2/src/state/orderbook/bookside_iterator.rs:167-205 | the orders of each tree come in key order, none twice |
| `Completeness.CompleteExactlyWhen` | programs/openbook-v2/src/state/orderbook/bookside_iterator.rs:170-205 | every pegged order with a representable price is yielded if and only if the first one has such a price, or none has, or the only one is better than the best fixed order |
| `Completeness.FixedAlwaysYielded` | programs/openbook-v2/src/state/orderbook/bookside_iterator.rs:170-205 | every fixed order is yielded |
| `Completeness.OrderPassedOver` | programs/openbook-v2/src/state/orderbook/bookside_iterator.rs:177-183 | asks at an oracle price for which one that can be matched is never shown |
| `Evictions.WorstRanksLast` | programs/openbook-v2/src/state/orderbook/bookside.rs:102-123 | no order has a worse price than the one taken out as the worst; if all prices can be represented, none at its price has arrived later; none is taken out only if there is none |
| `Evictions.ExpiredRanOut` | programs/openbook-v2/src/state/orderbook/bookside.rs:127-143 | the order taken out for its expiry has run out of time, before all others of its tree; the preferred tree is left alone only if none of its orders has, and nothing is taken out only if none has at all |
| `EventHeaps.PushOk` | programs/openbook-v2/src/state/orderbook/heap.rs:76-103 | pushing keeps used and free slots apart, each once |
| `EventHeaps.DeleteOk` | programs/openbook-v2/src/state/orderbook/heap.rs:109-133 | deleting takes out that slot and no other |
| `EventHeaps.PushDelete` | programs/openbook-v2/src/state/orderbook/heap.rs:76-133 | an event pushed and deleted leaves the heap as it was |
| `EventHeaps.EventHeap.PushBack` | programs/openbook-v2/src/state/orderbook/heap.rs:76-103 | relinking appends the event in the slot freed last |
| `EventHeaps.EventHeap.DeleteSlot` | programs/openbook-v2/src/state/orderbook/heap.rs:109-133 | relinking takes the slot out and keeps the order of the rest, at the head and for the only element too; free or missing slots are refused |
| `EventHeaps.EventHeap.Slots` | programs/openbook-v2/src/state/orderbook/heap.rs:135-162 | following the links yields the slots in order of arrival |
| `Markets.FeesRound` | programs/openbook-v2/src/state/market.rs:307-355 | every fee is the amount times its rate in millionths, with both bounds of its rounding: a maker's fee and rebate down, the locked fee and the taker's fee up; never both a fee and a rebate |
| `Markets.MostWithFee` | programs/openbook-v2/src/state/market.rs:301-305 | the quote that a bid may take is the most that leaves room for the taker fee on it |
| `Markets.SplitFee` | programs/openbook-v2/src/state/market.rs:307-335 | the floor fee of one part and the ceiling fee of the rest fit in the ceiling fee of the whole |
| `Markets.RebateCovered` | programs/openbook-v2/src/state/market.rs:315-345 | the taker fee on one more fill pays the maker's rebate on it; what a rebate is, `Markets.FeesRound` says |
| `Accounts.OpenOrdersAccount.Maker` | programs/openbook-v2/src/state/open_orders_account.rs:134-199 | crediting a maker step by step is the function whose effect `Ledgers.MakerIsPaid` states in lots, prices and fee rates |
| `Accounts.OpenOrdersAccount.Cancel` | programs/openbook-v2/src/state/open_orders_account.rs:305-344 | cancelling step by step is the function whose effect `Ledgers.CancelPays` states |
| `Accounts.OpenOrdersAccount.NextSlot` | programs/openbook-v2/src/state/open_orders_account.rs:111-115 | the first free slot |
| `Ledgers.MatchKeeps` | programs/openbook-v2/src/state/orderbook/book.rs:175-262 | matching part of an order keeps the accounting invariant; the quote, rebate and base it moves become due from or to the taker |
| `Ledgers.MakerIsPaid` | programs/openbook-v2/src/state/open_orders_account.rs:134-199 | a fill pays its maker exactly what the vault owes for it: its value, less the fee or with the rebate that its rate comes to rounded down, and for a bid pegged below its limit the difference for which it had locked funds; the referrer gets the fee; the lots leave the position, and the slot is freed if the order is filled |
| `Ledgers.CancelPays` | programs/openbook-v2/src/state/open_orders_account.rs:305-344 | a cancelled order gives back exactly what it locked: base, or quote at the locked price with the maker fee on it rounded up |
| `Ledgers.PostingLocks` | programs/openbook-v2/src/state/orderbook/book.rs:385-403 | posting enters exactly the lots of the order at its locking price, the fee on them rounded up, and the order in its slot |
| `Ledgers.PostThenCancel` | programs/openbook-v2/src/state/open_orders_account.rs:279-344 | cancelling a posted order undoes its posting: what posting charges for it becomes free |
| `Ledgers.PostKeeps` | programs/openbook-v2/src/state/open_orders_account.rs:279-303 | posting keeps the accounting invariant; what it locks becomes due |
| `Solvency.FeesNotNegative` | programs/openbook-v2/src/state/open_orders_account.rs:171-176 | locked maker fees cover the fees of all resting, pending and partly filled bids, so they never fall below zero |
| `Solvency.EmptyMarketOwesNothing` | programs/openbook-v2/src/state/market.rs:170-175 | the vault totals are all zero if and only if no order, event, account or fee is owed anything |
| `Matching.WalkTotals` | programs/openbook-v2/src/state/orderbook/book.rs:123-281 | the walk matches only valid orders within the price, in whole or part; what it takes is what the budget loses, which never goes below zero |
| `MatchingLaws.NothingSkipped` | programs/openbook-v2/src/state/orderbook/book.rs:123-166 | every valid order before the place where the walk stops is dealt with, and the reason to stop there is true |
| `MatchingLaws.BidLeavesOnePartial` | programs/openbook-v2/src/state/orderbook/book.rs:168-236 | a bid fills in part at most one order, the last it matches |
| `Crossings.OnePartialExactlyWhen` | programs/openbook-v2/src/state/orderbook/book.rs:168-236 | on either side at most one order is filled in part, if and only if behind the first order that quote cuts short nothing can be matched with the rest of its division by the price |
| `Crossings.MatchesNothingExactlyWhen` | programs/openbook-v2/src/state/orderbook/book.rs:123-215 | a walk matches nothing, if and only if nothing is left to spend or the next order is missing, beyond the price, too dear, or an own one that stops the order; own orders that are cancelled are passed over |
| `Crossings.AffordedLeavesOnePartial` | programs/openbook-v2/src/state/orderbook/book.rs:168-236 | a quote that pays for every valid order within the price leaves at most one filled in part, on either side |
| `MatchingLaws.AskMayLeaveTwoPartial` | programs/openbook-v2/src/state/orderbook/book.rs:168-236 | an ask limited by quote that fills two bids in part: an input for which the condition of `Crossings.OnePartialExactlyWhen` fails |
| `MatchingLaws.TakerFeeCoversRebates` | programs/openbook-v2/src/state/orderbook/book.rs:205-294 | the taker fee on all fills covers all rebates, rounding included, so the referrer amount is never negative |
| `MatchingLaws.SlidingIsNeverBlocked` | programs/openbook-v2/src/state/orderbook/order.rs:92-112 | the price of an order that slides keeps clear of every valid opposing order |
| `Posting.SpendingBound` | programs/openbook-v2/src/state/orderbook/book.rs:316-403 | quote taken, taker fee, quote posted and maker fee of a bid stay within its limit |
| `Posting.NegativePostsNothing` | programs/openbook-v2/src/state/orderbook/book.rs:355-362 | with nothing left nothing is posted, although division rounds toward zero |
| `Simulator.IterateBook` | lib/client/src/book.rs:89-163 | the simulation's loop takes and pays what the engine's walk does, although it tests its conditions in another order; the accounts that it collects begin with the owners of the orders that the walk drops and of the first that it matches, and are exactly these unless the walk stops for want of base or quote |
| `Simulations.BookPricesAreRepresentable` | programs/openbook-v2/src/state/orderbook/bookside_iterator.rs:59-87 | every price at which a book shows an order is within the limit of a market order, as `Simulator.IterateBook` needs |
| `Simulations.AmountsOnBook` | lib/client/src/book.rs:46-86 | on a book, the amounts are what a market order without an account takes there, pays, and pays to the makers, whenever it is accepted |
| `Simulator.AmountsFromBook` | lib/client/src/book.rs:46-86 | the amounts it reports are those of the engine's walk, and the shortfall is what is left of the budget |
| `Simulations.CollectedSuffice` | lib/client/src/book.rs:85-163 | passing along the accounts that the simulation collects leaves no dropped order and no fill before the sixteenth to the heap, and none is collected in vain |
| `OrderLaws.SimulationIsRight` | programs/openbook-v2/src/state/orderbook/book.rs:61-314 | a market order without an account that succeeds takes, pays and rebates what the simulation says |
| `OrderLaws.PricePriority` | programs/openbook-v2/src/state/orderbook/book.rs:123-266 | price-time priority on the book: items come in price order, actions follow them from the front, none that is valid is left out before the walk stops |
| `OrderLaws.BidFillsOneInPart` | programs/openbook-v2/src/state/orderbook/book.rs:168-236 | a bid leaves at most one order of the book filled in part |
| `OrderLaws.FillsOneInPartExactlyWhen` | programs/openbook-v2/src/state/orderbook/book.rs:168-236 | the exact condition of `Crossings.OnePartialExactlyWhen` on the book, for orders on either side |
| `OrderLaws.MatchingChangesBooks` | programs/openbook-v2/src/state/orderbook/book.rs:328-339 | after matching the opposing book is the old one with the actions carried out; the order's own side is untouched |
| `OrderLaws.TouchedChanges` | programs/openbook-v2/src/state/orderbook/book.rs:229-266 | an order that is dropped, cancelled or filled is gone, one that is filled in part has what is left |
| `OrderLaws.UntouchedStays` | programs/openbook-v2/src/state/orderbook/book.rs:328-339 | every other order stays as it is |
| `OrderTerms.PriceIsRight` | programs/openbook-v2/src/state/orderbook/order.rs:92-190 | the price of an order is the one that it states, an order that slides and would cross gets exactly one tick clear of the best valid opposing price; its key holds that price, or the offset to it |
| `OrderOutcomes.DealsAreRightful` | programs/openbook-v2/src/state/orderbook/book.rs:123-266 | whatever an accepted order does to an opposing order is rightful: it drops it if and only if it has run out of time or is past its peg limit, cancels it if and only if it is an own one and that was asked for, and matches none beyond the price that it states, none at all if it is post-only, no own one unless that was asked for, and no more than it has |
| `OrderOutcomes.NothingLeftOut` | programs/openbook-v2/src/state/orderbook/book.rs:123-236 | an accepted order goes through the opposing orders in price-time order, deals with every valid one, takes less than all of one only if base is spent or the quote left does not buy a lot, drops up to five invalid ones, and stops only at the end, when base or quote is spent, at the match limit, or at an order beyond its price or too dear |
| `OrderOutcomes.OpposingAfter` | programs/openbook-v2/src/state/orderbook/book.rs:229-339 | on the opposing side, the orders dealt with are gone or have what was not matched, and all others are unchanged |
| `OrderOutcomes.WorseOrdersStay` | programs/openbook-v2/src/state/orderbook/book.rs:157-166 | an opposing order that has time left and keeps its peg limit is unchanged if its price is beyond the one that the order states, or if the order is post-only |
| `OrderOutcomes.DeadOrdersAreNotMatched` | programs/openbook-v2/src/state/orderbook/book.rs:128-155 | an opposing order that has run out of time or is past its peg limit is never matched, only dropped or left as it is |
| `OrderOutcomes.TakenIsPaidFor` | programs/openbook-v2/src/state/orderbook/book.rs:268-294 | an order takes the lots of its matches at their prices, pays the taker fee on what is not its own, rounded up, and its referrer gets what the makers' rebates leave of it; a fill-or-kill order takes all of its base, a post-only order nothing |
| `Crossings.UncrossedExactlyWhen` | programs/openbook-v2/src/state/orderbook/book.rs:123-166 | a walk that may go on to be posted with base left leaves nothing within its price, if and only if the quote it starts with pays for every valid order within the price |
| `OrderLaws.ClearedIsUncrossed` | programs/openbook-v2/src/state/orderbook/book.rs:328-339 | the walk leaves nothing within its price if and only if none of the valid orders that the book showed within it is on the book afterwards |
| `OrderLaws.PostedIsClearExactlyWhen` | programs/openbook-v2/src/state/orderbook/book.rs:316-374 | an order that is posted has cleared the opposing book within its price, if and only if its quote, less the taker fee kept back, pays for every valid order that the book shows within it |
| `OrderLaws.NewOrderIsClearExactlyWhen` | programs/openbook-v2/src/state/orderbook/book.rs:61-491 | the same for the whole new order, at the price that is found for it |
| `PostingOutcomes.PostedExactlyWhen` | programs/openbook-v2/src/state/orderbook/book.rs:316-374 | an order is posted if and only if it is of a kind that rests, nothing that it could take is left in its way, its price keeps its peg limit, and base and quote left come to a lot with its maker fee |
| `PostingOutcomes.PostsAsStated` | programs/openbook-v2/src/state/orderbook/book.rs:349-491 | an order that is posted rests at its price, with its time in force, time, client id and peg limit, under the next arrival number, in the first free slot, for as many lots as base and quote left allow with the maker fee; one order that has run out of time leaves, if there is one, and of a full side one behind which none ranks and whose price is worse; nothing else changes on its side |
| `EventOutcomes.EventsAreLeft` | programs/openbook-v2/src/state/orderbook/book.rs:580-629 | the events left to the heap are, in their order, those of owners who are not at hand and the fills after fifteen credited at once, then at most two orders that made room; accounts that are not at hand are unchanged |
| `EventOutcomes.TakerIsCredited` | programs/openbook-v2/src/state/open_orders_account.rs:244-277 | the taker's referrer gets the referrer amount, and unless something of its own was given back, a bid has exactly the base more and an ask the quote less the fee |
| `OrderRefusals.PricedExactlyWhen` | programs/openbook-v2/src/state/orderbook/order.rs:117-165 | an order has a price if and only if the price that it should have can be represented, and for a pegged one there is an oracle price and the offsets can be represented |
| `OrderRefusals.AcceptedOnlyIf` | programs/openbook-v2/src/state/orderbook/book.rs:61-112 | an order that is accepted has a price that can be represented, an arrival number is left, and base, quote and what is posted fit in an i64 in native units |
| `OrderRefusals.RefusedForACause` | programs/openbook-v2/src/state/orderbook/book.rs:61-491 | each error of a new order has the cause that it names: sizes, own orders in its way, base left, a heap with too few free slots for the events, an account with no free slot, a side with at most two free cells |
| `CrossedBook.LimitBidMayCross` | programs/openbook-v2/src/state/orderbook/book.rs:316-358 | in a market that instructions lead to, a limit bid that is posted at a price at which part of an ask is left |
| `OrderLaws.PostOnlyIsUncrossed` | programs/openbook-v2/src/state/orderbook/book.rs:124-166 | a post-only order never takes; if it is posted, every valid order that the opposing side shows is beyond its price |
| `ExchangeActions.ActionsKeep` | programs/openbook-v2/src/state/orderbook/book.rs:123-266 | all actions of a walk keep the invariant; they fail only because the heap is full or the taker's own account was passed along |
| `ExchangeOrders.WalkIsDoable` | programs/openbook-v2/src/state/orderbook/book.rs:175-266 | every action is about an order that is on the book, each order once |
| `ExchangeOrders.TakerIsSettled` | programs/openbook-v2/src/state/orderbook/book.rs:268-311 | crediting the taker turns what is due for the fills into what the instruction charges |
| `ExchangePosting.KeyIsFresh` | programs/openbook-v2/src/state/market.rs:188-191 | a key with a new arrival number is not on the book, so insertion never clobbers |
| `ExchangePosting.PostStep` | programs/openbook-v2/src/state/orderbook/book.rs:375-472 | making room and entering the order keep the invariant; it fails only for a full heap, a full account, or a side without room for the price |
| `ExchangeNewOrder.NewOrderKeeps` | programs/openbook-v2/src/state/orderbook/book.rs:61-491 | a new order keeps the invariant, and what is due afterwards is exactly what the instruction charges; no assert on a slot fails and no account is missing |
| `ExchangeSpending.OrderSpends` | programs/openbook-v2/src/state/orderbook/book.rs:316-403 | a bid costs at most its quote limit with all fees; no order moves more base than its base limit |
| `InstructionOrders.PlaceOrderKeeps` | programs/openbook-v2/src/instructions/place_order.rs:53-106 | placing an order keeps the invariant |
| `InstructionOrders.PlaceTakeOrderKeeps` | programs/openbook-v2/src/instructions/place_take_order.rs:46-85 | taking without an account keeps the invariant, and the vault totals do not fall below zero |
| `InstructionOrders.OwnOrder` | programs/openbook-v2/src/state/orderbook/book.rs:556-577 | the order on the book under a slot's key is that slot's own order |
| `InstructionOrders.CancelByIdKeeps` | programs/openbook-v2/src/instructions/cancel_order.rs:7-35 | cancelling keeps the invariant and fails only for an unknown account, id or order |
| `CancelOutcomes.CancelByIdTakes` | programs/openbook-v2/src/instructions/cancel_order.rs:7-35 | cancelling by id succeeds if and only if the first slot with the id names an order on the books; then exactly that order leaves, its slot is free, and its owner gets back what it locked |
| `InstructionOrders.CancelAllKeeps` | programs/openbook-v2/src/state/orderbook/book.rs:496-553 | cancelling all orders never fails and keeps the invariant |
| `CancelOutcomes.CancelAllTakes` | programs/openbook-v2/src/state/orderbook/book.rs:496-553 | cancelling all takes off the books exactly the first orders, up to the limit, on the side and with the client id asked for; no other order, event or account changes |
| `InstructionOutcomes.PlaceOrderExactlyWhen` | programs/openbook-v2/src/instructions/place_order.rs:11-121 | placing succeeds if and only if there is an account, the order is accepted, and free funds and the user's tokens cover its cost; then that is charged, free funds first, with a penalty if and only if there are more events on the heap |
| `InstructionOutcomes.TakeOrderExactlyWhen` | programs/openbook-v2/src/instructions/place_take_order.rs:10-132 | taking without an account succeeds if and only if the order does not rest, is accepted and paid for; the vaults move by what it takes and the makers' rebates, and no referrer is paid |
| `InstructionBatch.CancelAllAndPlaceKeeps` | programs/openbook-v2/src/instructions/cancel_all_and_place_orders.rs:43-131 | the batch keeps the invariant; available less committed never goes below zero, and the deposits never exceed the user's tokens |
| `InstructionOutcomes.BatchPlacesInTurn` | programs/openbook-v2/src/instructions/cancel_all_and_place_orders.rs:43-153 | the batch cancels the account's orders if asked to, places every order in turn, each for as many lots as free funds and tokens less what is committed pay for, and charges the sum of their costs |
| `InstructionEdits.EditKeeps` | programs/openbook-v2/src/instructions/edit_order.rs:6-37 | editing an order keeps the invariant; a negative expected size is refused |
| `InstructionEdits.EditPlacesExactlyWhen` | programs/openbook-v2/src/instructions/edit_order.rs:19-36 | an edit places an order if and only if cancelling takes fewer lots off the account's position than expected, and fewer are missing than the new order has; it is placed for what is not missing, and otherwise the edit only cancels |
| `InstructionEdits.CountedLots` | programs/openbook-v2/src/state/orderbook/book.rs:496-553 | the lots that cancelling counts are those that the account's position loses |
| `InstructionEdits.RefillKeeps` | programs/openbook-v2/src/lib.rs:544-556 | refilling keeps the invariant; the account then has the amounts given, or what it had if that was more, and the vaults get the difference |
| `InstructionFunds.ChargeKeeps` | programs/openbook-v2/src/instructions/place_order.rs:71-106 | what was due is paid from free funds as far as they go and by a deposit of the rest; nobody else pays |
| `InstructionFunds.SettleKeeps` | programs/openbook-v2/src/instructions/settle_funds.rs:13-85 | settling keeps the invariant; the owner gets all free funds; the rebates, with what rounding left locked once no bid is left, go to the referrer, or to the fees if and only if there is none; other accounts are unchanged, and the vaults hold what is paid |
| `InstructionFunds.DepositKeeps` | programs/openbook-v2/src/instructions/deposit.rs:7-34 | a deposit keeps the invariant, and adds the same amounts to the account's free funds and the vaults |
| `InstructionFunds.SettledCanClose` | programs/openbook-v2/src/state/open_orders_account.rs:411-422 | after settling an account can be closed if and only if it has no lots in bids or asks |
| `InstructionFunds.SweepKeeps` | programs/openbook-v2/src/instructions/sweep_fees.rs:9-31 | sweeping pays out exactly the fees, which are in the vault, and keeps the invariant |
| `InstructionFunds.CloseKeepsGood` | programs/openbook-v2/src/instructions/close_open_orders_account.rs:5-12 | an account may be closed if and only if everything in its position is zero; then it has no order and no event left, and no other account changes |
| `InstructionFunds.EmptyMarketIsEmpty` | programs/openbook-v2/src/instructions/close_market.rs:6-25 | a market whose totals are zero has empty books and no events and owes nobody anything, and the other way around |
| `InstructionEvents.PickOk` | programs/openbook-v2/src/instructions/consume_events.rs:43-55 | the slots picked are distinct and have events, and are no more than asked for |
| `InstructionEvents.PickInOrder` | programs/openbook-v2/src/instructions/consume_events.rs:43-55 | without given slots those that arrived first are picked |
| `InstructionEvents.ConsumeKeeps` | programs/openbook-v2/src/instructions/consume_events.rs:57-76 | every event whose account was passed along is handled once; the others stay in their order |
| `InstructionEvents.ConsumesFirst` | programs/openbook-v2/src/instructions/consume_events.rs:36-79 | consuming picks exactly as many events as the limit, eight and the heap allow, in the slots given first and then by arrival; exactly those of accounts passed along are gone, and only these accounts change |
| `EventsCommute.AnyOrder` | programs/openbook-v2/src/state/open_orders_account.rs:134-199 | events drained in any order reach the same accounts, slots, totals and books |
| `EventsCommute.ConsumingCommutes` | programs/openbook-v2/src/instructions/consume_events.rs:57-76 | consuming the same slots in two orders, some of them skipped, leads to the same accounts, totals and books, and leaves the same events in the same order |
| `Runs.ConsumeEventsKeeps` | programs/openbook-v2/src/instructions/consume_events.rs:36-76 | consuming keeps the invariant and takes off at most eight events |
| `Runs.ExecuteKeeps` | programs/openbook-v2/src/lib.rs:88-620 | every modelled instruction keeps the invariant: placing, editing, taking, batches, cancelling, consuming, settling, deposits, refills, sweeping, opening and closing |
| `Runs.AlwaysHealthy` | programs/openbook-v2/fuzz/fuzz_targets/multiple_orders.rs:260-437 | the invariant holds after every run of instructions |
| `Runs.Conserved` | programs/openbook-v2/fuzz/fuzz_targets/multiple_orders.rs:260-437 | the quote total is free quote, locked fees, rebates, locked bids, fees to sweep and pending fills; the base total is free base, locked asks and pending fills |
| `Runs.AlwaysSolvent` | programs/openbook-v2/src/instructions/settle_funds.rs:22-32 | whatever can be withdrawn is in the vaults; no counter without a sign is below zero |
| `Runs.PositionsTell` | programs/openbook-v2/src/state/open_orders_account.rs:350-376 | lots and locked quote of a position are the totals over its resting orders and pending events, and enough fees are locked for them |
| `Runs.OrdersAndSlots` | programs/openbook-v2/src/state/open_orders_account.rs:279-303 | a resting order sits in a slot in use that names it; no two orders share a slot or an arrival number |
| `Runs.EventsAndSlots` | programs/openbook-v2/src/state/open_orders_account.rs:305-344 | a pending event that ends an order points at a slot in use on its side |
| `Runs.SlotsNotShared` | programs/openbook-v2/src/state/open_orders_account.rs:305-344 | no slot is shared by two pending events that end orders, or by such an event and a resting order |
| `Unwindings.FundsAreNeverStuck` | programs/openbook-v2/src/instructions/close_market.rs:6-25 | from every state that the invariant allows: once all accounts have cancelled their orders, the events are consumed, the accounts settled and the fees swept, the vaults are empty, and the market and every account may be closed |
| `Unwindings.CancelAllClears` | programs/openbook-v2/src/instructions/prune_orders.rs:6-23 | cancelling with a limit that is high enough never fails and leaves no order of the account on the books; nothing is put on them, and the events stay |
| `Unwindings.EventsConsumed` | programs/openbook-v2/src/instructions/consume_events.rs:36-76 | with all accounts passed along, consuming never fails and takes events off as long as there are any |
| `Deferred.DeferredIsDirect` | programs/openbook-v2/src/state/orderbook/book.rs:328-339 | all changes and then all deletes come to the same as the actions one after the other |
| `Deferred.NothingMissing` | programs/openbook-v2/src/state/orderbook/book.rs:328-339 | the deferred changes and deletes never miss |
| `Engines.Engine.MatchOrders` | programs/openbook-v2/src/state/orderbook/book.rs:123-266 | the loop over the tree iterators deals with the orders as the walk does |
| `Engines.Engine.TakeIn` | programs/openbook-v2/src/state/orderbook/book.rs:86-339 | matching, settling and the deferred changes on the arena and the heap are the function of the old state |
| `Engines.Engine.PostIn` | programs/openbook-v2/src/state/orderbook/book.rs:375-472 | locking fees first and making room afterwards comes to the same as entering the order with its fees |
| `Engines.Engine.NewOrder` | programs/openbook-v2/src/state/orderbook/book.rs:61-491 | the whole order, on the arena, the linked heap and the accounts: the same state, amounts or error as the function, whose outcome `OrderOutcomes`, `PostingOutcomes`, `EventOutcomes` and `OrderRefusals` state by what the order says |
| `Handlers.PlaceOrderHandler` | programs/openbook-v2/src/instructions/place_order.rs:11-121 | the handler is the function whose invariant `InstructionOrders.PlaceOrderKeeps` states |
| `Handlers.PlaceTakeOrderHandler` | programs/openbook-v2/src/instructions/place_take_order.rs:10-132 | the same for an order without an account |
| `Handlers.CancelOrderHandler` | programs/openbook-v2/src/instructions/cancel_order.rs:7-35 | finding the slot and cancelling its order is the function |
| `Handlers.CancelAllHandler` | programs/openbook-v2/src/state/orderbook/book.rs:496-553 | the loop over the slots is the function, with the lots that it counts |
| `Handlers.CancelAllAndPlaceHandler` | programs/openbook-v2/src/instructions/cancel_all_and_place_orders.rs:11-153 | the loop over the orders, with what is committed so far, is the function |
| `Handlers.EditOrderHandler` | programs/openbook-v2/src/instructions/edit_order.rs:6-37 | cancelling by client id and placing what is left is the function |
| `Handlers.RefillHandler` | programs/openbook-v2/src/lib.rs:544-556 | depositing what is missing is the function |
| `Handlers.SettleFundsHandler` | programs/openbook-v2/src/instructions/settle_funds.rs:8-90 | the steps of settling are the function whose payments `InstructionFunds.SettleKeeps` states |
| `Handlers.PickSlots` | programs/openbook-v2/src/instructions/consume_events.rs:43-55 | the loop picks the slots of the function |
| `Handlers.ConsumeEventsHandler` | programs/openbook-v2/src/instructions/consume_events.rs:36-79 | the loop handles and deletes the events of the function |
| `HandlerRuns.Handle` | programs/openbook-v2/src/lib.rs:88-620 | every handler, on a well-formed engine whose market keeps the invariant, meets the outcome of its instruction: the new state or the error |
| `HandlerRuns.Deliver` | programs/openbook-v2/src/lib.rs:88-620 | an instruction, whether its handler succeeds or not, leaves a well-formed engine whose market is what the instruction makes of it, and keeps the invariant; on an error it is the old one |
| `HandlerRuns.DeliverAll` | programs/openbook-v2/src/lib.rs:88-620 | after any instructions, failing ones included, arena, heap and lists are well-formed, the market is where the run of instructions leads, and it keeps the invariant |
| `HandlerRuns.StartAndDeliver` | programs/openbook-v2/src/lib.rs:88-620 | the same from a market just created |
| `ChainDatas.InsertedInOrder` | lib/client/src/chain_data.rs:149-172 | a new write is added, keeps the list sorted by slot, and comes after all writes of its slot |
| `ChainDatas.NewWriteIsKnown` | lib/client/src/chain_data.rs:149-231 | the new write is what is known of its account if and only if it is live and no live write is of a later slot |
| `ChainDatas.LastLiveIsLatest` | lib/client/src/chain_data.rs:221-231 | the answer is a live write and no live write is newer |
| `ChainDatas.MarkedExactly` | lib/client/src/chain_data.rs:94-111 | exactly the slots down to the first rooted one join the best chain |
| `ChainDatas.PruneExactlyWhen` | lib/client/src/chain_data.rs:113-147 | pruning changes an answer if and only if that is a write after the best chain's head, not after the root, in a known slot that is neither rooted nor in the best chain |
| `ChainDatas.PruneKeepsAnswers` | lib/client/src/chain_data.rs:113-147 | with the best chain's head not before the root pruning changes no answer |
| `ChainDatas.PruneMayLose` | lib/client/src/chain_data.rs:113-147 | news about a slot that is rooted behind the head of the best chain, by which an answer is lost |
| `ChainDatas.LosesAWrite` | lib/client/src/chain_data.rs:60-231 | a cache that is led there by its own updates, from the start |
| `ChainDatas.NewHeadIsLive` | lib/client/src/chain_data.rs:174-188 | the stub slot for a write from the future is live |
| `ChainDatas.UpdatedOk` | lib/client/src/chain_data.rs:60-147 | news about a slot keeps every list sorted by slot and every parent before its slot, and leaves no slot before the root; what is learnt is `ChainNews.SlotsLearn` |
| `ChainNews.HeadsMoveUp` | lib/client/src/chain_data.rs:59-79 | after news about a slot the root, the processed head and the best head are the latest of the old one and, where it is of that kind, the slot |
| `ChainNews.SlotsLearn` | lib/client/src/chain_data.rs:81-111 | a known parent stays and an unknown one is learnt; a rooted slot stays rooted, rooted news makes it so, and a processed one takes any status; exactly the slots from the best head down to the first rooted one are marked as its chain, and exactly those before a new root are forgotten |
| `ChainNews.HeadDecides` | lib/client/src/chain_data.rs:190-201 | after news of a later head, writes count if and only if their slot is in its chain, rooted or later, or no longer known and not after the root |
| `ChainNews.RootAnswers` | lib/client/src/chain_data.rs:113-147 | after news of a new root every account written to in that slot answers with such a write, unless a later one counts |
| `ChainDatas.ChainData.UpdateSlot` | lib/client/src/chain_data.rs:60-147 | the steps and loops of an update are the function whose effect `ChainNews.SlotsLearn` and `ChainNews.RootAnswers` state |
| `ChainDatas.ChainData.UpdateAccount` | lib/client/src/chain_data.rs:149-172 | the insertion is the function; the branch that overwrites is dead |

## Left out

- Account validation, signers, program-derived addresses, token transfers, rent and lamports: a transfer is only its amount, and fails when the user's tokens do not cover it.
- Oracle decoding and floating point: the oracle price in lots is any optional integer.
- Byte layout: nodes and events are datatypes, handles are natural numbers; the two parts `BookSide` and `OrderTreeNodes` are one class.
- Fixed integer widths: apart from keys, price data, the arrival number and the checks the code makes itself, integers are unbounded. What must not go below zero is proved not to.
- Counters for display (volumes, fees accrued, fees to referrers), event numbers, timestamps and client ids in events, and all logs.
- `quantity_at_price` and `impact_price`: sums over the iterator that is modelled.
- Delegates, the account indexer, market expiry and admin checks; version 0 accounts; the lamport penalty beyond its counter.
- `prune_orders`, `cancel_order_by_client_order_id` and `settle_funds_expired` have no instruction of their own: they are cancelling all orders, cancelling all with a client id, and settling, but for checks of who asks and when.
- The program's own accounts cannot sign: an order without an account whose signer is an account is refused.
- The batch instruction takes only orders that are not pegged, as its callers build them.
- Array sizes are parameters; the slots of an account are 24.
- `Engines.Engine.NewOrder`: accounts are values in a map, so that two references to one account are not modelled; an account passed along a second time is an error, as when it is borrowed twice.
- `Handlers.ConsumeEventsHandler`: after an error nothing is said of the state, here and in the other handlers, because the runtime drops it; `HandlerRuns.Deliver` does so.
- `MatchingLaws.AskMayLeaveTwoPartial`, `Completeness.OrderPassedOver` and `BookSideModels.RemovalMayNotMakeRoom`: their inputs are orders of a book, not a run of instructions that leads to such a book.
- `ChainDatas.ChainData.UpdateSlot`: slots are assumed to come after their parents, without which the source's loop need not end.
- `PostingOutcomes.PostsAsStated`: the time is assumed to fit in 64 bits, as the source's does; so it is for `Evictions.ExpiredRanOut`.
- `Evictions.WorstRanksLast`: between orders at one price it speaks of arrival only if all pegged prices can be represented; where prices are clamped, an order may be taken out although a later one stands at the same clamped price.
- `EventOutcomes.TakerIsCredited`: it speaks of the account before anything is posted; what cancelling and posting change in it is `Ledgers.CancelPays` and `Ledgers.PostingLocks`.
- `ChainNews.HeadDecides`: assumes that no slot names a head later than the best one, as news do that the client makes itself.
- Snapshot sources, RPC, the websocket client and the router adapter.
