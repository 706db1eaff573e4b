# MetaExchange best-execution allocator, modelled in Dafny

MetaExchange splits one BTC order across several exchanges at the best prices
available. Each exchange is given as a snapshot: its order book of bids and
asks, and its EUR and BTC balances. A Buy request takes asks cheapest first. A
Sell request hits bids dearest first. Each exchange's consumption is bounded:

- For a Buy, the EUR spent on an exchange may not exceed its EUR balance.
- For a Sell, the BTC sold on an exchange may not exceed its BTC balance.

The answer is either a list of execution orders (exchange, amount, price) that
covers the whole request, or an "insufficient liquidity" error that carries
what is left of the request.

The repository has two implementations of this allocator, and the model covers
both:

- `ProcessOrder` sorts all eligible orders, then scans them once.
- `ProcessOrderLargeSet` pushes the eligible orders into a priority queue and
  dequeues the best one until the request is met.

Layout, one module per file:

| file | module | contents |
|---|---|---|
| `models.dfy` | `Models` | the records of `MetaExchange.Core/Models`, the error cases, and the `Result` type |
| `eligible.dfy` | `Eligible` | the collection of counter-side orders, each tagged with its exchange and that exchange's balances |
| `priority.dfy` | `Priority` | price priority, and the stable sort that LINQ's `OrderBy`/`OrderByDescending` performs |
| `allocation.dfy` | `Allocation` | the greedy walk as a pure fold (`Step`, `Walk`, `Finish`), the reference definition both implementations are proved against |
| `capacity.dfy` | `Capacity` | one step in closed form: the least of the remaining request, the order's size and the exchange's room |
| `ties.dfy` | `Ties` | why tied prices cannot change the outcome: two tied candidates served in either order leave the walk in an equivalent state |
| `shortfall.dfy` | `Shortfall` | what a failing walk has booked: every exchange saturated up to its balance or its demand, and the sell shortfall in closed form |
| `guarantees.dfy` | `Guarantees` | the contract every returned plan meets, proved for a walk over any price-sorted arrangement |
| `queue.dfy` | `Queue` | the priority queue, abstracted to a multiset with "remove a best element" |
| `agreement.dfy` | `Agreement` | when the two strategies must agree |
| `metaexchange.dfy` | `MetaExchange` | the C# methods, loop for loop |
| `scenarios.dfy` | `Scenarios` | the unit tests' books, with the answer the code computes for each input |

Modelling conventions:

- C# `decimal` is modelled as Dafny's exact `real`.
- A thrown exception becomes an `Err` value:
  - `AmountNotPositive` and `NoExchanges` stand for the `ArgumentException`s;
  - `InsufficientLiquidity(side, remaining)` stands for the liquidity exception and carries the amount its message reports.
- The per-exchange dictionary is a `map<string, real>`. A name the dictionary does not hold reads as zero (`Used`).

## Model

| member | source | states |
|---|---|---|
| Eligible.CollectOrdersMembers | MetaExchange.Core/MetaExchange.cs:24-31 | Membership: a wrapped order of one exchange is collected exactly when it carries the counter side. It is collected unchanged, tagged with the exchange's name and its BTC and EUR balances. Copy counts are `CollectOrdersCount`. |
| Eligible.CollectOrdersCount | MetaExchange.Core/MetaExchange.cs:24-31 | Counting: a candidate appears in one exchange's collected list exactly as many times as its order appears in the wrapper list, if it is tagged with that exchange and carries the counter side, and otherwise not at all. Repeated orders are neither merged nor duplicated. |
| Eligible.FromOneMembers | MetaExchange.Core/MetaExchange.cs:143-158 | Membership: one exchange contributes exactly the counter-side orders of the right book list, asks for a Buy and bids for a Sell. Copy counts are `CollectOrdersCount`. |
| Eligible.CollectMembers | MetaExchange.Core/MetaExchange.cs:75-82 | Membership: a candidate is collected if and only if some exchange in the list contributes it. Both directions are proved, so nothing outside the books appears and nothing eligible is dropped. Copy counts are `CollectCount`. |
| Eligible.CollectCount | MetaExchange.Core/MetaExchange.cs:75-84 | Counting: the collected list holds each candidate exactly as often as the books of all exchanges together hold its order, per `CopiesAcross`. This is a statement about the multiset, so duplicate orders and duplicate exchange entries are counted once each. |
| Priority.SortByPriority | MetaExchange.Core/MetaExchange.cs:32 | The sort returns a permutation of its input: the same multiset of candidates. |
| Priority.InsertPermutes | MetaExchange.Core/MetaExchange.cs:83 | Inserting one candidate adds exactly that candidate. |
| Priority.InsertSorted | MetaExchange.Core/MetaExchange.cs:83 | Insertion into a price-sorted list keeps it price-sorted. |
| Priority.InsertAtPrice | MetaExchange.Core/MetaExchange.cs:83 | Insertion places the new candidate after every earlier candidate quoting the same price, which is what makes the sort stable. |
| Priority.SortByPriorityCorrect | MetaExchange.Core/MetaExchange.cs:32 | The sort result is ordered by price priority (dearest first for a Sell, cheapest first for a Buy). For every price, the candidates at that price keep their encounter order: the sort is stable, as `OrderByDescending` is. |
| Priority.SortedUnique | MetaExchange.Core/MetaExchange.cs:83 | Two price-sorted sequences that agree price by price on their tied runs are equal, so the stable sort is the only such arrangement. |
| Priority.SortedPermutationUnique | MetaExchange.Core/MetaExchange.cs:139-140 | When all prices are distinct, two price-sorted arrangements of the same multiset are equal. |
| Priority.SortedConcat | MetaExchange.Core/MetaExchange.cs:162-164 | Two sorted runs, the second no better than anything in the first, concatenate to a sorted sequence. |
| Priority.DistinctPricesPermutation | MetaExchange.Core/MetaExchange.cs:139-140 | Having pairwise-distinct prices is a property of the multiset of candidates: every arrangement has it or none does. |
| Allocation.FillAmountBounds | MetaExchange.Core/MetaExchange.cs:96-101 | A positive fill is at most the remaining request, at most the order's size, and books no more than the available capacity. A Sell fill is the minimum of the three. A Buy fill shrinks to `available / price` exactly when the full amount would cost more than the available EUR. |
| Allocation.StepSpec | MetaExchange.Core/MetaExchange.cs:35-61 | One step of the scan has three outcomes. It does nothing once the request is met. It skips an exhausted exchange without emitting a fill. Otherwise it emits at most one fill against this order, within every bound, and books that fill's cost once. Other exchanges' consumption is untouched. |
| Allocation.WalkConserves | MetaExchange.Core/MetaExchange.cs:58 | What is left of the request is the request minus the total filled, and the fills are positive. |
| Allocation.WalkProvenance | MetaExchange.Core/MetaExchange.cs:49-56 | Every fill was cut from one of the walked candidates: same exchange, same price, and no more than the order's size. The fills match distinct candidates, through strictly increasing indices into the walked list, so no order backs two fills and no order is sold or bought beyond its size. |
| Allocation.WalkInPriority | MetaExchange.Core/MetaExchange.cs:35 | Walking a price-sorted list yields fills whose prices never improve along the plan. |
| Allocation.WalkLedger | MetaExchange.Core/MetaExchange.cs:113 | The consumption dictionary records, exchange by exchange, exactly the EUR (Buy) or BTC (Sell) the emitted fills booked. |
| Allocation.WalkCapacity | MetaExchange.Core/MetaExchange.cs:42-47 | What the plan books against an exchange never exceeds that exchange's balance (or zero, for a non-positive balance). |
| Allocation.WalkStopped | MetaExchange.Core/MetaExchange.cs:37 | Once the request is met, the rest of the candidates change nothing. |
| Allocation.FinishAllOrNothing | MetaExchange.Core/MetaExchange.cs:63-66 | For a positive request there are two outcomes. Either the fills sum to exactly the request, or there is an error whose remainder is positive and at most the request. A partial plan is never returned. |
| Allocation.StepCongruent | MetaExchange.Core/MetaExchange.cs:146 | A step reads the dictionary only through "consumed so far, zero if absent", so states that agree there stay in agreement. |
| Allocation.WalkSeeded | MetaExchange.Core/MetaExchange.cs:146 | Pre-initialising the dictionary with zeros, as the queue strategy does, changes neither the fills nor the remainder. |
| Capacity.FillIsGain | MetaExchange.Core/MetaExchange.cs:96-101 | When the exchange still has capacity, the fill the code computes equals the least of the remaining request, the order's size and the exchange's room, and is zero when that least is not positive. For a Buy the room is the EUR left divided by the price. |
| Capacity.StepGain | MetaExchange.Core/MetaExchange.cs:37-60 | One step trades exactly that amount, including zero once the request is met or the exchange is exhausted. The step takes it off the remaining request and books its cost against the candidate's exchange: the BTC sold, or amount × price in EUR. No other exchange's consumption changes. |
| Ties.AlikeOutcome | MetaExchange.Core/MetaExchange.cs:63-64 | Two walk states count as alike when both have met the request, or when they agree on the remainder and on every exchange's consumption. Alike states finish alike: both return a plan, or both fail with the same error. |
| Ties.StepAlike | MetaExchange.Core/MetaExchange.cs:164-198 | Serving the same candidate from alike states gives alike states, for any price. A step reads only the remainder and its own exchange's consumption, never the fills emitted so far. |
| Ties.WalkAlike | MetaExchange.Core/MetaExchange.cs:162-201 | Walking the same candidates from alike states ends in alike states. |
| Ties.SwapTied | MetaExchange.Core/MetaExchange.cs:139-141 | Two equally priced candidates, which the priority queue may release in either order, can be served in either order and the walk ends alike. This holds when they come from different exchanges, and when they come from one exchange with one balance. |
| Ties.BubbleFront | MetaExchange.Core/MetaExchange.cs:139-141 | A candidate can be moved ahead of a run of candidates quoting its price without changing the outcome. |
| Ties.SortedAlike | MetaExchange.Core/MetaExchange.cs:139-164 | Any two price-sorted arrangements of the same candidates end alike. The candidates must have positive buy prices, and one exchange name must carry one balance. |
| Ties.SameOutcome | MetaExchange.Core/MetaExchange.cs:139-164 | With unique exchange names and positive buy prices, the price-sorted arrangement the priority queue dequeues, whatever order it gives tied prices, has the outcome of the stable sort: a plan exactly when the sort gives a plan. On failure the error, and with it the remainder, is the same. |
| Shortfall.WalkAtMost | MetaExchange.Core/MetaExchange.cs:42-47 | Every walk books against an exchange at most the least of its balance (floored at zero) and the demand its walked candidates put on it. The demand of a candidate is its size for a Sell and size × price for a Buy. |
| Shortfall.WalkSaturates | MetaExchange.Core/MetaExchange.cs:35-61 | With positive buy prices, a walk that ends short has booked against every exchange exactly the least of its balance (floored at zero) and that demand. The walk never gives up on an exchange while it could still trade there. |
| Shortfall.DemandPermutation | MetaExchange.Core/MetaExchange.cs:162-164 | The demand on an exchange depends only on the multiset of candidates, not on the order the queue releases them in. |
| Shortfall.CollectDemand | MetaExchange.Core/MetaExchange.cs:143-158 | With unique names, the demand on exchange `i` across all eligible orders is the demand of its own eligible orders. |
| Shortfall.ShortfallSaturates | MetaExchange.Core/MetaExchange.cs:117-118 | When a walk over an arrangement of the eligible orders fails, every exchange has booked `Min(Max(0, balance), demand)`. That is its whole BTC balance or all its bids for a Sell. For a Buy it is its whole EUR balance or the full price of all its asks. This needs unique names and positive buy prices. |
| Shortfall.SellShortfall | MetaExchange.Core/MetaExchange.cs:63-64 | For a Sell with unique names, the walk over any arrangement of the eligible bids fails if and only if the amount exceeds the sell capacity. The sell capacity is the sum over exchanges of the least of the BTC balance and the total size of the bids. When the walk fails, the remainder is exactly the excess. |
| Guarantees.GreedyGuarantees | MetaExchange.Core/MetaExchange.cs:162-204 | A walk over any price-sorted arrangement of the eligible orders meets the whole plan contract. A plan has the exact total in positive fills and fills in price priority. Each fill is cut from an eligible order, and no order backs two fills: the fills match distinct orders of an arrangement of the eligible ones. With unique names each exchange stays within its balance. A Sell plan also needs the amount to fit in the sell capacity. Otherwise the result is the leftover error, positive and at most the request; for a Sell with unique names the leftover is the amount minus the sell capacity. |
| Eligible.CeilingIsBalance | MetaExchange.Core/MetaExchange.cs:153-155 | With unique exchange names, every candidate of an exchange carries that exchange's balance as its ceiling. |
| Queue.BestExists | MetaExchange.Core/MetaExchange.cs:164 | A non-empty queue has an element that nothing else in it beats on price. |
| Queue.DequeueBest | MetaExchange.Core/MetaExchange.cs:162-164 | Removing a best element keeps the dequeued sequence price-sorted and ahead of everything still queued. Nothing is lost. |
| Queue.ArrangeRest | MetaExchange.Core/MetaExchange.cs:162-164 | What was dequeued, followed by the rest of the queue in price order, is a price-sorted arrangement of everything enqueued. |
| Agreement.OnlyArrangement | MetaExchange.Core/MetaExchange.cs:139-164 | With pairwise-distinct prices, any price-sorted arrangement of the eligible orders equals the stable sort. |
| MetaExchange.ProcessOrder | MetaExchange.Core/MetaExchange.cs:7-16 | A non-positive amount is rejected. Otherwise the result is the greedy walk over the stably sorted eligible orders, and it meets the plan contract. |
| MetaExchange.ProcessSellOrder | MetaExchange.Core/MetaExchange.cs:18-67 | The sell path computes the reference walk over bids, dearest first. |
| MetaExchange.SellAgainst | MetaExchange.Core/MetaExchange.cs:35-66 | The sell loop with its early exit equals the walk over its sorted bids, followed by the leftover check. |
| MetaExchange.SellToBid | MetaExchange.Core/MetaExchange.cs:39-60 | One pass of the sell loop is one step of the reference walk. |
| MetaExchange.ProcessBuyOrder | MetaExchange.Core/MetaExchange.cs:69-121 | The buy path computes the reference walk over asks, cheapest first. |
| MetaExchange.BuyFrom | MetaExchange.Core/MetaExchange.cs:86-120 | The buy loop equals the walk over its sorted asks, followed by the leftover check. |
| MetaExchange.BuyFromAsk | MetaExchange.Core/MetaExchange.cs:90-114 | One pass of the buy loop, including the EUR shrink, is one step of the reference walk. |
| MetaExchange.ProcessOrderLargeSet | MetaExchange.Core/MetaExchange.cs:127-207 | The queue strategy checks for an empty exchange list first, then for a non-positive amount. Its result is the walk over SOME price-sorted arrangement of the eligible orders, so it meets the plan contract. With distinct prices it equals `ProcessOrder`'s result. With tied prices, unique names and positive buy prices, it succeeds exactly when `ProcessOrder` does. When it fails, the error and remainder equal `ProcessOrder`'s. |
| MetaExchange.EnqueueOrders | MetaExchange.Core/MetaExchange.cs:143-159 | The populate phase enqueues exactly the eligible orders as a multiset. Every enqueued exchange has a zero dictionary entry. |
| MetaExchange.EnqueueBook | MetaExchange.Core/MetaExchange.cs:148-158 | One exchange's book adds exactly its eligible orders, all tagged with its name. |
| MetaExchange.DrainQueue | MetaExchange.Core/MetaExchange.cs:161-206 | The dequeue phase returns the walk over some price-sorted arrangement of what was queued. |
| MetaExchange.DequeueWhileShort | MetaExchange.Core/MetaExchange.cs:161-199 | The loop conserves the request: what is left equals the request minus the total of its fills, and every fill is positive. It dequeues in price order and stops when the queue is empty or the request is met. Its state equals the walk over the dequeued prefix. |
| MetaExchange.DrainedArrangement | MetaExchange.Core/MetaExchange.cs:161-204 | When the loop stops, appending the undrained rest still gives the same walk over a full sorted arrangement. |
| MetaExchange.TradeWith | MetaExchange.Core/MetaExchange.cs:164-198 | One dequeued trade, including the `continue` on an exhausted exchange, is one step of the reference walk. |
| Scenarios.BuySimpleCase | MetaExchange.Tests/MetaExchangeTests.cs:10-27 | Buying 3 BTC gives a single fill of 3 at 3000 on ex1. |
| Scenarios.SellSimpleCase | MetaExchange.Tests/MetaExchangeTests.cs:81-98 | Selling 3 BTC gives a single fill of 3 at 3000 on ex1. |
| Scenarios.SellMultipleExchanges | MetaExchange.Tests/MetaExchangeTests.cs:100-122 | Selling 5 BTC fills 2 on ex1 at 3100 and 3 on ex2 at 3000, and never reaches ex3. |
| Scenarios.SellInsufficientBtcBalance | MetaExchange.Tests/MetaExchangeTests.cs:124-137 | Selling 3 BTC with 1 BTC on each of two exchanges fails with 1 BTC left. |
| Scenarios.BuyNoOrders | MetaExchange.Tests/MetaExchangeTests.cs:68-79 | With empty books, a buy of 3 BTC fails with all 3 BTC left. |
| Scenarios.SellNoOrders | MetaExchange.Tests/MetaExchangeTests.cs:139-150 | With empty books, a sell of 3 BTC fails with all 3 BTC left. |
| Scenarios.BuyMultipleExchanges | MetaExchange.Tests/MetaExchangeTests.cs:29-51 | The code's answer is 2 BTC from ex1 and 3 from ex2, because buys are capped by EUR only (see below). |
| Scenarios.BuyInsufficientLiquidity | MetaExchange.Tests/MetaExchangeTests.cs:53-66 | The code fails with 2 − 2000/3100 BTC left, not 3 (see below). |
| Scenarios.SingleAsk | MetaExchange.Core/MetaExchange.cs:86-120 | One exchange with 1000 EUR and a single ask of 1 BTC at 100, asked for 2 BTC: the code buys the one BTC and fails with 1 BTC left. |
| Scenarios.DoubleChargeRejected | MetaExchange.Core/MetaExchange.cs:103-110 | On that input, two 1 BTC fills both charged to the single ask would cover the request, but they break the plan contract, because no order backs two fills. |
| Scenarios.TiedPricesDiverge | MetaExchange.Core/MetaExchange.cs:139-164 | Three bids tie at 100. A tied arrangement the queue may dequeue gives two fills, where the stable sort gives three. |

### Where the code and the tests disagree

The code caps a Buy only by the exchange's EUR balance
(`MetaExchange.Core/MetaExchange.cs:93-101`). It caps a Sell only by the
exchange's BTC balance. Two buy tests assert outcomes that would need a cap by
the exchange's BTC balance as well:

- `BuyOrder_MultipleExchanges` expects the fills 1, 3 and 1.
- `BuyOrder_InsufficientLiquidity` expects 3 BTC left.

The model follows the code. `Scenarios.BuyMultipleExchanges` and
`Scenarios.BuyInsufficientLiquidity` state the code's answers to those two
inputs.

## Left out

- The JSON loader (`ExchangeLoader`), the HTTP API and the console front end: they do I/O and contain no allocation logic.
- The performance test: it measures time, which has no counterpart in a proof.
- Exception message text: the errors carry the side and the remainder the message would print, not the string.
- Decimal precision and rounding: `real` is exact, so the model says nothing about the 28-digit rounding of `decimal` division in the Buy shrink (`eurAvailable / price`).
- Null exchange lists: a Dafny sequence cannot be null. The empty list is modelled.
- The `_ => throw ArgumentOutOfRangeException` arm of `ProcessOrder`: `OrderType` has exactly two values in the model, so the arm cannot be reached.
- The priority queue's internal heap layout, and its lack of thread safety: the queue is modelled as "remove any best-priced element". Which of several tied elements comes out first is left open.
- Guarantees.GreedyGuarantees: the per-exchange capacity bound is stated only for lists with unique exchange names. With a repeated name the code pools both entries' consumption under one dictionary key while each carries its own ceiling.
- MetaExchange.ProcessOrderLargeSet: equality of the plan with `ProcessOrder`'s is proved only for pairwise-distinct prices. Under tied prices the queue's dequeue order among ties is unspecified. `Scenarios.TiedPricesDiverge` shows that this order can change the plan: the number of fills, the amounts, and even the multiset of fill prices.
- MetaExchange.ProcessOrderLargeSet: with tied prices, agreement on the outcome (success, or the same error and remainder) is proved only for unique exchange names and positive buy prices. With a repeated name, two entries share one dictionary key but carry their own balances, so the dequeue order decides which balance caps the pooled consumption. With a zero or negative ask price, the EUR cap does not bound the amount, and the closed form of a step does not apply.
- Guarantees.GreedyGuarantees: the failure branch of the plan contract pins down the remainder only for a Sell, where it is the amount minus the sell capacity. For a Buy, the remainder depends on the prices of the orders that the EUR balances ran out on, so no closed form in the result is stated. What a failing Buy has booked per exchange is proved on the walk instead (`Shortfall.ShortfallSaturates`): the least of the EUR balance and the full price of the exchange's asks.
- Decimal overflow: C# `decimal` throws an `OverflowException` beyond about ±7.9 × 10^28, in the EUR cost of a fill (`MetaExchange.Core/MetaExchange.cs:99`, `:179`) and in the ledger sums (`:59`, `:113`, `:198`). `real` is unbounded, so the model has no overflow error path and proves nothing about inputs that large.
- Optimality of the greedy walk (least total cost or greatest proceeds among all feasible plans): not stated. The model proves price priority, not optimality.
- Truncating fills to a minimum increment: the code does not do it, so the model does not either.
