# Verified model of the event-driven trading engine

This project models the hot path of the trading engine (order map, price levels, order book, matching
engine, symbol router) and its two lock-free components (the SPSC queue and the latency histogram), and
proves what they do on every input, every run and every interleaving.

`dafny verify dfyconfig.toml` checks all of it.

## How the model is layered

- `Bits`, `Types`: bitwise masking, and the values that the components exchange. Masking with
  `capacity - 1` is written bit by bit; that it is a remainder is proved, for powers of two.
- `FlatOrderMap`: the open-addressing table, updated in place. A table represents a map when no live key
  lies beyond an empty slot of its probe path.
- `PriceLevel`: one level's total and its 16-entry id buffer.
- `RestingOrders`: the abstract book, one sequence of live orders in arrival order. Level totals, FIFO
  lists, the id map, best prices and market depth are functions of it. What each operation answers and
  does to map, lists and totals is stated for every input (`InsertEffect`, `CancelEffect`,
  `ModifyOutcome`, `ReduceEffect`). An order carries a flag that says
  whether its level's list had room for it: the code ignores the failed push of a 17th order, which then
  counts in the total and in the id map but is in no list.
- `OrderBook`: the class with its arrays, id map and cached best prices. Its `Valid` ties every part of
  the representation to the abstract book, and every method says what the new abstract book is.
- `Matching`: the rules. `Match` fills one order at a time, the oldest listed one at the best opposite
  price. `Ladder` is the opposite side as one list in price-time order and `Walk` fills down a list; both
  are definitions of their own, not restatements of `Match`. `Stalled` is the outcome in which the
  engine's loop never ends.
- `MatchingTheorems`, `Allocation`: `Match` is a walk down the ladder; closed forms for the fills and for
  the final book; conservation; self-trade prevention; when matching stalls; when output is lost; and
  all of a new order's effects in terms of the book before it (`NewOrderEffect`).
- `MatchingEngine`: the nested loops over level snapshots, proved to compute `Match`; and the outer loop cut
  off after any number of passes, which covers matches that never end.
- `Runs`, `Scenarios`: sequences of events, and concrete runs that show where the code falls short.
- `SymbolRouter`: 256 pipelines, the effect of one event by signal and kind, and the projection of a run
  onto one symbol.
- `SPSCQueue`: every interleaving of the two threads' memory accesses, with stale counters and stale
  buffer reads, and the array-based queue whose calls are paths of that state machine.
- `LatencyHistogram`, `ConcurrentRecord`: percentile accuracy, and any number of recording threads.

## Where the code falls short of its documentation

The model follows the code. Each of these is a theorem with the exact condition, and a run or a call
sequence that meets it:

- Matching can loop forever. A level that once held more than 16 orders can have a total but an empty
  list; the outer loop then sweeps it without effect. `StallsIff` is the condition, over the book before
  the call; `MatchPasses` says that the loop is then not done after any number of passes; in
  `EngineCanHang` and `NoPassIsTheLast` 17 asks and a bid for all of them meet it. An order that a
  level had no room for is not traded until it is modified (`UnlistedStarves`).
- `MatchOutput` keeps 16 events. A match that reaches a 17th order loses reports (`OutputTruncatedIff`,
  `TradesCanGoUnreported`).
- Self-trade prevention loses its cancellation when 16 orders or more are ahead of the own order, although
  the instructions (`phase_1_instruction.md:438-445`) forbid dropping it. `SelfTradeIff` says when
  prevention triggers and `CancellationLostIff` when its cancellation is lost, both over the book before
  the call; `CancellationCanGoUnreported` is a run that loses it.
- `modify` puts the order back without matching it, so it can cross the book (`ModifyCrossesIff`,
  `ModifyCanCross`).
- `FlatOrderMap::insert` is documented to refuse duplicates, but accepts one that lies behind a
  tombstone (`FlatOrderMap.Insert`, `DuplicateBehindTombstone`). The book looks an id up first, so it
  never meets that case.
- An order of quantity zero that improves the best price makes the cached best price wrong
  (`OrderBook.Insert`, `OrderBook.Modify`, `BestPriceWithoutQuantity`).
- The histogram's comments put a sample of bucket i in [2^(i-1), 2^i); the code files [2^i, 2^(i+1))
  there, so percentiles can be low by a factor of 3.5 (`RepresentativeBounds`, `FactorIsTight`). At 100
  percent the result is the last bucket's value, not a maximum (`PercentileBoundIff`,
  `OneSampleAtHundred`).
- `dequeue` compares counters without regard to wrap-around (`EmptyTestWrapsIff`, `EmptyTestMisleads`).

## Model

| member | source | states |
|---|---|---|
| Bits.MaskIsModulo | engine/orderbook/FlatOrderMap.hpp:30-32 | Masking with a power of two minus one is the remainder modulo that power of two, for every number |
| FlatOrderMaps.ProbeReaches | engine/orderbook/FlatOrderMap.hpp:30-32 | One lap of probes from any key visits every slot |
| FlatOrderMaps.ProbeInjective | engine/orderbook/FlatOrderMap.hpp:30-32 | One lap of probes visits no slot twice |
| FlatOrderMaps.FreeSlotOnPath | engine/orderbook/FlatOrderMap.hpp:41-53 | Pigeonhole: while the map is smaller than the table, the probe of any key meets a free slot, whatever the tombstones |
| FlatOrderMaps.LiveKeysDistinct | engine/orderbook/FlatOrderMap.hpp:44-52 | In a table with clear probe paths no key is live in two slots |
| FlatOrderMaps.TakeSlot | engine/orderbook/FlatOrderMap.hpp:44-50 | Writing an absent key into the first free slot of its path, across tombstones and wrap-around, keeps all paths clear and adds exactly that entry |
| FlatOrderMaps.BurySlot | engine/orderbook/FlatOrderMap.hpp:84-87 | Burying a live slot under a tombstone keeps all paths clear and removes exactly its entry |
| FlatOrderMaps.RewriteSlot | engine/orderbook/OrderBook.cpp:98-99 | Writing a value through a found pointer changes exactly that entry |
| FlatOrderMaps.DuplicateBeyond | engine/orderbook/FlatOrderMap.hpp:46-51 | A free slot ahead of a present key means a tombstone is ahead of it, and taking that slot would break the table |
| FlatOrderMaps.FlatOrderMap.constructor | engine/orderbook/FlatOrderMap.hpp:35-37 | A new table of power-of-two capacity represents the empty map |
| FlatOrderMaps.FlatOrderMap.Find | engine/orderbook/FlatOrderMap.hpp:56-76 | Returns null exactly for absent keys, otherwise a pointer to the slot with the stored value |
| FlatOrderMaps.FlatOrderMap.Insert | engine/orderbook/FlatOrderMap.hpp:39-54 | Succeeds exactly for a legal key below half load that is absent or hidden behind a tombstone, and then only the first free slot of its path changes; an absent key is added to the map; in the hidden case the table stops being a map; failure changes nothing |
| FlatOrderMaps.FlatOrderMap.Erase | engine/orderbook/FlatOrderMap.hpp:78-91 | Removes the key from the map by one tombstone in its slot, and says whether it was there |
| FlatOrderMaps.FlatOrderMap.Write | engine/orderbook/OrderBook.cpp:99 | Changes one entry and no count |
| PriceLevels.PriceLevel.Push | engine/orderbook/OrderBook.hpp:41-45 | Appends the id unless 16 are listed, in which case nothing changes |
| PriceLevels.PriceLevel.Remove | engine/orderbook/OrderBook.hpp:47-57 | Removes the first occurrence of the id by shifting in place and keeps the order of the rest; the total is untouched |
| PriceLevels.RemoveFirstAt | engine/orderbook/OrderBook.hpp:47-57 | Removing the first occurrence leaves exactly what is before and after it |
| RestingOrders.OrdersSize | engine/orderbook/OrderBook.cpp:22-26 | The id map has one entry per live order |
| RestingOrders.FifoExact | engine/orderbook/OrderBook.hpp:29-31 | A FIFO list holds distinct live orders of its own side and price only |
| RestingOrders.FifoByArrival | engine/orderbook/OrderBook.hpp:41-45 | A FIFO list is in the order in which its orders arrived |
| RestingOrders.ListedExactlyOnce | engine/orderbook/OrderBook.hpp:41-45 | While no push was refused, every live order is in the list of its own level, exactly once, and in no other |
| RestingOrders.ListedTotal | engine/orderbook/OrderBook.cpp:28-30 | A level's listed quantities never exceed its total, and equal it when all orders are listed |
| RestingOrders.TotalPositive | engine/orderbook/OrderBook.cpp:29 | A level's total is non-zero exactly when a live order rests there |
| RestingOrders.BestByTotals | engine/orderbook/OrderBook.cpp:171-190 | The best bid is the highest price with a non-zero total or 0, and the best ask the lowest or MAX_PRICE+1, and nothing else is |
| RestingOrders.BestIsExtreme | engine/orderbook/OrderBook.cpp:171-190 | The best bid is the highest price of a live bid, or 0; the best ask is the lowest price of a live ask, or MAX_PRICE+1 |
| RestingOrders.RemoveViews | engine/orderbook/OrderBook.cpp:49-51 | A removal takes the order out of the id map, one total and one list; all else keeps its order |
| RestingOrders.RemoveFifoIds | engine/orderbook/OrderBook.cpp:50 | In terms of ids, a removal is the buffer's remove on the order's level, listed or not |
| RestingOrders.RemoveBest | engine/orderbook/OrderBook.cpp:53-58 | A removal moves a best price only if it emptied the best level, and never to a better price |
| RestingOrders.ShrinkViews | engine/orderbook/OrderBook.cpp:98-99 | A reduction lowers one order and one total and keeps the order's place |
| RestingOrders.ShrinkBest | engine/orderbook/OrderBook.cpp:98-99 | A reduction short of the full quantity moves no best price |
| RestingOrders.ModifyReinserts | engine/orderbook/OrderBook.cpp:76-88 | Modify never loses an order: putting it back at an in-range price succeeds even on a book at its order limit |
| RestingOrders.ModifyEffect | engine/orderbook/OrderBook.cpp:63-89 | A modified order keeps id, side and timestamp and becomes the youngest of its new level if the list has room; all other orders keep their places |
| RestingOrders.InsertEffect | engine/orderbook/OrderBook.cpp:18-38 | For every input: out of range exactly for prices outside 1 to 200000; refused exactly for a live or reserved id or a full book; otherwise the order joins map, total and, if fewer than 16 are listed, list; a failure changes nothing |
| RestingOrders.CancelEffect | engine/orderbook/OrderBook.cpp:40-61 | For every input: Ok exactly if the id is live; the id, and nothing else, leaves the map; its level loses its quantity and its id; an unknown id changes nothing |
| RestingOrders.ModifyOutcome | engine/orderbook/OrderBook.cpp:63-89 | For every input: out of range exactly for such a price, not found exactly for an unknown id at a good price, and both change nothing; otherwise the order keeps id, side and timestamp, leaves its level and joins the tail of its new one |
| RestingOrders.ReduceEffect | engine/orderbook/OrderBook.cpp:91-101 | For every input: Ok exactly if the id is live; the order and its level lose the quantity and it keeps its place, or it is removed if nothing would remain |
| RestingOrders.AppendBestExactIff | engine/orderbook/OrderBook.cpp:32-35 | On the abstract book: a best price moved to an added order's price is the best of the totals if and only if the order has quantity or did not beat it; Insert and Modify tie this to the cached fields |
| RestingOrders.DepthExact | engine/orderbook/OrderBook.cpp:121-144 | Depth lists strictly worsening prices with their totals and skips no non-empty level |
| RestingOrders.DepthStarts | engine/orderbook/OrderBook.cpp:124-126 | No non-empty level is ahead of the cached best price, so the scan may start there |
| OrderBooks.OrderBook.constructor | engine/orderbook/OrderBook.cpp:6-12 | A new book of power-of-two size is empty and its representation consistent |
| OrderBooks.OrderBook.Insert | engine/orderbook/OrderBook.cpp:18-38 | Result code and new book for every input, as InsertEffect says; keeps the representation consistent, except that with quantity zero the cached best price is the best of the totals if and only if the order did not beat it |
| OrderBooks.OrderBook.Cancel | engine/orderbook/OrderBook.cpp:40-61 | Keeps the representation consistent; result code, id map, lists and totals as CancelEffect says |
| OrderBooks.OrderBook.Modify | engine/orderbook/OrderBook.cpp:63-89 | Result code, id map, lists and totals as ModifyOutcome says; keeps the representation consistent, except that with quantity zero the cached best price is exact if and only if the new price did not beat the best of the other orders |
| OrderBooks.OrderBook.Reduce | engine/orderbook/OrderBook.cpp:91-101 | Keeps the representation consistent; result code, id map, lists and totals as ReduceEffect says |
| OrderBooks.OrderBook.UpdateBestBidFrom | engine/orderbook/OrderBook.cpp:171-180 | The downward scan finds the exact best bid if no level above its start has a total |
| OrderBooks.OrderBook.UpdateBestAskFrom | engine/orderbook/OrderBook.cpp:182-190 | The upward scan finds the exact best ask if no level up to its start has a total |
| OrderBooks.OrderBook.Detach | engine/orderbook/OrderBook.cpp:44-58 | The common part of cancel and modify takes one order out of level, map and best prices |
| OrderBooks.OrderBook.OrderIdsAt | engine/orderbook/OrderBook.cpp:112-115 | The ids at a price are the abstract FIFO list; out of range there are none |
| OrderBooks.OrderBook.QuantityAt | engine/orderbook/OrderBook.cpp:107-110 | The total at a price is the abstract total; out of range it is zero |
| OrderBooks.OrderBook.FindOrder | engine/orderbook/OrderBook.cpp:117-119 | Returns exactly the live order with that id, or none |
| OrderBooks.OrderBook.TopBids | engine/orderbook/OrderBook.cpp:121-132 | The first n entries of the bid depth, or all of it if it is shorter |
| OrderBooks.OrderBook.TopAsks | engine/orderbook/OrderBook.cpp:134-144 | The first n entries of the ask depth, or all of it if it is shorter |
| Matching.SelfTradeByParticipant | engine/matching/MatchingEngine.cpp:83-87 | Two orders self-trade exactly when their ids were made for the same participant, which is not 0; every id is made from one participant and one sequence number |
| Matching.TradedLevels | engine/orderbook/OrderBook.cpp:91-101 | Trading with the head of a list changes only that level: its total by the traded quantity, its list at the head |
| MatchingTheorems.MatchConserves | engine/matching/MatchingEngine.cpp:17-61 | Fills and remainder add up to the order's quantity; every opposite level loses exactly what traded at its price; the own side is untouched |
| MatchingTheorems.MatchIsWalk | engine/matching/MatchingEngine.cpp:19-64 | Unless it stalls, matching is a walk down the opposite side in best-price-then-FIFO order |
| MatchingTheorems.PriceTimePriority | engine/matching/MatchingEngine.cpp:19-64 | Fill i goes to the i-th order of that list at its price for the smaller of its quantity and what all orders ahead left; an order is filled exactly when they left something and no own order stands in the way |
| MatchingTheorems.WalkReached | engine/matching/MatchingEngine.cpp:37-61 | A walk fills exactly the orders whose predecessors do not exhaust it and include no own order |
| MatchingTheorems.WalkFills | engine/matching/MatchingEngine.cpp:57-60 | The size of each fill from the prefix sum of the list |
| MatchingTheorems.MatchResidue | engine/matching/MatchingEngine.cpp:57-60 | The final book is the initial one with each order reduced by what it gave up; places and flags of the rest are kept |
| MatchingTheorems.MatchBest | engine/matching/MatchingEngine.cpp:19-28 | Matching keeps the own best price, never improves the opposite one, and an uncrossed stop leaves nothing to trade with |
| MatchingTheorems.NoSelfTrade | engine/matching/MatchingEngine.cpp:50-55 | In any book, stalled or not, no fill pairs two ids with the same non-zero top 16 bits |
| MatchingTheorems.StallsIff | engine/matching/MatchingEngine.cpp:19-64 | Matching stalls, which by MatchPasses means that the loop never ends, if and only if some crossing level has unlisted orders, the order exceeds everything listed up to there, and none of that is its own |
| MatchingTheorems.StalledIsWalk | engine/matching/MatchingEngine.cpp:19-64 | A match that stalls first fills every listed order, in the same price-time order, down to a level where it stalls |
| MatchingTheorems.ListedNeverStalls | engine/matching/MatchingEngine.cpp:19-64 | A book whose orders are all listed never makes matching loop forever |
| MatchingTheorems.Turn | engine/matching/MatchingEngine.cpp:46-60 | One turn of the inner loop is one step of the rules, and the live list is the rest of the snapshot |
| Allocation.LadderMembers | engine/matching/MatchingEngine.cpp:19-34 | The list walked holds exactly the listed orders of the side down to its last price |
| Allocation.LadderExact | engine/matching/MatchingEngine.cpp:19-34 | It runs from better to worse prices and its ids are distinct live orders |
| Allocation.LadderCrosses | engine/matching/MatchingEngine.cpp:19-24 | The list walked holds exactly the listed orders of the other side priced at or inside the aggressor's limit |
| Allocation.LadderPriority | engine/matching/MatchingEngine.cpp:19-34 | It is in price-time order: better prices first, and at one price earlier arrivals first |
| Allocation.FinalOrders | engine/matching/MatchingEngine.cpp:57-60 | Order by order: each listed crossing order loses exactly its share or is gone; every other live order is unchanged |
| Allocation.SelfTradeOutcome | engine/matching/MatchingEngine.cpp:50-63 | On self-trade prevention all orders ahead of the own order are filled, it and those behind are untouched, and the aggressor does not rest |
| Allocation.SelfTradeIff | engine/matching/MatchingEngine.cpp:50-55 | From the book before the call: prevention triggers if and only if no level stalls the order and some own order on the ladder has no own order ahead of it and is reached with quantity left |
| Allocation.TraceExact | engine/matching/MatchingEngine.cpp:51-58 | The events pushed are, field by field, the fills in order under the aggressor's id, symbol and timestamp, then its cancellation exactly on self-trade prevention |
| Allocation.QuantityAccounted | engine/matching/MatchingEngine.cpp:17-72 | The order's quantity is what traded, plus what rests at its own price and side, plus what a result code reports as cancelled or rejected; when exactly each code is returned |
| Allocation.OutputTruncatedIff | engine/matching/MatchingEngine.hpp:31-43 | Events are lost if and only if there is a 17th order to walk to, the first 16 leave quantity, and none of them is the aggressor's own |
| Allocation.CancellationLostIff | engine/matching/MatchingEngine.hpp:31-43 | The cancellation that prevention pushes is not among the 16 events kept if and only if, in addition, that own order has 16 or more orders ahead of it |
| Allocation.NewOrderEffect | engine/matching/MatchingEngine.cpp:7-73 | Everything a new order does, said of the book before it: which trades and cancellation are reported, when exactly each result code is returned, what becomes of every live order, and what rests where |
| MatchingEngines.MatchOutput.Push | engine/matching/MatchingEngine.hpp:41-43 | The buffer always holds exactly the first 16 events pushed |
| MatchingEngines.MatchingEngine.Snapshot | engine/matching/MatchingEngine.cpp:30-34 | Copies the first 16 ids |
| MatchingEngines.MatchingEngine.SweepLevel | engine/matching/MatchingEngine.cpp:26-61 | One pass of the outer loop is a run of steps of the rules; it makes progress exactly if the level's list is not empty, and otherwise changes nothing |
| MatchingEngines.MatchingEngine.MatchOpposite | engine/matching/MatchingEngine.cpp:19-64 | The nested loops end and compute the whole match, with its full event trace |
| MatchingEngines.MatchingEngine.MatchPasses | engine/matching/MatchingEngine.cpp:19-64 | The outer loop after at most n passes, for any book and order: a stalled match is not done for any n, every other match is done and complete once n exceeds the quantity, and a stalled one has then reached the one state that it stays in |
| MatchingEngines.MatchingEngine.ProcessNewOrder | engine/matching/MatchingEngine.cpp:7-73 | Final book, result code and event trace of a new order for every book and order that does not stall |
| MatchingEngines.MatchingEngine.ProcessCancel | engine/matching/MatchingEngine.cpp:75-77 | Cancels in the book by order id: result code, map, lists and totals as CancelEffect says |
| MatchingEngines.MatchingEngine.ProcessModify | engine/matching/MatchingEngine.cpp:79-81 | Modifies in the book by order id, quantity zero included: result code, map, lists and totals as ModifyOutcome says |
| Runs.Apply | engine/runtime/SymbolRouter.cpp:24-35 | Every event keeps the book well-formed |
| Runs.UncrossedIff | engine/matching/MatchingEngine.cpp:19-24 | A book is uncrossed if and only if every live bid is priced below every live ask |
| Runs.NewOrderKeepsUncrossed | engine/matching/MatchingEngine.cpp:19-70 | A new order leaves an uncrossed book uncrossed however it ends |
| Runs.ModifyCrossesIff | engine/orderbook/OrderBook.cpp:63-89 | A modification crosses an uncrossed book if and only if the new price trades at the opposite best price |
| Runs.NeverCrossed | engine/matching/MatchingEngine.cpp:19-70 | After any run in which no modification crosses, the best bid is below the best ask |
| Runs.NeverCrossedWithoutModify | engine/matching/MatchingEngine.cpp:19-70 | New orders and cancellations alone never cross a book that starts empty |
| Runs.OrderLimit | engine/orderbook/FlatOrderMap.hpp:41 | No run exceeds the number of orders that the book was built for |
| Runs.ApplyKeepsListedIff | engine/orderbook/OrderBook.hpp:41-45 | From a book whose orders are all listed every event returns, and all orders stay listed if and only if the order that the event leaves in the book, if any, has room on its list |
| Runs.NeverHangs | engine/orderbook/OrderBook.hpp:41-45 | While no order comes to rest as the 17th listed one of its level, every event of a run returns and every live order is listed |
| Runs.MatchSparesUnlisted | engine/matching/MatchingEngine.cpp:19-64 | No match, stalled or not, trades with or changes an order whose push was refused |
| Runs.UnlistedStarves | engine/orderbook/OrderBook.hpp:41-45 | Over any run that does not cancel or modify it, an order whose push was refused is never traded and stays live and unchanged |
| Scenarios.EngineCanHang | engine/matching/MatchingEngine.cpp:19-64 | Seventeen asks at one price and a bid for all of them: the run stalls; NoPassIsTheLast says what that means for the loop |
| Scenarios.NoPassIsTheLast | engine/matching/MatchingEngine.cpp:19-64 | The same on the engine's classes: however many passes of the outer loop are run, the bid is not done |
| Scenarios.TradesCanGoUnreported | engine/matching/MatchingEngine.hpp:33-43 | A reachable book and a bid with 17 trades to report in a buffer of 16 |
| Scenarios.CancellationCanGoUnreported | engine/matching/MatchingEngine.hpp:33-43 | A reachable book and a bid whose self-trade cancellation comes 17th and is lost |
| Scenarios.ModifyCanCross | engine/orderbook/OrderBook.cpp:63-89 | A run of a bid, an ask and a modification after which the book is crossed |
| Scenarios.DuplicateBehindTombstone | engine/orderbook/FlatOrderMap.hpp:39-54 | Two inserts, an erase and an insert after which a key is in the table twice |
| Scenarios.BestPriceWithoutQuantity | engine/orderbook/OrderBook.cpp:63-89 | An insert and a modification to quantity zero after which the cached best bid is a price where nothing rests |
| SymbolRouters.RouterProjects | engine/runtime/SymbolRouter.cpp:16-36 | Each symbol's final book, counters and reports are those of its own events run through its pipeline alone |
| SymbolRouters.RouterHangsIff | engine/runtime/SymbolRouter.cpp:16-36 | The router is held up if and only if some symbol's own events hold up its own pipeline |
| SymbolRouters.PipeStepEffect | engine/runtime/SymbolRouter.cpp:20-35 | One event, by signal and kind: a dropped event changes a counter only; forwarded new orders, cancellations and modifications change the book as NewOrderEffect, CancelEffect and ModifyOutcome say; only new orders report; it never returns exactly for a forwarded new order that can stall |
| SymbolRouters.RouterStepEffect | engine/runtime/SymbolRouter.cpp:16-36 | The event has that effect on its own symbol's pipeline, none on any other, and none with an empty report for an unregistered id |
| SymbolRouters.StrategyEngine.Process | engine/strategy/StrategyEngine.cpp:13-18 | Answers as the strategy does and counts the answer |
| SymbolRouters.SymbolPipeline.Process | engine/runtime/SymbolRouter.cpp:20-35 | New state and output of one event, with the effect that PipeStepEffect says |
| SymbolRouters.SymbolRouter.RegisterSymbol | engine/runtime/SymbolRouter.cpp:5-14 | Adds an empty pipeline for a new id below 256; refuses all others and then changes nothing |
| SymbolRouters.SymbolRouter.Process | engine/runtime/SymbolRouter.cpp:16-36 | New state and output of one event, with the effect that RouterStepEffect says |
| SPSCQueues.SlotInjective | engine/queues/SPSCQueue.hpp:29 | Two counters in a window no longer than the capacity that share a masked slot are equal |
| SPSCQueues.SlotExclusion | engine/queues/SPSCQueue.hpp:48-67 | The producer never writes the slot that the consumer reads |
| SPSCQueues.ReadsOwnItem | engine/queues/SPSCQueue.hpp:63-67 | However stale the reader's view, its own item is the only write that it can get |
| SPSCQueues.StepKeepsInv | engine/queues/SPSCQueue.hpp:44-70 | Every memory access of either thread, with any stale counter, keeps the queue's invariant |
| SPSCQueues.FifoAlways | engine/queues/SPSCQueue.hpp:44-70 | In every state of every interleaving, dequeued items followed by pending items are the enqueued items in order, and at most capacity are pending |
| SPSCQueues.EnqueueOutcome | engine/queues/SPSCQueue.hpp:44-50 | In any interleaving an enqueue gives up exactly when capacity items are beyond the head that it saw; if it goes on there is room, and with a current view it gives up exactly when full |
| SPSCQueues.DequeueOutcome | engine/queues/SPSCQueue.hpp:59-65 | In any interleaving a dequeue gives up exactly when the tail that it saw shows nothing new; if it goes on an item is pending, and with a current view it gives up exactly when empty |
| SPSCQueues.DequeueTakesOldest | engine/queues/SPSCQueue.hpp:67-69 | Whatever a concurrent read may get, it is the oldest pending item |
| SPSCQueues.EnqueueFinishes | engine/queues/SPSCQueue.hpp:44-55 | Wherever the consumer stopped, a begun enqueue completes in three steps of its own and appends its item exactly if there is room |
| SPSCQueues.DequeueFinishes | engine/queues/SPSCQueue.hpp:59-70 | Wherever the producer stopped, a begun dequeue completes in three steps of its own and takes the oldest item exactly if there is one |
| SPSCQueues.EmptyTestWrapsIff | engine/queues/SPSCQueue.hpp:63 | The empty test is right if and only if no counter has lapped the other |
| SPSCQueues.EmptyTestMisleads | engine/queues/SPSCQueue.hpp:59-63 | After 2^64 - 1 items have passed and one more is enqueued, the counters as words are 2^64 - 1 and 0: the test says empty, though an item is pending |
| SPSCQueues.SPSCQueue.Enqueue | engine/queues/SPSCQueue.hpp:44-55 | Alone, appends the item or fails exactly when full, by legal steps of the state machine |
| SPSCQueues.SPSCQueue.Dequeue | engine/queues/SPSCQueue.hpp:59-70 | Alone, returns the oldest pending item or fails exactly when empty, by legal steps of the state machine |
| LatencyHistograms.BucketRange | benchmarks/LatencyHistogram.hpp:77-84 | A sample is in bucket i exactly when it is in [2^i, 2^(i+1)), or is zero and i is 0 |
| LatencyHistograms.RepresentativeBounds | benchmarks/LatencyHistogram.hpp:88-93 | A bucket's value is at most any of its samples (or 1) and at least two sevenths of it |
| LatencyHistograms.RepresentativeIs | benchmarks/LatencyHistogram.hpp:88-93 | In closed form, bucket i stands for 3 * 2^(i-2) - 1, and buckets 0 and 1 for 1 |
| LatencyHistograms.FactorIsTight | benchmarks/LatencyHistogram.hpp:88-93 | The factor two sevenths is attained |
| LatencyHistograms.RankExists | benchmarks/LatencyHistogram.hpp:54-60 | Every rank is taken by exactly one sample value |
| LatencyHistograms.BucketOfRank | benchmarks/LatencyHistogram.hpp:57-61 | The bucket where the running count passes a rank is the bucket of the exact sample of that rank |
| LatencyHistograms.PercentileAccuracy | benchmarks/LatencyHistogram.hpp:50-63 | Below 100 percent the result r and the sample x of the target rank satisfy r <= max(1, x) and 2x <= 7r; PercentileByCounts says which sample that is |
| LatencyHistograms.PercentileByCounts | benchmarks/LatencyHistogram.hpp:50-63 | Below 100 percent there is exactly one sample x with at most p percent of the samples below it and more than p percent at or below it; the result stands for its bucket, is at most max(1, x) and at least two sevenths of it |
| LatencyHistograms.PercentileMonotone | benchmarks/LatencyHistogram.hpp:50-63 | Percentiles are monotone, for all p |
| LatencyHistograms.PercentileBoundIff | benchmarks/LatencyHistogram.hpp:54-62 | The result is at most max(1, maximum) if and only if p is below 100 or some sample reaches the last bucket's value |
| LatencyHistograms.OneSampleAtHundred | benchmarks/LatencyHistogram.hpp:54-62 | After one sample of 1 the 100th percentile is 0x5FFFFFFFFFFFFFFF |
| LatencyHistograms.LatencyHistogram.Record | benchmarks/LatencyHistogram.hpp:24-33 | Adds one sample to bucket, total and maximum |
| LatencyHistograms.LatencyHistogram.Reset | benchmarks/LatencyHistogram.hpp:35-39 | Forgets all samples |
| LatencyHistograms.LatencyHistogram.Percentile | benchmarks/LatencyHistogram.hpp:50-63 | For every list of samples: 0 if empty, the last bucket's value from 100 percent up, and otherwise the value that stands for the bucket of the exact percentile |
| ConcurrentRecords.StepKeepsInv | benchmarks/LatencyHistogram.hpp:24-33 | Every atomic access of any thread keeps the accounting invariant and never lowers the maximum |
| ConcurrentRecords.MaxGrows | benchmarks/LatencyHistogram.hpp:28-32 | The maximum never decreases along an execution |
| ConcurrentRecords.RecordedExactly | benchmarks/LatencyHistogram.hpp:24-33 | The maximum is 0 or a started sample and covers every finished one; at rest every started sample has finished, buckets sum to the total and the maximum is exact |
| ConcurrentRecords.FinishesAlone | benchmarks/LatencyHistogram.hpp:24-33 | Wherever the other threads stopped, three steps of its own take a thread that has begun to record to the end of the call, its sample finished |

## Left out

- OrderBooks.OrderBook.constructor: capacities that are not powers of two, which the map's header excludes.
- OrderBooks.OrderBook.Insert: a precondition excludes level totals of 2^64 and more, which wrap in the code.
- OrderBooks.OrderBook.Modify: the same; and with it the engine's and the router's methods that call these two.
- Runs.Apply, SymbolRouters.SymbolRouter.Process: events that modify an order to quantity zero are excluded from runs; `OrderBook.Modify` says what one such call does.
- `tick_shift` above zero: the pipelines use zero, and for other values the upward scan can stop at a price that no order has.
- MatchingEngines.MatchingEngine.MatchOpposite: matches that never end are excluded by its precondition; `MatchPasses` covers them.
- MatchingEngines.MatchingEngine.ProcessNewOrder: calls that never end are excluded by its precondition; `MatchPasses` covers them.
- Code layout: the loop body and the shared parts of cancel and modify are methods of their own here.
- Prefetching, cache alignment and noexcept have no counterpart.
- SPSCQueue: counters are unbounded in the interleaving model; `EmptyTestWrapsIff` says when 64-bit ones behave alike.
- SPSCQueue: of the C++ memory model, stale counter loads and stale buffer reads are modelled, not reordering beyond them.
- LatencyHistograms.LatencyHistogram.Percentile: p is a real number, so floating-point rounding of the target rank is not modelled; negative p is excluded.
- LatencyHistogram: reset and percentile concurrent with recording, and counters that wrap.
- Event: the sequence and reserved words and the packing of type and side into one word.
- StrategyEngine: replacing the strategy and resetting the counters; a strategy is a function of the event.
- engine/memory, engine/replay, engine/persistence, engine/runtime apart from the router, dashboard, scripts: memory pools, file and database access, operating system calls and user interface.
