# A verified model of the limit order book exchange core

This project models the exchange core in Dafny and proves what it keeps: the matching engine with the order book,
price levels and object pool under it; the write-ahead journal; the single-producer single-consumer ring; the engine
loop with its risk gate; the wire codec; and the latency histogram. `dafny verify dfyconfig.toml` checks all of it.

## How it is built

Two layers, wherever the source works in place:

* **On the heap.** `Order` objects with `prev`/`next` links, `PriceLevel` queues threaded through them, ordered
  `LevelMap` sides, the `OrderBook` with its id index, cached best levels and pool, the `MatchingEngine` loop, the
  `Journal` with its 4096-byte buffer, `RiskChecker`, `RingBuffer`, `LatencyTracker` and `Engine` are classes whose
  methods follow the source statement by statement. Each is proved against a function of its abstract state.
* **On values.** `BookSpec` is the abstract book: per side one sequence of orders, best price first and first-come
  first-served within a price; `JournalSpec` is the log as records in blocks and their bytes; `EngineSpec` is one turn
  of the engine loop as a function; `RingBuffers.Ring` is the ring protocol as interleaved atomic steps. The theorems
  about whole runs are proved here, and hold of the classes because the classes refine these functions.

| file | what it holds |
|---|---|
| `Types`, `Sums`, `Powers`, `Sequences`, `Bytes` | machine integers, enums, orders and trades as values; sums, powers of two and remainders, concatenation, little-endian fields |
| `ObjectPool`, `PriceLevel`, `LevelMap`, `OrderBook`, `MatchingEngine`, `Exchange` | the book on the heap, bottom up |
| `BookSpec`, `Flatten`, `BookLaws`, `BookRuns`, `OrderStates` | the abstract book, how levels make it up, its laws, its runs, its order states |
| `JournalSpec`, `JournalLaws`, `Journal` | the log, its bytes and its reader; layout, flushes and arbitrary files; the class |
| `Codec` | messages and their lane-wise XOR checksum |
| `RingBuffer` | the SPSC protocol and the class |
| `Risk`, `EngineSpec`, `Engine`, `Rebuild`, `Recovery` | the gate, the loop, whole engine runs, rebuilding the book from the journal, recovery from the file |
| `LatencyTracker` | the log-scale histogram |

## Main results

1. **The pointers compute the greedy match.** `Matching.MatchingEngine.Match` leaves exactly the trades and the book
   of the price-then-time greedy match of the abstract book, whatever slots and links realise it; `Exchanges.Play` does
   so for every run of submit, add, cancel and modify. `BookLaws.GreedyAllocates` gives that match in closed form.
2. **Five structures, one book.** `OrderBooks.OrderBook.Valid`, kept by every operation, says that id index, level
   lists and the pool's live slots hold the same orders, that lists are acyclic with inverse links, that totals and
   cached best levels are right. An operation breaks it if and only if it brings an id into the book a second time
   (`Exchanges.Apply`), which is decided by the book before it (`BookLaws.StaysDistinctExactly`).
3. **Whole runs of the book** keep price-time priority, distinct ids and the quantity ledger (`BookRuns.RunKeeps`) and
   never cross the book (`BookRuns.NeverCrossed`); which single step would break either is characterised exactly
   (`BookRuns.StepKeepsIff`, `BookRuns.StepUncrossed`).
4. **The journal reads back.** After any run of writes and checkpoints the reader gets a prefix of what was written, and
   exactly the flushed part if and only if no flushed payload is over-long (`JournalSpec.ReplayAfterRun`). No block is closed
   that the next record would have fitted, but by a checkpoint or a payload no block can hold (`JournalLaws.BlocksPacked`).
5. **Replay determinism and crash recovery.** `Recovering.RunAndRecover` runs an engine, closes it or crashes it, between
   two orders or in the middle of one, reads its file back byte by byte and rebuilds a second pointer-level book. After a
   close it is the same book. After a crash it is the book after the least number of orders whose records cover what was
   flushed: every order up to the last accepted one whose number is a multiple of a thousand survives, and at most eighty
   accepted ones, what the buffer holds, are lost (`Rebuilding.CrashLoses`). The journal rebuilds the live book after every order of a run if and only if accepted
   orders come in unfilled (`Rebuilding.RebuiltThroughoutIff`).
6. **Position safety** after every single fill of every run (`EngineSpec.PositionSafe`, `EngineSpec.EveryFillSafe`).
7. **The ring refines a bounded FIFO queue** under every interleaving, with stale loads and 64-bit wrap-around
   (`RingBuffers.RunRefines`), and the two threads never hold the same slot (`RingBuffers.RaceFree`).
8. **Wire format and error detection.** `decode` takes exactly the sealed new orders (`Codec.DecodesExactly`). Every
   alteration within four consecutive field bytes is rejected (`Codec.WindowRejected`); an altered message is accepted
   exactly when the changes cancel in every lane (`Codec.AcceptedIff`).
9. **The histogram agrees with sorting** (`LatencyTrackers.ChosenHoldsRank`), and below 2^64 samples its scan never falls
   through, not even with `record` running between the two passes (`LatencyTrackers.ScanStops`).

## Where the code does less than one would like

Each is stated as a lemma with the exact condition; where an input is not obvious, another lemma gives one.

* A second order with a resting id overwrites the first one's index entry: the first can no longer be cancelled, and
  `size()` and `pool.used()` disagree (`OrderBooks.OrderBook.Lost`, ensured by `OrderBooks.OrderBook.Add`). Cached best levels
  and the index entries of all resting ids stay right (`OrderBooks.OrderBook.StandingIds`). The book stays
  consistent if and only if the id does not rest when the order does (`Exchanges.Apply`, `BookLaws.StaysDistinctExactly`;
  input: `BookRuns.SameIdTwice`).
* `add` does not match and can cross the book: exactly when it reaches the other side (`BookRuns.StepUncrossed`).
* The transition table in `include/order/order.hpp:10-14` is not what the code does. An incoming order that rests is
  PartFill, although it traded nothing exactly when it crosses nothing, and one that the quantity on offer takes whole goes
  from New to Filled at once (`OrderStates.AggressorState`, input: `OrderStates.UntradedPartFill`). So does a New passive
  order, exactly when the incoming order reaches it and has enough left for all of it after the orders before it
  (`OrderStates.PassiveState`, input: `OrderStates.NewToFilled`).
* The journal record of an order keeps its full quantity, so replayed into any book it does what the order did if and only if
  nothing of the order was filled (`Rebuilding.ReplaysItself`).
* Order value is computed modulo 2^64: it is the true value if and only if that fits (`Risk.NotionalIs`), so an order of
  price 2^32 and quantity 2^32 passes every value limit (`Risk.NotionalWraps`). The gate is otherwise exact
  (`Risk.PassesExactly`).
* A payload over 1024 bytes is written but ends the replay (`JournalSpec.ReplayAfterRun`, input: `JournalSpec.OverlongLost`).
* An order record that does not decode is skipped by the replay, but its slot stays taken (`Recovering.ReplayRecord`).
* A percentile whose rank rounds down to zero is answered with bucket zero whatever was recorded: right exactly when
  the smallest sample is below two ticks (`LatencyTrackers.RankZero`). A rank beyond the last sample is answered with zero
  (`LatencyTrackers.LatencyTracker.GetPercentile`). Records between the two passes can wrap the cumulative count so that the
  scan falls through (input: `LatencyTrackers.ScanFalls`); below 2^64 samples it never does (`LatencyTrackers.ScanStops`).
* `size` of the ring is too high by the pops its load of the head missed and too low by the pushes its load of the tail missed:
  exact if and only if it missed as many of one as of the other (`RingBuffers.SizeReports`; input: `RingBuffers.StaleSize`).
* The guard in `cancel` against orders already cancelled or filled is dead: `OrderBooks.OrderBook.Cancel` proves it.

## Model

| member | source | states |
|---|---|---|
| ObjectPool.Pool.constructor | include/core/memory.hpp:16-21 | all slots distinct, every one free |
| ObjectPool.Pool.Allocate | include/core/memory.hpp:31-39 | hands out the next slot of the free list, which was not live, in the state of a new order, and fails exactly when all are; the free suffix and the live set keep partitioning the slots |
| ObjectPool.Pool.Deallocate | include/core/memory.hpp:42-52 | the slot leaves the live set and is the next to be handed out, null is ignored |
| ObjectPool.Pool.Used | include/core/memory.hpp:58 | the number of live slots |
| ObjectPool.Pool.Available | include/core/memory.hpp:56 | the number of slots that are not live |
| PriceLevels.PriceLevel.PushBack | include/order/price_level.hpp:32-45 | the queue grows at its back; links stay inverse and acyclic, totals stay the sums modulo their widths |
| PriceLevels.PriceLevel.Remove | include/order/price_level.hpp:48-64 | any order leaves the queue, the others keep their order, its links are cleared, totals follow |
| PriceLevels.PriceLevel.Unlink | include/order/price_level.hpp:49-61 | the pointer half of removal for head, middle and tail alike |
| PriceLevels.PriceLevel.FillHead | src/engine/matching_engine.cpp:82-83 | a fill of the front order keeps the running total the sum |
| PriceLevels.PriceLevel.Empty | include/order/price_level.hpp:66-68 | a null head means an empty queue |
| LevelMaps.LevelMap.PushBack | src/order/order_book.cpp:47-53 | behind every order at least as good on that side; a new level appears only for a new price; a current best level stays best unless beaten |
| LevelMaps.LevelMap.EraseIfEmpty | src/order/order_book.cpp:90-92 | exactly an emptied level goes |
| LevelMaps.LevelMap.FlatHead | include/order/order_book.hpp:38-47 | `begin()` of the map is the level of the side's first order |
| Flattening.FlattenInsert | src/order/order_book.cpp:47-53 | pushing onto the level of a price is insertion in price-time order into the flattened side |
| OrderBooks.OrderBook.constructor | src/order/order_book.cpp:8-11 | the empty book, every structure consistent |
| OrderBooks.IndexKeptIff | src/order/order_book.cpp:45-60 | entering an order keeps the id index one-to-one if and only if the id is not in it; otherwise no id leads to the earlier order any more, and the index does not grow |
| OrderBooks.OrderBook.RefreshSide | src/order/order_book.cpp:13-23 | the incremental refresh: its cached level must not dangle, and changes only if beaten |
| OrderBooks.OrderBook.Refresh | src/order/order_book.cpp:25-28 | both cached levels are `begin()` again |
| OrderBooks.OrderBook.RestOn | src/order/order_book.cpp:59-71 | after the incremental refresh the cached level equals `begin()`, as a full refresh would give, whatever the id |
| OrderBooks.OrderBook.AddResting | src/order/order_book.cpp:59-71 | the abstract book gains the order in price-time order whatever its id; all structures agree if and only if the id was fresh, else the earlier order is lost to the index; the other side's cached level, which may dangle, is not read |
| OrderBooks.OrderBook.Add | src/order/order_book.cpp:30-57 | rests a new order, null exactly when the pool is full; its id then leads to it, both cached levels are `begin()` and the index holds the resting ids whatever the id; the book stays consistent if and only if it failed or the id was fresh, else the earlier order is lost to the index |
| OrderBooks.OrderBook.Cancel | src/order/order_book.cpp:73-109 | succeeds exactly when the id rests, removes exactly that order; the state guard is dead |
| OrderBooks.OrderBook.Modify | src/order/order_book.cpp:111-127 | succeeds exactly when the id rests: the cancel frees the slot the add takes; the id then leads to the new order, with its old price and side |
| OrderBooks.OrderBook.Size | include/order/order_book.hpp:35 | index size, number of resting orders and used slots are one number |
| OrderBooks.OrderBook.HasBest | include/order/order_book.hpp:23-24 | the cached level is there exactly when the side has orders, after an id has come in twice too |
| OrderBooks.OrderBook.GetBest | include/order/order_book.hpp:26-27 | the cached level carries the best price, its head is the first order of the side, after an id has come in twice too |
| OrderBooks.OrderBook.RestingIds | include/order/order_book.hpp:50 | the index holds exactly the ids that rest in the abstract book |
| OrderBooks.OrderBook.StandingIds | src/order/order_book.cpp:59-71 | after an id has come in twice too, the index holds exactly the ids that rest in the abstract book, each leading to a resting order with that id |
| OrderBooks.OrderBook.PopFront | src/engine/matching_engine.cpp:90-101 | a filled front order leaves level, index and pool, and its level if that was its last |
| Matching.MatchingEngine.FillBest | src/engine/matching_engine.cpp:66-102 | one round: the trade is with the first order of the opposite side, at its price, for the smaller quantity; either that order goes or the taker is done |
| Matching.MatchingEngine.Sweep | src/engine/matching_engine.cpp:40-103 | the loop terminates and has computed the greedy match; dangling cached levels are not read |
| Matching.MatchingEngine.Finish | src/engine/matching_engine.cpp:105-115 | the remainder rests as PartFill, or the slot is freed; for every id both cached levels are `begin()` and the index holds the resting ids, the id of a remainder leading to it with its timestamp; the book is consistent if and only if nothing rests or its id is free by then |
| Matching.MatchingEngine.Match | src/engine/matching_engine.cpp:32-117 | trades and final book are those of the greedy price-then-time match of the abstract book, whatever the id; for every id both cached levels are `begin()` and the index holds the resting ids, the id of a remainder leading to it with its timestamp; all structures agree on the book if and only if no id comes in twice |
| Matching.MatchingEngine.Submit | src/engine/matching_engine.cpp:8-25 | with the pool full the order is dropped, and only then; cached levels and index as for `match` |
| Matching.MatchingEngine.ProcessNewOrder | src/engine/matching_engine.cpp:7-26 | the same for a new limit order, which is stamped with the time it came in |
| Matching.MatchingEngine.ProcessCancelOrder | src/engine/matching_engine.cpp:28-30 | cancels exactly when the id rests |
| Exchanges.Apply | src/engine/matching_engine.cpp:7-30 | each operation on the heap is the abstract step, and leaves the book consistent if and only if it brings no id in twice |
| Exchanges.Play | src/order/order_book.cpp:30-127 | after every run of submits, adds, cancels and modifies up to the first that brings an id in twice, that one included, the heap holds the book of the abstract run; it is consistent if and only if none did, and then `pool.used() == size()` |
| BookLaws.GreedyAllocates | src/engine/matching_engine.cpp:40-103 | closed form of the match: exactly the orders reached trade, in list order, each for the smaller of its quantity and what those before it left; at most one trade per resting order |
| BookLaws.GreedyLeft | src/engine/matching_engine.cpp:40-113 | what is left of the taker is what exceeds the quantity on offer within its limit |
| BookLaws.FilledExactly | src/engine/matching_engine.cpp:85-89 | a resting order is filled if and only if it is reached with enough left for all of it |
| BookLaws.GreedyConserves | src/engine/matching_engine.cpp:80-83 | the taker's quantity is its trades plus what is left, the opposite side loses exactly the traded total |
| BookLaws.GreedyExhausts | src/engine/matching_engine.cpp:52-64 | what is left of the taker crosses nothing that is left |
| BookLaws.GreedyLeaves | src/engine/matching_engine.cpp:89-102 | filled orders are a prefix of the side, one trade each; only the next one may be filled in part, by the last trade |
| BookLaws.TradeQuality | src/engine/matching_engine.cpp:47-78 | trades are at the passive order's price, within the limit, prices only get worse, all but the last fill their order, and all are positive when no zero quantity rests |
| BookLaws.InsertPlace | src/order/order_book.cpp:59-71 | where a new order stands: behind all at least as good, ahead of all worse |
| BookLaws.AddPlaces | src/order/order_book.cpp:30-57 | a full pool leaves the book as it was; else the order, New and whole, stands on its own side behind all prices at least as good and ahead of all worse ones, the other side untouched |
| BookLaws.SubmitPlaces | src/engine/matching_engine.cpp:32-117 | a match trades with the other side only; what it leaves of the order rests on its own side in the same place, as PartFill, or that side is untouched |
| BookLaws.StaysDistinctExactly | src/engine/matching_engine.cpp:52-112 | what decides, before the match, whether an id comes in twice: the order exceeds the quantity on offer within its limit, and its id rests on its own side or, out of its limit, on the other |
| BookLaws.SubmitMovesNet | src/engine/matching_engine.cpp:80-113 | every unit of an order moves the net quantity of the book by one, traded or resting |
| BookLaws.CancelUndoesAdd | src/order/order_book.cpp:30-109 | add of a fresh id, then cancel, restores the book |
| BookLaws.ModifyMovesOne | src/order/order_book.cpp:111-127 | all other orders stay where they were; the modified one goes to the back of its price with its new quantity |
| BookRuns.SubmitKeeps | src/engine/matching_engine.cpp:32-117 | a match keeps priority order, distinct ids, open states, and the ledger |
| BookRuns.StepKeeps | src/order/order_book.cpp:30-127 | so does every operation that brings no id in twice |
| BookRuns.StepKeepsIff | src/order/order_book.cpp:30-127 | and only those do |
| BookRuns.SameIdTwice | src/order/order_book.cpp:45 | an input that brings an id in twice |
| BookRuns.RunKeeps | src/order/order_book.cpp:30-127 | over any run from the empty book: price-time priority by arrival, distinct ids, submitted = resting + 2 traded + cancelled, never more orders than slots |
| BookRuns.TradesFollowPriority | src/engine/matching_engine.cpp:47-78 | after any run, the trades of the next order are in priority order of the passive orders: better price first, earlier arrival first within a price |
| BookRuns.SubmitUncrossed | src/engine/matching_engine.cpp:52-64 | a match leaves no crossing orders |
| BookRuns.StepUncrossed | src/order/order_book.cpp:30-127 | a step keeps the book uncrossed if and only if it is not an add that reaches the other side |
| BookRuns.NeverCrossed | src/engine/matching_engine.cpp:52-64 | after any run of submits, cancels and modifies the best bid is strictly below the best ask |
| OrderStates.AggressorState | src/engine/matching_engine.cpp:105-112 | what exceeds the quantity on offer rests PartFill, untraded if and only if the order crosses nothing; from New, the final state is in the table if and only if something exceeds it |
| OrderStates.UntradedPartFill | src/engine/matching_engine.cpp:106-110 | an input: any order into the empty book rests PartFill without a trade |
| OrderStates.PassiveState | src/engine/matching_engine.cpp:85-87 | a match takes a resting order out of the table if and only if it is New, reached, and the orders before it leave enough for all of it |
| OrderStates.NewToFilled | src/engine/matching_engine.cpp:85-87 | an input for the step from New to Filled |
| JournalSpec.WriteAppends | src/persistence/journal.cpp:41-62 | a write adds exactly its record, numbered by its position, or nothing; flushes in between lose and move none |
| JournalSpec.CheckpointFlushes | src/persistence/journal.cpp:64-68 | everything written is flushed, nothing changes |
| JournalLaws.WriteFlushesIff | src/persistence/journal.cpp:41-62 | a write closes the block in the buffer if and only if there is one and the record, not empty, does not fit behind it (header 18 bytes, block 4096); it then adds its record unless the payload is empty or over 4078 bytes |
| JournalLaws.BlocksPacked | src/persistence/journal.cpp:41-68 | over any calls, every block not closed by a checkpoint or by a payload no block can hold was too full for the first record of the next |
| JournalLaws.RecordLayout | include/persistence/journal.hpp:11-16 | sequence number, timestamp, payload length and payload at their offsets, least significant byte first |
| JournalLaws.BlockLayout | src/persistence/journal.cpp:70-86 | a block has 4096 bytes: the records, then zeros |
| JournalLaws.RecordsLayout | src/persistence/journal.cpp:58-61 | every record of a block stands right behind those before it |
| Bytes.LittleEndianAt | src/persistence/journal.cpp:58-59 | byte i of a field is digit i of its value to the base 256 |
| JournalSpec.ScanReads | src/persistence/journal.cpp:110-129 | the reader finds the records of a zero-padded block from any record boundary on, up to the first over-long one |
| JournalLaws.BlockParses | src/persistence/journal.cpp:110-129 | every block whatever, from any position on, is some records of 1 to 1024 payload bytes and a tail at which the scan ends: too short for a header, of length zero, over 1024, or over the end of the block |
| JournalLaws.ScanEnds | src/persistence/journal.cpp:110-129 | of such a block the scan delivers exactly those records, and reports garbage if and only if the length at the tail is over 1024 |
| JournalLaws.ReplayIs | src/persistence/journal.cpp:103-137 | of any file whatever, the reader delivers the records of the first block and then those of the rest, unless the block ends in garbage or holds none; nothing of less than a block |
| JournalSpec.ReplayReads | src/persistence/journal.cpp:103-137 | reading flushed blocks, with zeros behind them, delivers the flushed records byte for byte, up to the first over-long payload |
| JournalSpec.RunWrites | src/persistence/journal.cpp:41-68 | after any calls, the log holds the acceptable payloads in call order, numbered from zero |
| JournalSpec.ReplayAfterRun | src/persistence/journal.cpp:41-137 | at any moment the reader gets a prefix; the missing suffix is what is buffered; all of the flushed part if and only if every payload in it is at most 1024 bytes; everything after a final checkpoint |
| JournalSpec.OverlongLost | src/persistence/journal.cpp:117-120 | an input: a payload of 1025 bytes, flushed and not read back |
| Journals.Journal.constructor | include/persistence/journal.hpp:20-30 | a fresh file and a zeroed buffer |
| Journals.Journal.FlushBuffer | src/persistence/journal.cpp:70-88 | appends one whole block to the file, and leaves a zeroed buffer |
| Journals.Journal.Checkpoint | src/persistence/journal.cpp:64-68 | never writes an empty block |
| Journals.Journal.Write | src/persistence/journal.cpp:41-62 | the bytes in buffer and file are those of the log after the write; when it flushes is the row of `WriteFlushesIff` |
| Journals.Journal.Close | src/persistence/journal.cpp:90-92 | nothing is left in the buffer |
| Journals.Journal.ReadBlock | src/persistence/journal.cpp:108-129 | the inner loop of the reader |
| Journals.Journal.Replay | src/persistence/journal.cpp:103-137 | the nested loops compute the reader function |
| Codec.CalculateChecksum | include/net/codec.hpp:44-49 | the loop computes, in each of four lanes, the XOR of every fourth byte |
| Codec.ChecksumLane0 | include/net/codec.hpp:44-49 | a byte at an offset that is a multiple of four is added to the checksum by exclusive or, unshifted |
| Codec.ChecksumLane1 | include/net/codec.hpp:44-49 | at an offset of 1 modulo 4, shifted left by 8 |
| Codec.ChecksumLane2 | include/net/codec.hpp:44-49 | at 2 modulo 4, by 16 |
| Codec.ChecksumLane3 | include/net/codec.hpp:44-49 | at 3 modulo 4, by 24 |
| Codec.OneByteInLane | include/net/codec.hpp:44-49 | messages that differ in one byte of a lane differ in its checksum |
| Codec.PutNewOrder | include/net/codec.hpp:51-65 | writes the message and nothing behind it, or nothing into a short buffer |
| Codec.PutTradeReport | include/net/codec.hpp:96-109 | likewise |
| Codec.NewOrderLayout | include/net/codec.hpp:19-65 | type 1, length 33, id, price in two's complement, quantity, side 0 or 1, order type 0 or 1 and checksum, each at its offset |
| Codec.TradeReportLayout | include/net/codec.hpp:30-109 | type 3, length 47, aggressive id, passive id, price in two's complement, quantity, timestamp and checksum, each at its offset |
| Codec.DecodeInto | include/net/codec.hpp:67-94 | fills the order exactly when the message is a new order with a good checksum, its timestamp and links untouched, and touches nothing otherwise |
| Codec.DecodesExactly | include/net/codec.hpp:67-94 | a message decodes if and only if it is of type 1, its length field lies within the buffer and its checksum holds; its fields are then those at the offsets of a new order, the order received is New with nothing filled, and a sell if the side byte is anything but 0 |
| Codec.TradeReportRejected | include/net/codec.hpp:81-93 | a trade report never decodes, whatever follows in the buffer |
| Codec.RoundTrip | include/net/codec.hpp:51-94 | decoding an encoded order gives back all its fields, whatever follows in the buffer |
| Codec.OrderRoundTrip | include/net/codec.hpp:51-94 | and the order itself when nothing of it is filled and it is New |
| Codec.AcceptedIff | include/net/codec.hpp:74-79 | a message altered in its field bytes is accepted if and only if the changes cancel in every lane |
| Codec.WindowRejected | include/net/codec.hpp:74-79 | every alteration within four consecutive field bytes is rejected |
| RingBuffers.MaskIsMod | include/core/ring_buffer.hpp:75 | masking with a power of two less one is the remainder |
| RingBuffers.SlotOfWrapped | include/core/ring_buffer.hpp:14-75 | wrapping an index at 2^64 does not change its slot |
| RingBuffers.PushRefusedExactly | include/core/ring_buffer.hpp:29-36 | a push is refused exactly when the loaded head leaves no room, which it can only do if it is the one already known; with a current view, exactly when the queue is full |
| RingBuffers.PopRefusedExactly | include/core/ring_buffer.hpp:48-54 | a pop is refused exactly when the loaded tail is its own head; with a current view, exactly when the queue is empty |
| RingBuffers.StepKeeps | include/core/ring_buffer.hpp:28-61 | every atomic step of either thread keeps the invariant |
| RingBuffers.NoSlotConflict | include/core/ring_buffer.hpp:38-56 | between check and publish, the two threads' slots differ |
| RingBuffers.RaceFree | include/core/ring_buffer.hpp:28-61 | the same in every reachable state |
| RingBuffers.RunRefines | include/core/ring_buffer.hpp:28-61 | every interleaving does what a FIFO queue bounded by the capacity could do, event by event |
| RingBuffers.PoppedIsPrefix | include/core/ring_buffer.hpp:28-61 | popped items are a prefix of the pushed ones, at most the capacity outstanding |
| RingBuffers.LoadsOrdered | include/core/ring_buffer.hpp:59-66 | release and acquire order the two loads of `size`: the tail loaded is never behind the head loaded |
| RingBuffers.SizeReports | include/core/ring_buffer.hpp:64-68 | on any thread, with stale loads: the queue length plus the pops missed less the pushes missed, modulo 2^64; exact if and only if these agree |
| RingBuffers.SizeForConsumer | include/core/ring_buffer.hpp:64-68 | on the consumer's thread: the queue length less the pushes missed |
| RingBuffers.SizeForProducer | include/core/ring_buffer.hpp:64-68 | on the producer's thread: the queue length plus the pops missed |
| RingBuffers.StaleSize | include/core/ring_buffer.hpp:64-68 | an input: an empty ring reported as one with nothing running between the loads |
| RingBuffers.RingBuffer.Push | include/core/ring_buffer.hpp:28-43 | run alone: the four steps of the protocol; appends, and fails exactly when full |
| RingBuffers.RingBuffer.Pop | include/core/ring_buffer.hpp:47-61 | run alone: takes the front, and fails exactly when empty |
| RingBuffers.RingBuffer.Size | include/core/ring_buffer.hpp:64-68 | run alone: the queue length |
| RingBuffers.RingBuffer.IsEmpty | include/core/ring_buffer.hpp:70-72 | run alone: whether the queue is empty |
| Risk.PassesExactly | include/engine/risk.hpp:28-47 | with headroom the gate admits exactly the orders that are small enough, whose value modulo 2^64 is, and whose complete fill stays in the band |
| Risk.PassesAlways | include/engine/risk.hpp:28-47 | for all limits and values: quantity and value modulo 2^64 within their caps, and the position congruent to the exact one modulo 2^64 in its band |
| Risk.MovedModulo | include/engine/risk.hpp:35-55 | the position moved to is the exact one modulo 2^64, plus for a buy and minus for a sell |
| Risk.NotionalIs | include/engine/risk.hpp:29 | the value checked is price times quantity modulo 2^64; it is the true value if and only if that is in the 64-bit range |
| Risk.NotionalWraps | include/engine/risk.hpp:29-33 | an input over every value limit that passes |
| Risk.FilledExact | include/engine/risk.hpp:50-55 | fills add up exactly while the total is in reach |
| Risk.FillsStayWithin | include/engine/risk.hpp:28-55 | an admitted order moves the position, fill by fill, only inside its band |
| Risk.RiskChecker.Check | include/engine/risk.hpp:28-47 | decides the gate and counts rejections |
| Risk.RiskChecker.OnFill | include/engine/risk.hpp:50-55 | moves the position by the signed quantity, in two's complement |
| EngineSpec.StepWrites | src/engine/engine.cpp:78-127 | an accepted order leaves its record and one per trade, in order; rejected and dropped ones leave nothing |
| EngineSpec.StepRecords | src/engine/engine.cpp:88-111 | the same in full: the records are numbered on from those before, each with the clock reading of its own write, the reports with the times of their trades |
| EngineSpec.CheckpointEveryThousand | src/engine/engine.cpp:124-127 | behind an accepted order whose number is a multiple of 1000 everything written is flushed; behind any other the log is what the writes alone leave; an order not accepted changes neither log nor count |
| Rebuilding.JournalRebuildsBook | src/engine/engine.cpp:78-101 | the records of any run rebuild exactly the live book, every order finding a slot |
| Rebuilding.PrefixRebuilds | src/engine/engine.cpp:78-127 | any prefix of the records rebuilds the book after the least number of orders whose records cover it |
| Rebuilding.StepFlushes | src/engine/engine.cpp:124-127 | a step takes nothing back that was flushed, and flushes everything behind an accepted order whose number is a multiple of 1000 |
| Rebuilding.CountsAccepted | src/engine/engine.cpp:125 | the number an accepted order gets is how many have been accepted, modulo 2^64 |
| Rebuilding.CheckpointDurable | src/engine/engine.cpp:124-127 | what was written when a checkpoint was due stays flushed for the rest of the run |
| Rebuilding.FlushedCovers | src/engine/engine.cpp:124-127 | after every order, all accepted orders but the last (count modulo 1000) are flushed in full |
| Rebuilding.LogAtHolds | src/engine/engine.cpp:94-127 | whenever a run ends, inside an order too, the journal holds the first records of the run, and nothing flushed is taken back |
| Rebuilding.PendingFew | src/persistence/journal.cpp:53-62 | the buffer never holds more than 80 records of the engine |
| Rebuilding.CrashLoses | src/engine/engine.cpp:94-127 | whenever a run ends, inside an order too: every order up to the last accepted one whose number is a multiple of 1000 survives, and of the accepted ones after it at most 80, and no more than that number modulo 1000, are lost |
| Rebuilding.Recovery | tests/day5/replay_test.cpp:63-92 | from the bytes of the file: whenever a run ends, inside an order too, the book after the orders that survive, the live book once closed |
| Rebuilding.ReplaysItself | include/net/codec.hpp:58-86 | replayed into any book with a free slot, the record of an order does what the order does if and only if nothing of it was filled |
| Rebuilding.RebuiltThroughoutIff | src/engine/engine.cpp:78-101 | at every moment of a run the journal rebuilds the live book, if and only if every accepted order comes in unfilled |
| EngineSpec.PositionSafe | src/engine/engine.cpp:78-105 | the position stays in its band after every order of every run |
| EngineSpec.EveryFillSafe | src/engine/engine.cpp:104-105 | and after every single fill |
| EngineSpec.EngineRuns | src/engine/engine.cpp:54-131 | engine runs that bring no id in twice are runs of the exchange: priority, ledger and uncrossed book hold of them |
| Engines.Engine.constructor | src/engine/engine.cpp:20-35 | empty book, fresh journal |
| Engines.Engine.Fill | src/engine/engine.cpp:104-111 | every trade moves the position and is journaled, in order |
| Engines.Engine.Account | src/engine/engine.cpp:125-130 | counts the order; behind one whose number is a multiple of 1000 everything written is flushed, behind any other the log stays |
| Engines.Engine.Step | src/engine/engine.cpp:68-130 | the body of the loop is the step function, whatever the id; both cached levels are `begin()` and the index holds the resting ids, the id of a remainder leading to it with its arrival time; the engine stays consistent if and only if the order, if accepted, brings no id in twice |
| Engines.Engine.Run | src/engine/engine.cpp:50-132 | the loop, on any orders up to the first accepted one that brings an id in twice, that one included; consistent at the end if and only if none did |
| Engines.Engine.Interrupted | src/engine/engine.cpp:78-111 | the body of the loop cut off after some of the trade reports |
| Engines.Engine.Close | src/persistence/journal.cpp:90-92 | flushes the journal and changes nothing else |
| Recovering.ReplayRecord | tests/day5/replay_test.cpp:71-82 | one record replayed into a pointer-level book; one that does not decode is skipped; consistent if and only if no slot leaks that way and no id comes in twice |
| Recovering.Recover | tests/day5/replay_test.cpp:63-82 | a book rebuilt from the bytes of a journal file, up to the first record that leaves it inconsistent, that one included; consistent if and only if none did |
| Recovering.RunReplayable | src/engine/engine.cpp:78-101 | whatever part of a run's journal was written, every order in it decodes, finds a slot and brings no id in twice |
| Recovering.RunAndRecover | tests/day5/replay_test.cpp:15-92 | live run, close or crash, inside an order too, recovery: the same book, or the one after the orders that survive: all up to the last accepted one whose number is a multiple of 1000, at most 80 accepted ones short |
| LatencyTrackers.BucketBounds | include/metrics/latency_tracker.hpp:31-40 | bucket b takes exactly the samples from 2^b to below 2^(b+1), zero counting as one |
| LatencyTrackers.ChosenHoldsRank | include/metrics/latency_tracker.hpp:83-97 | the bucket chosen for a rank is that of the sample at that rank in sorted order, so its lower bound is within a factor of two |
| LatencyTrackers.RankMonotone | include/metrics/latency_tracker.hpp:91-95 | a larger rank gets no smaller answer |
| LatencyTrackers.RankZero | include/metrics/latency_tracker.hpp:89-94 | rank zero is answered with bucket zero, right exactly when the smallest sample is below two |
| LatencyTrackers.ScanStops | include/metrics/latency_tracker.hpp:83-96 | with counters that only grew between the passes, and sum up to less than 2^64, the scan still stops, no later than without |
| LatencyTrackers.ScanFalls | include/metrics/latency_tracker.hpp:91-96 | an input that wraps the cumulative count, for which it stops nowhere |
| LatencyTrackers.LatencyTracker.Record | include/metrics/latency_tracker.hpp:31-43 | the counters are those of the samples so far |
| LatencyTrackers.LatencyTracker.Reset | include/metrics/latency_tracker.hpp:45-49 | and of no samples after a reset |
| LatencyTrackers.LatencyTracker.GetPercentile | include/metrics/latency_tracker.hpp:83-97 | the rank is the number of samples times the percentile, rounded down; the answer is the largest power of two not above the sample at that rank, a zero sample counting as one; zero if and only if nothing was recorded or the rank is beyond the last sample, so never for a percentile of recorded samples up to 1 |

## Left out

* Sockets, the HTTP server and dashboard, `main`, the market feed handler, `start`/`stop` and thread pinning: input,
  output and plumbing.
* Threads around the engine: the loop is sequential, and its input is the sequence of orders the inbound ring delivers.
  The ring itself is proved under its own contract of one producer and one consumer; `start` runs several producers on
  the inbound ring (`src/engine/engine.cpp:163`, `src/engine/engine.cpp:236`), which that contract does not cover.
* The order-entry thread takes a pool slot per message and does not return it on success
  (`src/engine/engine.cpp:234-238`); pool accounting here is that of the book and the engine loop.
* The outbound ring, the heartbeat, `session_.next_seq` and the latency sample in the engine loop: a failed push is
  ignored there, so nothing is claimed about delivery.
* Clocks: timestamps are arbitrary inputs (`Clock`), and so is the moment each is read.
* Real files: the file is a byte sequence that starts empty; `open`, direct I/O, preallocation beyond zeros behind the
  written part, reopening an existing file, and writes that fail or reach the disk in part are not part of this model.
* Floating point: `GetPercentile` takes the percentile as a real number, without rounding, and answers in ticks, without
  the conversion to nanoseconds; a negative percentile, or a rank beyond 64 bits, has no defined conversion in the source.
  `report` prints the same scan and is left out.
* The memory model: atomic loads may be stale but never go back, and a publication makes the writes before it visible;
  that the plain slot accesses do not race is what `RingBuffers.RaceFree` proves.
* `OrderType::Market`: carried, and ignored by the match, as in the source.
* What the book does after an id has come in twice, or a slot has leaked: every operation is proved up to and including the
  one that does it.
* Order of statements: an emptied level goes before the index entry and the slot of a filled order, where `match` erases
  it last; nothing reads the state in between. Assigning `level.price` again for an existing level is a no-op and not
  repeated.
* `Codec.Decode` needs a frame whose length field is at least 4 and within the buffer, and for a new order the 29 field
  bytes: the source reads outside its buffer otherwise.
* Signed overflow in `RiskChecker`: modelled as two's complement wrap-around, although the language leaves it undefined;
  the theorems about positions ask for limits with enough headroom that it does not occur.
* `RiskState.orders_sent` and `active_client_ids_`, which the source never uses.
