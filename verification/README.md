# Proofs about the market-data pipeline

A Dafny model of the path from a UDP payload to a printed best bid and offer, and of the lock-free parts it runs on:
IEX-TP framing, the cached single-producer single-consumer ring, the drain thread and its shutdown, the symbol table,
the bounded order book in both layouts, the dict-based reference replay, and the two pools that hand indices around.

The wire constants are those of the IEX Transport Specification v1.25 (segment header, message blocks) and the DEEP
Specification v1.08 (Price Level Update), the versions named in `test/docs/IEX_DEEP_프로토콜_정리.md:3`.

Verify everything with `dafny verify dfyconfig.toml`.

## Layout

| file | what it holds |
|---|---|
| `Wrappers.dfy`, `Sequences.dfy` | options; lists without repetition, sets of elements, counting, regrouping |
| `Words.dfy` | 64-bit words that wrap, and the slots they select in a power-of-two ring |
| `SpscProtocol.dfy` | the cached ring as two threads, one atomic access at a time, with stale acquire loads |
| `SpscQueue.dfy` | the cached and the uncached ring as objects |
| `Shutdown.dfy` | the Rx thread, the drain loop and the done flag, for any accumulator |
| `HandOver.dfy` | pool indices through the ring: the index and scatter variants |
| `FreeList.dfy` | the CAS free list, as an object and as an interleaved step system |
| `SymTab.dfy` | the open-addressing symbol table and "number keys by first appearance" |
| `Levels.dfy`, `Book.dfy`, `BookRuns.dfy` | one side as a value, the book set in place, whole runs |
| `Horizon.dfy` | exactly when a side that had to drop levels still shows the right best price |
| `BookRev.dfy` | the reversed layout and the side-by-side check |
| `Wire.dfy`, `Segments.dfy` | little-endian fields, the block walk, its inverse, cuts and size bounds |
| `Framer.dfy`, `FramerRuns.dfy` | the framer as an object writing into the ring, and its laws over runs |
| `Decode.dfy`, `PriceText.dfy` | the 30 bytes of an update; prices as text and back |
| `DumpText.dfy`, `Dump.dfy` | printf columns and `split`; the lines of the dump and what is read back from them |
| `DumpWalk.dfy` | the dump's own loop over the messages of a segment |
| `Reference.dfy` | the reference replay, from the lines of the dump on |
| `Desk.dfy`, `SymbolText.dfy` | the consumer as a function of the messages; symbols as printed words |
| `EndToEnd.dfy` | the consumer against the replay, and exactly when they print the same |
| `RxThread.dfy` | the Rx thread between datagrams, one ring access at a time |
| `Live.dfy`, `Offline.dfy` | the two-thread program and the offline program, both down to the printed rows |
| `LiveEnds.dfy` | for any datagrams, a run of the two-thread program that drops nothing and ends |
| `BboText.dfy`, `Verify.dfy` | the rows as the text that diff compares; the comparison script on any capture |

## Main results

* **End to end** (`Offline.MatchesReplay`, `Live.LiveRun`, `Verify.VerifyBbo`). For every capture, and for every
  interleaving of the live program that ends: if nothing was dropped at the queue, the rows printed are the rows of the
  dict replay of the same updates if and only if, at each row, both sides of its symbol show the dict's best
  (`EndToEnd.PrintsTheReplay`). They do as long as neither side has deleted 64 levels since it first dropped one
  (`EndToEnd.HorizonIsRight`), in particular while no dict outgrows 64 prices (`EndToEnd.FitIsWithin`). The input must
  have prices above -2^63 and at most 9216 symbols that print as one word of characters from `!` to `~`, which tells
  them apart; space-padded symbols of such characters do (`SymbolText.PaddedTellApart`).
* **The comparison script** (`Verify.VerifyBbo`). Program and dump both start from the capture. The dump walks it by a
  loop of its own and lists the very updates that the framer finds (`Verify.CaptureUpdates`), the replay reads them back
  from its text (`Dump.DumpReads`), and diff compares two files (`BboText.FilesTellApart`). It reports a match iff every
  row due shows two right sides and no update is shorter than 30 bytes. Every list of updates is that of a capture
  (`Verify.Captured`), and on the capture of 65 levels and 64 deletes the script reports a mismatch
  (`Verify.DrainDiffers`).
* **Live equals offline** (`Live.LiveIsOffline`). Whatever the timing, if neither program drops an update of the same
  datagrams, both leave the same symbol table, books, rows and counters.
* **The ring** (`SpscProtocol.Safety`, `RefinesFifo`, `SecondLookAtHead`, `SecondLookAtTail`, `PushAlone`, `PopAlone`).
  Every interleaving, with indices that wrap at 2^64 and acquire loads that may return any value the index held since it
  was last seen. Each look at the indices lends a slot iff the indices then known leave room, or a message; with current
  loads that is iff there is room, or a message. No step is ever impossible where a thread stands (`NeverStuck`).
* **Shutdown** (`Shutdown.ShutdownComplete`, `CanFinish`, `LastRounds`). When the drain thread leaves its loop it has
  processed everything; from every reachable state in which the Rx thread is done it can leave; and with nothing left it
  does so in five accesses. For any datagrams the whole program has a run that drops nothing and ends
  (`LiveEnds.CanEnd`), with the desk of the offline program (`LiveEnds.CanMatchOffline`).
* **The bounded book** (`BookRuns.BooksAreDicts`, `OverflowCounts`, `Horizon.RightThroughout`, `HorizonExact`). Exact
  until the first overflow. After it, the best price stays right exactly until an update takes the best level away while
  the array lacks a price that comes next; and k deletes since the first drop are safe on every run iff k < 64, on both
  sides.
* **The mirrored book** (`BookRev.RevApply`, `TwinCheck`).
* **The counters** (`BookRuns.CountersAreKinds`, `CountersAreFates`, `FramerRuns.CountersOnRun`, `Live.TallyCounts`). Over every run each one
  is the number of updates, datagrams or messages that the source says it counts, told from the prices held before the
  update and from the bytes received.
* **The framer** (`Segments.FramingRoundTrip`, `CutRoundTrip`, `FramerRuns.SequenceAccounting`, `GapFlag`, `DropsOnRun`).
* **The pools** (`HandOver.HandOverSafe`, `FreeList.PoolSafe`, `NullIffEmpty`, `StepEffect`). alloc answers NULL exactly
  where the list is empty.
* **Down to the character.** The fields by their bytes (`Wire.HeaderBytes`, `Decode.PluLayout`), the digits of numbers and
  prices (`DumpText.IntDigits`, `PriceText.FixedDigits`), the characters of a symbol (`SymbolText.TextAt`), the columns of
  a row (`BboText.RowColumns`) and of a line of the dump (`Dump.UpdateWords`).

Where the code and its comments differ, the model follows the code.

* `src/book/book.c:58` says that dropping the worst level does not affect the best bid and offer. That holds at that
  moment. Later on it holds through an update iff that update does not uncover a lost price (`Horizon.FrontGoesWrong`);
  `Horizon.HorizonIsSharp` is a run on which the array ends up empty while an unbounded book still has a price.
* `src/book/book_offline.c:213` expects no drops because a segment has fewer updates than the queue has slots. The updates
  dropped are exactly those beyond 1024 of a segment, so dropped_full is 0 iff no segment has more
  (`FramerRuns.DropsOnRun`). Below 32840 bytes none has (`NoDrop`); at 32840 one can (`NoDropIsSharp`).
* `include/ll/symtab.h:49-50` says that the key 0 does not occur and so cannot collide. The framer lets an update with an
  all-zero symbol through; the table then answers index 0 and stores nothing, and the model does the same
  (`SymTab.Table.Intern`). Two keys share an index iff one is 0 and the other the first symbol (`SymTab.SharedIndex`), as
  they do after one call each (`SymTab.ZeroCollides`), and then both go to one book (`Desk.ZeroSharesBook`). The
  comparison with the replay excludes it.
* `src/net/rx_stage.c:79` takes a negative expected number for "no segment yet". `FramerRuns.SequenceAccounting` says what
  the counters then miss, `FramerRuns.JumpUnseen` that they miss any jump after a segment that ends below 0, and
  `FramerRuns.SixUnseen` is a run on which six missing messages go uncounted.
* `test/book/bbo_reference.py:44` takes the columns of an update's line as fixed. On the line of an update shorter than 30
  bytes, which the framer filters out, the script stops (`Dump.ShortFails`); it gets through a dump iff there is none
  (`Dump.DumpReads`).

## Model

| member | source | states |
|---|---|---|
| SpscProtocol.Safety | include/ll/spsc_queue_cached.h:39-117 | on every interleaving what was consumed is a prefix of what was committed, the rest is in the ring in order and within CAPACITY, both sides never hold the same slot, a reader keeps seeing the oldest message |
| SpscProtocol.RefinesFifo | include/ll/spsc_queue_cached.h:81-117 | only commit and pop_end are visible: they append the borrowed slot to, and take the oldest message off, a bounded FIFO; a borrow without commit has no effect |
| SpscProtocol.AnswersAgree | include/ll/spsc_queue_cached.h:39-68 | of the two conditions themselves: with current loads those of the cached and of the uncached queue are what unbounded counters would say, across the wrap; with stale loads the cached ones err only towards full and empty |
| SpscProtocol.AnswersAreSteps | include/ll/spsc_queue_cached.h:81-110 | and these conditions are the answers of the step system: the slot is lent at the first look or at the second |
| SpscProtocol.FirstLook | include/ll/spsc_queue_cached.h:82-83 | the step that compares with the cached index lends the slot iff the index as last seen leaves room, or has a message, and goes on to the load otherwise |
| SpscProtocol.SecondLookAtHead | include/ll/spsc_queue_cached.h:84-90 | the step that loads head lends the slot iff the head so seen leaves room and refuses otherwise; with the current head, iff fewer than CAPACITY messages are in flight |
| SpscProtocol.SecondLookAtTail | include/ll/spsc_queue_cached.h:103-109 | the step that loads tail lends a message iff the tail so seen has one; with the current tail, iff there is one |
| SpscProtocol.HeldSinceMeans | include/ll/spsc_queue_cached.h:84-85 | across the wrap a load may return exactly the values the index has had since it was last seen |
| SpscProtocol.NeverStuck | include/ll/spsc_queue_cached.h:39-117 | wherever a side stands, its next access is possible, with any value that its load may return |
| SpscProtocol.PushAlone | include/ll/spsc_queue_cached.h:81-97 | from any reachable state a push with current loads gets the slot iff there is room, all its steps are possible, and its message is then the newest; a borrow given up leaves no trace |
| SpscProtocol.PopAlone | include/ll/spsc_queue_cached.h:100-117 | a pop gets the oldest message iff there is one, all its steps are possible, and that message is then gone; without pop_end it stays |
| SpscProtocol.InFlightContents | include/ll/spsc_queue_cached.h:49-50 | the slots selected by masked, wrapped indices between head and tail hold the committed, unconsumed messages |
| SpscQueue.CachedQueue.constructor | include/ll/spsc_queue_cached.h:31-36 | an initialised queue is empty, whatever its buffer holds |
| SpscQueue.CachedQueue.PushBegin | include/ll/spsc_queue_cached.h:81-91 | lends the slot at tail iff fewer than CAPACITY messages wait; contents unchanged |
| SpscQueue.CachedQueue.Write | include/ll/spsc_queue_cached.h:71-73 | storing through a borrowed slot changes no message in the queue |
| SpscQueue.CachedQueue.PushCommit | include/ll/spsc_queue_cached.h:94-97 | appends exactly what the borrowed slot holds |
| SpscQueue.CachedQueue.Push | include/ll/spsc_queue_cached.h:39-52 | appends the item iff there is room, and says so |
| SpscQueue.CachedQueue.PopBegin | include/ll/spsc_queue_cached.h:100-110 | lends the slot with the oldest message iff there is one; contents unchanged |
| SpscQueue.CachedQueue.PopEnd | include/ll/spsc_queue_cached.h:114-117 | removes exactly the oldest message |
| SpscQueue.CachedQueue.Pop | include/ll/spsc_queue_cached.h:55-68 | returns and removes the oldest message iff there is one; otherwise leaves the caller's item alone |
| SpscQueue.PaddedQueue.Push | include/ll/spsc_queue_padded.h:33-42 | the uncached push, against the same contents |
| SpscQueue.PaddedQueue.Pop | include/ll/spsc_queue_padded.h:45-54 | the uncached pop, against the same contents |
| SpscQueue.QueuesAgree | include/ll/spsc_queue_padded.h:31-54 | for every sequence of calls both queues give the answers and items of a FIFO with CAPACITY places |
| Shutdown.ShutdownComplete | src/net/rx_main.c:100-144 | on every interleaving the drain thread has folded a prefix of the committed messages; once it has left its loop, all of them, each passed by the Rx filter |
| Shutdown.PollFinds | src/net/rx_main.c:105-109 | a pop_begin whose cached tail shows a message leads to work at its first call and back to the top at its second; else it goes on to load tail |
| Shutdown.PollLoadFinds | src/net/rx_main.c:105-110 | with the current tail the first call leads to work or to the flag, the second to the top or out of the loop, each by whether a message is left |
| Shutdown.FlagDecides | src/net/rx_main.c:107-113 | the flag may read 0 at any time and 1 once it is set; 1 leads to the second call, 0 to the top |
| Shutdown.ProcessTakes | src/net/rx_main.c:116-143 | work takes exactly the oldest message off the queue, counts it, and returns to the top |
| Shutdown.DrainExits | src/net/rx_main.c:107-109 | after the flag was seen, a second look that finds nothing ends the loop |
| Shutdown.DrainNeverStuck | src/net/rx_main.c:104-142 | wherever the drain thread stands in its loop it can go on, with any tail its load may return |
| Shutdown.GoesOn | src/net/rx_main.c:104-142 | once the Rx thread is done, each event with current loads leaves fewer messages or comes nearer to the exit |
| Shutdown.CanFinish | src/net/rx_main.c:104-142 | so from every reachable state with the Rx thread done, some events lead out of the loop |
| Shutdown.LastRounds | src/net/rx_main.c:104-112 | with the Rx thread done and nothing left, look, load, flag, look, load lead from the top out of the loop |
| Live.TallyCounts | src/net/rx_main.c:119-126 | popped, buy, sell, deletes and after_gap are the numbers of messages, of those with type byte `8`, with `5`, of size 0, and with the gap flag; the rest is `other` |
| Live.TallyAll | src/net/rx_main.c:124 | over filtered messages `other` stays 0 |
| Live.RxNeverStuck | src/net/rx_stage.c:100-141 | until it is done the Rx thread can always go on: with a datagram or the end between segments, with the next access for the next update within one |
| RxThread.EnteredFramed | src/net/rx_stage.c:56-142 | what a segment does splits into a part that the queue has no influence on and one decision per update |
| RxThread.SegmentDone | src/net/rx_stage.c:119-142 | with all updates of its segment handled, the thread has committed exactly what the framer pushes of everything received |
| RxThread.DecidedWhen | src/net/rx_stage.c:120-139 | an update is pushed at its commit, and dropped exactly at a second look that finds no room: with the current head, iff the ring is full |
| Live.PushedArePlus | src/net/rx_stage.c:110-117 | only Buy and Sell updates ever cross the queue |
| Live.LiveRun | src/net/rx_main.c:207-254 | for any datagrams and every interleaving, when the program ends popped == pushed and other == 0, buy and sell are the numbers of messages of their type, the messages are what the framer pushes of the datagrams (all updates if dropped_full is 0), books and rows are those of one pass over them, and the rows are the replay's iff every row due shows two right sides |
| Live.OnlyPayloadsMatter | src/net/rx_main.c:128-141 | receive times and gap flags leave no trace in books and rows |
| Live.LiveIsOffline | src/book/book_offline.c:12-14 | if neither drops an update, the live run ends with the symbol table, books, rows and counters of the offline run on the same datagrams |
| LiveEnds.CanEnd | src/net/rx_main.c:206-211 | for any datagrams there is a run of the two threads that receives them, drops nothing, and ends |
| LiveEnds.CanMatchOffline | src/book/book_offline.c:12-14 | so for all datagrams the offline program takes in whole, some live run ends with its very desk |
| HandOver.StrideCancels | test/bench/slot_vs_index.c:58-60 | 5 and a power of two share no factor: a stride that comes back to a multiple of the pool does so only after a multiple of the pool |
| HandOver.PoolIndexInjective | test/bench/slot_vs_index.c:129-132 | items less than CAP apart never share a pool entry, also where i * 5 wraps at 2^64 |
| HandOver.PoolPlaces | test/bench/slot_vs_index.c:128-132 | as the counter wraps at 2^64, item i still lives at i modulo the capacity, or at 5 * i modulo eight times the capacity |
| HandOver.HandOverSafe | test/bench/slot_vs_index.c:134-201 | on every interleaving the consumer reads for item i what was filled in for item i, and the entry being filled is never the one being read |
| HandOver.ItemFilled | test/bench/slot_vs_index.c:155-160 | a producer that has a slot can fill its item's pool entry and write the index into the slot; then the slot can be committed |
| HandOver.ItemSent | test/bench/slot_vs_index.c:138-161 | the commit sends exactly that index and moves on to the next item |
| HandOver.ItemTaken | test/bench/slot_vs_index.c:190-196 | a consumer that has a slot can read through it, gets the next item, and gives the slot back |
| FreeList.Pool.constructor | include/ll/mempool_freelist.h:31-38 | links the slots in ascending order |
| FreeList.Pool.Alloc | include/ll/mempool_freelist.h:41-54 | hands out the first free slot, or NULL from an empty list, however often the weak CAS fails for no reason |
| FreeList.Pool.Free | include/ll/mempool_freelist.h:56-66 | puts the slot first |
| FreeList.PoolSafe | include/ll/mempool_freelist.h:41-66 | with one allocating and any number of freeing threads the reachable slots form an acyclic list, and free, owned and being-freed slots partition the pool |
| FreeList.StepEffect | include/ll/mempool_freelist.h:41-66 | a slot handed out was free and first, a finished free puts its slot first, no other step changes the list |
| FreeList.NullIffEmpty | include/ll/mempool_freelist.h:42-53 | in every reachable state an alloc that starts or fails its CAS returns NULL iff the list is empty at that access |
| FreeList.FreeingStep | include/ll/mempool_freelist.h:59-65 | a free finishes exactly at a CAS that finds the head it stored, and is not spurious; else it goes on with the head it found |
| FreeList.NeverStuck | include/ll/mempool_freelist.h:41-66 | no thread is ever stuck, and none reads or writes beyond the pool |
| FreeList.AllocAlone | include/ll/mempool_freelist.h:41-54 | an alloc without interference returns the first free slot, or NULL iff there is none |
| FreeList.FreeAlone | include/ll/mempool_freelist.h:56-66 | a free without interference finishes and puts its slot first |
| SymTab.SymHash | src/deep/symtab.c:13-15 | the hash is a slot number |
| SymTab.HashIsTopBits | src/deep/symtab.c:13-15 | it is the top 14 bits of the wrapped product with the constant |
| SymTab.NamesDistinct | src/deep/symtab.c:17-45 | over every call sequence no key gets two indices and at most 9216 are given |
| SymTab.NamesCount | src/deep/symtab.c:29-33 | the table holds as many keys as non-zero ones were seen, up to 9216 |
| SymTab.NamesGrow | src/deep/symtab.c:33-37 | indices are stable: later calls only append |
| SymTab.NumberedByFirstAppearance | src/deep/symtab.c:17-45 | a symbol's index is for ever the number of distinct symbols before its first appearance, and none if that is 9216 or more |
| SymTab.AnswerStays | src/deep/symtab.c:17-45 | what a call answered is what the table answers for that key ever after, refusals and key 0 included |
| SymTab.SharedIndex | include/ll/symtab.h:49-50 | for every call sequence two keys that have an index share it iff one is the key 0 and the other the first symbol |
| SymTab.ZeroCollides | include/ll/symtab.h:49-50 | a symbol, then the key 0: both calls answer 0 |
| SymTab.Table.constructor | src/deep/symtab.c:3-5 | an initialised table has no names |
| SymTab.Table.SomeEmpty | src/deep/symtab.c:42-44 | 9216 < 16384 leaves an empty slot, so no search goes all the way round |
| SymTab.Table.Absent | src/deep/symtab.c:26-28 | an empty slot on the way proves the key is nowhere in the table |
| SymTab.Table.Search | src/deep/symtab.c:18-40 | the loop ends at the first slot on the way that has the key or is empty; it never goes all the way round |
| SymTab.Table.Miss | src/deep/symtab.c:26-38 | at an empty slot a symbol is refused and counted if the table is full, and gets the next index if not |
| SymTab.Table.Claim | src/deep/symtab.c:33-37 | a new key takes the next index and can be found from then on |
| SymTab.Table.Intern | src/deep/symtab.c:17-45 | for any hash into the slots and any key the answer and the names are those of numbering by first appearance; known keys resolve in a full table; full_drops counts the refusals; key 0 is told 0 and leaves no trace |
| Levels.CutUnique | src/book/book.c:29-35 | the search index is where the run of better levels ends |
| Levels.ApplyOk | src/book/book.c:30-66 | each update leaves at most 64 levels, strictly best first, with positive sizes |
| Levels.ApplyWithin | src/book/book.c:30-66 | overflow or not, every stored level carries the size of the unbounded dict |
| Levels.ApplyRepresents | src/book/book.c:30-66 | without overflow the array stays exactly the dict, in order |
| Levels.OverflowIff | src/book/book.c:51-59 | the overflow branch is taken iff the dict then has more than 64 prices |
| Levels.RepresentsBest | src/book/book.c:74-83 | index 0 is the dict's max (bids) or min (asks), and the array is empty iff the dict is |
| Levels.BestMeans | test/book/bbo_reference.py:59-60 | the best bid is the greatest price, the best ask the least |
| Levels.OkMeans | src/book/book.c:21-26 | a side in order has falling bids or rising asks, none twice, at most 64, no size 0 |
| Levels.Canonical | src/book/book.c:15-72 | the array is determined by the dict |
| Levels.RunRepresents | src/book/book.c:15-72 | over every run that fits, the array is the dict's entries best first |
| Book.BookSet.constructor | src/book/book.c:5-13 | from zeroed memory all sides are empty and all counters 0 |
| Book.BookSet.Search | src/book/book.c:26-35 | the sign trick's one loop finds the cut on both sides |
| Book.BookSet.Memmove | src/book/book.c:44-60 | an overlapping move reads the old contents |
| Book.BookSet.Remove | src/book/book.c:44-45 | takes out one level and no other, on one side and no other |
| Book.BookSet.Insert | src/book/book.c:58-64 | puts one level in, after dropping the worst if told to |
| Book.BookSet.Delete | src/book/book.c:37-46 | the size-0 branch, with the counters of both outcomes |
| Book.BookSet.Add | src/book/book.c:51-65 | the new-price branch: insert, evict or reject, with the counters of each |
| Book.BookSet.Apply | src/book/book.c:15-72 | the whole book set afterwards: one side changed as specified, all others untouched, all counters |
| Book.BookSet.BestBidOffer | src/book/book.c:74-83 | the front of both sides, zeros for an absent side |
| BookRuns.SidesIndependent | src/book/book.c:15-72 | a side depends only on the updates of its own symbol and side |
| BookRuns.BooksAreDicts | src/book/book.c:15-83 | over every run on which its dict fits, a side is that dict best first and its front the dict's best |
| BookRuns.OverflowCounts | include/ll/book.h:62 | the overflow counter is 0 iff no side's dict ever had more than 64 prices |
| BookRuns.Conservation | include/ll/book.h:58-64 | over every run the levels held are applied - updated - 2 deleted - delete_missing - overflow |
| BookRuns.CountersAddUp | include/ll/book.h:58-64 | every update is applied, an overflow is a refusal or an eviction, and the levels held are inserted - deleted - evicted |
| BookRuns.KindOfUpdate | src/book/book.c:37-66 | told by whether the price was held: deleted, delete_missing, updated, inserted and overflow each grow in exactly the case the source names, by one |
| BookRuns.CountersAreKinds | include/ll/book.h:58-64 | over every run, overflow or not, each counter is the number of updates of its kind, told by the prices on the side when they came |
| BookRuns.CountersAreFates | include/ll/book.h:58-64 | over every run that fits each counter is the number of updates of its kind, told from the dicts before them |
| BookRuns.BboIsBest | src/book/book.c:74-83 | after every run that fits, the best bid and offer are best price and size of each dict, or 0 and 0 with the flag down |
| BookRuns.MaxDepthBounds | src/book/book.c:69-71 | max_depth bounds every depth any side ever had |
| BookRuns.MaxDepthReached | src/book/book.c:69-71 | and some side has had it |
| Horizon.BestSurvives | src/book/book.c:51-66 | levels better than every price ever dropped number at least 64 minus the deletes since; while those are fewer than 64 the best price and size are the dict's |
| Horizon.FrontRight | src/book/book.c:74-83 | the front is the dict's best iff the array lost no better price |
| Horizon.FrontGoesWrong | src/book/book.c:37-46 | where the front is right, an update makes it wrong iff it deletes the best level while a lost price comes before the next one |
| Horizon.RightThroughout | src/book/book.c:15-83 | over whole runs the front is right at every point iff no update does that |
| Horizon.DroppedIsLost | src/book/book.c:51-59 | a price counts as dropped iff some change made the array lose it while the dict kept it |
| Horizon.DroppedIffFull | src/book/book.c:51-59 | that has happened iff the dict has had more than 64 prices |
| Horizon.DeletesAreLate | src/book/book.c:37-46 | the deletes counted are those that took a level out of the array after the dict had outgrown it |
| Horizon.FewLateDeletes | src/book/book.c:51-66 | while the dict has always fitted, or such deletes are fewer than 64, the front is the dict's best |
| Horizon.HorizonExact | src/book/book.c:51-66 | on both sides: k such deletes are safe on every run iff k < 64 |
| Horizon.HorizonIsSharp | src/book/book.c:58 | on both sides, a run on which with the 64th delete the array is empty and the dict is not |
| BookRev.RevSearch | bench/book_rev.c:21-30 | the backward loop finds the same cut, counted from the best end |
| BookRev.RevEvict | bench/book_rev.c:53-56 | dropping lv[0] and shifting only the worse levels makes room at j - 1 |
| BookRev.RevAdd | bench/book_rev.c:45-66 | the new-price branch of the reversed book is the forward book's on the mirror image |
| BookRev.RevDelete | bench/book_rev.c:32-41 | so is the size-0 branch |
| BookRev.RevApply | bench/book_rev.c:15-72 | the reversed book does to the mirror image what the forward book does, eviction, rejection and counters included |
| BookRev.RevBestBidOffer | bench/book_rev.c:74-84 | the back of both sides |
| BookRev.TraceShows | bench/book_layout_bench.c:136-146 | entry i of the trace, while the dicts fit: best price and size of the symbol's dicts after the first i + 1 updates |
| BookRev.SameSide | bench/book_layout_bench.c:148-160 | the level by level comparison succeeds |
| BookRev.RunBoth | bench/book_layout_bench.c:136-146 | the loop over the updates: both books show, after each, the best bid and offer of the specified books |
| BookRev.SameBooks | bench/book_layout_bench.c:148-162 | the final comparison of all levels and counters succeeds |
| BookRev.TwinCheck | bench/book_layout_bench.c:133-170 | for every run the check mode succeeds, with the best bid and offer of the specified books after every update on both sides |
| Wire.EncodeDecode | include/ll/iex_deep_wire.h:26-63 | little-endian fields decode to what was encoded |
| Wire.DecodeEncode | include/ll/iex_deep_wire.h:26-63 | and encode back to the same bytes |
| Wire.HeaderBytes | include/ll/iex_deep_wire.h:29-40 | a segment is DEEP iff 40 bytes are there with 0x04 and 0x80 at offsets 2 and 3; length and count are bytes 12 and 13, 14 and 15, low byte first; the first number is bytes 24 to 31 in two's complement |
| Wire.FieldEight | include/ll/iex_deep_wire.h:28-63 | fields of two, four and eight bytes, lowest byte first |
| Wire.PluBytes | include/ll/iex_deep_wire.h:23-24 | an update has at least 30 bytes and the type byte `8` or `5` |
| Segments.FramingRoundTrip | src/net/rx_stage.c:91-117 | walking a framed list of bodies gives the list back, whatever follows the payload |
| Segments.UpdatesCounted | src/net/rx_stage.c:110-117 | as many updates as bodies of the two types with at least 30 bytes |
| Segments.UpdateAt | src/net/rx_stage.c:131-134 | each such body appears in order, with its first 30 bytes and first_seq plus its position among all bodies |
| Segments.CountLimits | src/net/rx_stage.c:99-100 | the header's count bounds the walk: with a smaller one it stops after that many blocks, and not in a cut one |
| Segments.CutRoundTrip | src/net/rx_stage.c:95-107 | a segment cut inside block k gives exactly the bodies before it, truncated iff the two length bytes arrived |
| Segments.CutIsPrefix | src/net/rx_stage.c:91-117 | cutting any datagram after its header leaves a prefix of its updates |
| Segments.OnlyPayloadMatters | src/net/rx_stage.c:93-97 | bytes past 40 + payload_len change nothing |
| Segments.UpdatesPerSegment | src/net/rx_stage.c:100-141 | n bytes hold at most (n - 40) / 32 updates |
| Segments.UpdatesPerSegmentMet | src/net/rx_stage.c:100-141 | and that many do fit |
| Framer.RxFramer.constructor | src/net/rx_stage.c:51-54 | no expected number, no pending flag |
| Framer.RxFramer.Account | src/net/rx_stage.c:79-89 | the new expected number, gap and reorder counters and pending flag |
| Framer.RxFramer.Block | src/net/rx_stage.c:108-140 | one whole block: filtered, dropped, or pushed with the pending flag, which is then cleared |
| Framer.RxFramer.WalkBlocks | src/net/rx_stage.c:91-141 | the loop with its two stopping conditions handles exactly the blocks of the segment |
| Framer.RxFramer.Segment | src/net/rx_stage.c:56-142 | a whole segment into the ring; the byte past the buffer has no influence |
| FramerRuns.RoundTripPushed | src/net/rx_stage.c:89-141 | framing any list of bodies into a queue with room for its updates pushes exactly those, truncated unchanged |
| FramerRuns.CutPushed | src/net/rx_stage.c:100-107 | a cut segment pushes exactly the updates of its whole bodies and counts one truncation iff a length arrived |
| FramerRuns.CutPushesPrefix | src/net/rx_stage.c:91-117 | into any queue, the messages of a cut datagram are a prefix of those of the whole one |
| FramerRuns.TailIgnored | src/net/rx_stage.c:93-97 | the outcome depends only on the first 40 + payload_len bytes |
| FramerRuns.MessagesConserved | include/ll/rx_stage.h:9-21 | on every run messages = filtered + pushed + dropped_full, and every datagram is foreign, a heartbeat or a counted segment |
| FramerRuns.CountersOnRun | include/ll/rx_stage.h:9-17 | each counter by itself: foreign datagrams, DEEP ones, heartbeats, cut segments, whole messages, messages that are no updates, updates |
| FramerRuns.FirstTaken | src/net/rx_stage.c:120-128 | what a queue with room for so many updates takes is the first of them: the newest are dropped |
| FramerRuns.DropCount | src/net/rx_stage.c:119-129 | exactly the updates of a segment beyond the free places are dropped |
| FramerRuns.DropsOnRun | src/book/book_offline.c:128-129 | with the queue drained between segments, dropped_full is the sum of the updates beyond 1024 of each; it is 0 iff no segment has more, and then every update was pushed in order |
| FramerRuns.NoDrop | src/net/rx_stage.c:120-128 | so a segment below 32840 bytes into an empty queue is pushed whole |
| FramerRuns.NoDropIsSharp | src/net/rx_stage.c:120-128 | a segment of 32840 bytes that loses an update |
| FramerRuns.UndroppedRun | include/ll/rx_stage.h:15-16 | on every run with dropped_full 0 every update of every datagram was pushed, in order |
| FramerRuns.NoDropOnRun | src/book/book_offline.c:128-129 | with the queue drained between them, runs of such segments lose nothing |
| FramerRuns.SequenceAccounting | src/net/rx_stage.c:79-89 | over every run the counters are those of the header list and expected_seq is the first number plus all counts plus gap_msgs minus the backward jumps, plus the jumps not looked at after a segment that ended below 0 |
| FramerRuns.JumpUnseen | src/net/rx_stage.c:79 | after a segment that ends below 0 any jump goes unseen: no gap, no reorder, and `unseen` is its length |
| FramerRuns.SixUnseen | src/net/rx_stage.c:79 | segments ending at -1 and starting at 5, and gap_msgs 0 |
| FramerRuns.GapFlag | src/net/rx_stage.c:84-138 | on every run a message carries the flag iff a gap was counted since the message pushed before it |
| Decode.DecodeEncoded | include/ll/deep_decode.h:38-47 | decoding recovers every field of every encoded update |
| Decode.KeyIsSymbol | include/ll/symtab.h:52-56 | the key is the eight symbol bytes and nothing else |
| Decode.PluLayout | include/ll/iex_deep_wire.h:55-63 | side, event flag, size, key, time stamp and price by their byte offsets |
| Desk.DecodedFields | include/ll/deep_decode.h:34-47 | the decoded record has the update's fields and the message's time, number and flag |
| Desk.Unindexed | include/ll/deep_decode.h:28-32 | a message whose symbol gets no index is counted, and nothing else changes |
| Desk.ZeroSharesBook | include/ll/symtab.h:49-50 | an update with the key 0 is applied to the very book of the first symbol |
| Desk.ConsumeAllCounts | include/ll/deep_decode.h:26-51 | every message is decoded or counted as dropped, and every decoded one applied to the book |
| PriceText.ParseFmt | test/book/bbo_reference.py:16-29 | parse_px(fmt_px(v)) == v for every integer |
| PriceText.ParseDigits | test/book/bbo_reference.py:16-23 | the parser on digits with or without a point: four decimals count, missing ones are zeros, later ones are left off; a minus sign turns the value round |
| PriceText.FixedDigits | src/book/book_offline.c:47-51 | digit by digit: the whole part without needless zeros, a point, exactly four decimals |
| PriceText.SameText | src/book/book_offline.c:47-51 | the C formatter prints every price above -2^63 as the script does |
| PriceText.TextIsPrice | src/book/book_offline.c:47-51 | equal text means equal price, and no price prints as the dash of an empty side |
| DumpText.SplitFormat | test/parse/deep_dump.c:108-112 | splitting a printed row gives back its columns, whatever the widths |
| DumpText.SplitFront | test/book/bbo_reference.py:40-41 | the first columns come back whatever follows them |
| DumpText.HexReads | test/book/bbo_reference.py:46 | the two hexadecimal digits of the flags read back |
| DumpText.IntReads | src/book/book_offline.c:78 | a printed number reads back, sign included |
| DumpText.IntDigits | src/book/book_offline.c:78 | and its digits are those of the number, without a needless zero |
| DumpText.ColumnPrinted | test/parse/deep_dump.c:108-112 | a column takes its width or what its text needs, padded on the side its flag says |
| Dump.TextParses | test/book/bbo_reference.py:47 | the price column reads back as the wire price |
| Dump.UpdateWords | test/parse/deep_dump.c:74-112 | the words of an update's line, all thirteen, by the fields of the wire |
| Dump.StampPlaces | test/parse/deep_dump.c:38-43 | date and time of day make up one column of 29 characters |
| Dump.LineReads | test/parse/deep_dump.c:74-76 | the script reads from the printed line of an update exactly the update |
| Dump.OtherSkipped | test/book/bbo_reference.py:41-43 | the line of a message of another type is passed over, whatever its other columns |
| Dump.ShortFails | test/book/bbo_reference.py:44-47 | on the line of an update shorter than 30 bytes the script stops |
| Dump.LinesRead | test/book/bbo_reference.py:37-39 | iterating over the file of a dump gives back the lines printed, one for each message |
| Dump.DumpReads | test/book/bbo_reference.py:35-47 | the script gets through a dump iff no update in it is short, and then it reads exactly the updates, in order |
| DumpWalk.DumpBlocks | test/parse/deep_dump.c:123-128 | the loop prints one line for each whole message of the segment, in order, with its number and position |
| DumpWalk.DumpSegment | test/parse/deep_dump.c:118-129 | and nothing for a segment without messages or of another protocol |
| DumpWalk.WalkFindsUpdates | test/parse/deep_dump.c:74-76 | the updates among the lines are those the framer finds, with the same numbers |
| DumpWalk.WalkFindsShort | test/parse/deep_dump.c:74 | a line is that of a short update iff a message of the two types has fewer than 30 bytes |
| DumpWalk.MessageWords | test/parse/deep_dump.c:60-112 | the line of every message starts with its number, packet, position and type byte; type 0, or an empty message, shows as `?` |
| DumpWalk.ShortWords | test/parse/deep_dump.c:60-112 | the line of a short update: flags from two bytes on, time stamp from ten, dashes for symbol, size and price |
| Reference.BestKey | test/book/bbo_reference.py:59-60 | max of the bids, min of the asks |
| Reference.LaterWords | test/book/bbo_reference.py:40-47 | columns after the twelfth are not looked at, and of a line of another type none after the fourth |
| Reference.ChangeSide | test/book/bbo_reference.py:47-55 | one row's change to its side's dict |
| Reference.EmitRow | test/book/bbo_reference.py:57-71 | the emitted row, dashes and zeros for an empty side |
| Reference.ReplayDump | test/book/bbo_reference.py:32-71 | from the lines of a file the script's loop computes the replay of the rows read, whatever their prices and sizes, up to the first line on which it stops |
| SymbolText.PaddedTellApart | src/deep/symtab.c:53-56 | space-padded symbols of plain characters are told apart by their printed names |
| SymbolText.TextAt | src/deep/symtab.c:53-56 | the printed name, character by character: the stored bytes up to the first zero, or up to the blanks and zeros at the end |
| SymbolText.PaddedNamed | src/deep/symtab.c:53-56 | every plain text of one to eight characters is the name of a space-padded symbol |
| SymbolText.TextIsNotZero | include/ll/symtab.h:49-50 | a symbol with a name is not the key that marks an empty slot |
| EndToEnd.DeskNext | src/book/book_offline.c:84-100 | one message more keeps every side the run of its own symbol's changes, under its own index |
| EndToEnd.BookNext | test/book/bbo_reference.py:47-55 | and every dict of the replay the run of the same changes |
| EndToEnd.FrontText | src/book/book_offline.c:70-79 | a side prints the replay's text iff its front is the dict's best |
| EndToEnd.SameLine | src/book/book_offline.c:70-79 | the row printed from the arrays is the row emitted from the dicts iff both sides are right |
| EndToEnd.PrintsTheReplay | src/book/book_offline.c:53-81 | for every run of comparable updates the rows printed are those of the replay, restricted to the filter, iff every row due shows two right sides; none is dropped; EPC counts the replay's rows |
| EndToEnd.HorizonIsRight | src/book/book.c:51-66 | rows are right while no side of theirs has deleted 64 levels since its dict first outgrew it |
| EndToEnd.FitIsWithin | include/ll/book.h:26 | so they are while no dict outgrows 64 prices |
| EndToEnd.OneLevel | src/book/book_offline.c:53-81 | one bid or ask that completes its event meets every condition of the comparison and makes the row one expects |
| EndToEnd.BeyondHorizon | src/book/book.c:58 | on either side of any symbol, 65 levels and 64 deletes meet the conditions of the comparison and make a wrong row |
| Offline.Program.constructor | src/book/book_offline.c:176-179 | everything starts empty |
| Offline.Program.Name | src/deep/symtab.c:47-57 | the stored bytes without trailing spaces and zeros, as far as they print; `?` for an index not given |
| Offline.Program.DeepDecode | include/ll/deep_decode.h:26-51 | interns, counts, and decodes unless no index was left |
| Offline.Program.RowFor | src/book/book_offline.c:70-79 | the row shows the front of both sides and the stored name |
| Offline.Program.Emit | src/book/book_offline.c:61-80 | one row iff printing is on and the filter lets the symbol through |
| Offline.Program.OnUpdate | src/book/book_offline.c:53-81 | applies, then prints only for a complete event |
| Offline.Program.Fetch | src/book/book_offline.c:86-98 | the oldest message is decoded before its slot is given back |
| Offline.Program.Drain | src/book/book_offline.c:84-100 | empties the queue, having consumed every message in order |
| Offline.Program.Frame | src/book/book_offline.c:128 | frames a payload into the empty queue and touches nothing else |
| Offline.Program.FrameAndDrain | src/book/book_offline.c:128-129 | one payload: framed as specified, everything pushed is consumed, queue empty again |
| Offline.RunCapture | src/book/book_offline.c:176-202 | a whole capture: the framer's and the consumer's specification over the run, symbol table, books, rows and counters |
| Offline.MatchesReplay | test/book/bbo_reference.py:32-71 | end to end: dropped_full is the excess over 1024 per segment; if it is 0, the rows are those of the replay of the same updates iff every row due shows two right sides, as they do within the horizon |
| BboText.FilesTellApart | test/book/verify_bbo.sh:26 | two files of rows whose columns have no tab or line end are equal byte for byte iff the rows are |
| BboText.RowColumns | src/book/book_offline.c:78-79 | between the tabs of a row stand number, symbol, bid price, bid size, ask price, ask size |
| BboText.OneLine | src/book/book_offline.c:78-79 | a row is one line |
| BboText.ReplayCells | test/book/bbo_reference.py:59-71 | no column that the script prints has a tab or a line end |
| Verify.BothCells | src/book/book_offline.c:73-79 | nor has one that the program prints, for symbols that can be compared |
| Verify.CaptureUpdates | test/parse/deep_dump.c:118-129 | the dump of a capture lists the very updates that the framer finds in it |
| Verify.CaptureShort | test/parse/deep_dump.c:74 | and has the line of a short update iff the capture has a short update |
| Verify.DumpCapture | test/parse/deep_dump.c:149 | the dump of a whole capture, segment after segment |
| Verify.VerifyBbo | test/book/verify_bbo.sh:21-34 | on every capture that can be compared and dumped, and on which no segment overran the queue, the script reports a match iff every row due shows two right sides and no update is short |
| Verify.Captured | src/net/rx_stage.c:91-141 | every list of updates is that of a capture, one that meets every condition on captures |
| Verify.DrainDiffers | test/book/verify_bbo.sh:26-33 | on the capture of 65 levels and 64 deletes the script reports a mismatch |

## Left out

- Memory model: steps interleave and acquire loads may be stale but only move forward; other weak-memory effects,
  alignment and false sharing are not modelled.
- FreeList.PoolSafe: one allocating thread only; with several the header concedes ABA, and nothing is claimed.
- FreeList.StepEffect: the concurrent program is a step system on values; `Pool` models the same code in place without
  interference.
- SpscProtocol.Safety: producer and consumer obey the call rules of the header; the slot pointers themselves are not modelled.
- Shutdown.ShutdownComplete: the threads are a step system on values. That the loop can end from every state with the Rx
  thread done is proved (CanFinish); that a schedule must end it, one that never stops reading the old flag, is not claimed.
- Live.LiveRun: the Rx thread counts a segment's filtered and truncated messages when it starts on it, which no other thread
  can see; its ring accesses are single steps. Latency samples are left out.
- Book.BookSet.Apply: a bid of -2^63 is excluded, since C leaves flipping its sign undefined; BookRev.RevApply likewise.
- EndToEnd.PrintsTheReplay: any price of -2^63 is excluded, since the formatter flips the sign of asks too. Symbols that do
  not print as one word of characters from `!` to `~` are excluded. A blank one shows as a dash in the dump and as nothing
  in the program, and a blank inside shifts the columns the script reads.
- FramerRuns.SequenceAccounting: int64_t overflow of first_seq + message_count and wrap-around of the 64-bit counters are not
  modelled.
- Framer.RxFramer.Segment: statistics are unbounded, rx_tsc is a parameter, and the segment is a value.
- Verify.VerifyBbo: the frame numbers, the calendar and the columns after the type byte of messages that are no updates
  are parameters, the last without line ends. Captures with a type byte that does not print, and with segments of which less
  arrived than announced, are excluded: the dump goes by the announced length alone.
- DumpWalk.DumpSegment: excludes the same captures; segments are values.
- PriceText.ParseFmt: `int` is modelled on plain digits; the other spellings Python accepts do not occur.
- Offline.RunCapture: starts at the UDP payloads; the pcapng walk and the Ethernet, IPv4 and UDP headers are not modelled.
- Sockets, threads, CPU pinning, time stamps, latency statistics, argument parsing and the printed summary: I/O and measurement.
- include/ll/spsc_queue_nopad.h, include/ll/mempool_indexstack.h, include/ll/mempool_percore.h: the same ring once more
  and plain array stacks, which would add only easy members.
- The copy and borrow variants of slot_vs_index.c, the other benchmarks, the demos and the scripts.
