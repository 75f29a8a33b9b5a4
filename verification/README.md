# Deterministic matching engine, verified model

The engine keeps one set of resting limit orders in five redundant forms: an index arena with a
free stack, doubly linked FIFOs per price, per-level counts and totals, activity bitmaps, and an
open-addressed id index. Around it stand a lock-free ring on either side, a write-ahead journal,
snapshots, a binary wire format and a gateway. This project models them and proves what they
promise, down to the array updates.

## Reading order

- `Types`, `Ladder`: the values and the specification book, per side and price a FIFO of
  (id, quantity, priority), plus the last sequence. Level totals wrap at 2^64 as in the engine, so
  the refinement below needs no assumption about sizes.
- `Matching`, `Invariants`, `Runs`, `EventFold`: price-time priority, what every command keeps,
  response grammar, conservation, the amortised bound, and the event stream as a full record.
- `Answers`: every answer and every queue it leaves, described trade by trade in ticks and prices,
  without the specification's own helpers; the specification is the only thing that meets it.
- `Listing`, `Turns`, `Reference`, `Divergence`: the linear-scan book of the differential test, with
  the engine's capacity rule added, the exact condition under which the two agree, and inputs for
  both ways in which they do not.
- `Recovery`: listing, restoring, and replaying a journal over a snapshot.
- `FixedIndex`, `Bitmap`, `Rep`, `RepOps`, `Engine`: the data structures. `Engine.OrderBook` is the
  engine's class; each method is proved against the specification book.
- `Spsc`, `Pipeline`: the ring and the runner threads as an interleaving of single atomic accesses.
- `Journal`, `Snapshot`, `Layout`, `Durability`: files, byte by byte, and what a running gateway
  leaves in them.
- `Codec`, `Wire`, `Stream`, `Gateway`: frames, their bytes by offset, connection buffers, sessions
  and risk limits.

## Main results

- `Engine.Replay`, over `Engine.OrderBook.Process`: the five-fold representation, with its in-place
  loops, refines the specification book for every command stream. The exact condition under which it
  answers as a linear-scan book does is `Reference.DifferentialRun`, both ways, on every sound book.
- `Answers.AnswerUnique`: the description of one command, refusal table, limit prices, queue heads and
  remainders, has exactly one outcome, the specification's; `Answers.LimitTheorem` and
  `Answers.ReplacedRests` draw what a trader relies on from it.
- `FixedIndex.FixedOrderIndex.Erase`: linear probing with cluster reinsertion is a finite map for
  every hash function and every load.
- `Runs.RunTheorem`, `Runs.ResponseTheorem`, `Runs.ProcessReport`, `EventFold.EventsDetermineBook`:
  soundness, amortised bound, response grammar, conservation, and the event stream as a full record,
  over whole runs.
- `Spsc.RingTheorem`, `Spsc.PushLinearizes`, `Pipeline.PipelineTheorem`: first in, first out without
  loss under every interleaving of single atomic accesses, each call atomic wherever the other
  thread's accesses fall, and the threads together equal to sequential processing.
- `Pipeline.EveryResponseTraced`, `Pipeline.StopEnds`: every response goes back to the request whose
  command it answers, and an engine told to stop does, however full its output ring stays.
- `Recovery.SnapshotRoundTrip`, `Recovery.RecoveryTheorem`, `Journal.CrashRecovery`,
  `Durability.RunnerRecovers`, `Journal.CorruptionStopsReplay`: exactly which books survive a
  snapshot, a crash at any byte, a snapshot of any earlier moment, any single corrupted byte.
- `Codec.DecodeExact`, `Wire.DecodedBytes`, `Stream.ChunksDoNotMatter`: the decoder accepts exactly the
  encodable frames, each field at its offset, and chunking is immaterial.
- `Gateway.GatewayMatchesReference`: from the bytes received to the responses popped, the gateway is
  the linear-scan book.

## Where the code does less than it seems

The fill-or-kill and full-book preflights add up displayed level totals, which wrap at 2^64. A
preflight that says yes is always right. It wrongly says no exactly when the displayed depth falls
short of a quantity that the true depth covers (`Matching.Preflight`). Three commands on a new book
reach that (`Divergence.DivergenceReachable`); behind the gateway's limits it is out of reach
(`Gateway.GatewayMatchesReference`).

The linear-scan book looks for the earliest priority at the best price, the ladder takes the head of
the FIFO. A command is out of turn when it is let through and trades with a head behind which an
earlier order waits. The engine and the list answer a run alike if and only if no command of it is
misjudged by a preflight or out of turn (`Reference.DifferentialRun`); the first such command is
answered differently. Where every FIFO is in admission order nothing is out of turn
(`Reference.QueuedParts`), and that lasts until the sequence wraps (`Reference.DatedParts`), but it is
more than agreement needs. Restoring accepts a last sequence just short of the wrap, and then the
second command can already be out of turn (`Divergence.WrapDivergence`).

A snapshot of a live book restores to that book exactly when no priority exceeds the last sequence
and no FIFO is out of order (`Recovery.SnapshotRoundTrip`). Every such book stays one until its sequence
wraps, which for a restored book may be at once: restoring accepts any last sequence, and one command
after 2^64-1 leaves a book whose own snapshot is refused (`Recovery.SnapshotAfterWrapRefused`).

Restoring checks each order on its own and never compares bids with asks. It accepts exactly the
lists described by `Recovery.RestoreExact`, and the book it builds is uncrossed exactly when every
listed bid is below every listed ask; `Recovery.RestoreMayCross` shows an accepted list that is not.
The results over whole runs hold of crossed books as well.

A journal reopened with a torn tail is continued, not truncated; what is appended is then lost to
replay unless the misaligned bytes happen to form a sealed record (`Journal.TornTailContinued`).
Every journal one byte short has a next command that is lost so (`Layout.TornAppendLost`).

The matching loop, the bitmap scans, the list walks, the probe and repair loops, the checksum, the
replay loop, the byte loops and the compacting buffers keep the loops of the source. 64-bit counters
and totals wrap explicitly. `& mask` on a power of two is the remainder; or-ing together shifted
bytes that do not overlap is addition; words of the bitmap and the checksum are integers below 2^64
with their digit-wise operators. A thrown exception is `None`, `false` or a refused status.

## Model

| member | source | states |
|---|---|---|
| Types.PriceCountAccepts | src/order_book.cpp:12-32 | the constructor's checks, signed-overflow guard included, accept exactly the configurations with positive tick, ordered and tick-aligned range whose span fits an int64, and 1 to 2^32-1 orders |
| Types.PriceOfIndex | src/order_book.cpp:50-60 | every ladder index has a valid price, and that price has that index |
| Types.IndexOfPrice | src/order_book.cpp:50-60 | every valid price has an index inside the ladder, and that index has that price |
| FixedIndex.TableCapacity | include/dme/fixed_hash.hpp:75-82 | throws exactly outside 1..2^62; otherwise a power of two, at least twice and less than four times the request |
| FixedIndex.FixedOrderIndex.constructor | include/dme/fixed_hash.hpp:18-19 | an empty map over a table of that capacity, for any hash function |
| FixedIndex.FixedOrderIndex.Insert | include/dme/fixed_hash.hpp:21-33 | map insertion: refused exactly when the id is present or no slot is vacant, and then nothing changes; otherwise the entry goes to the first vacant slot of its probe path. Also holds on the half-repaired table inside erase |
| FixedIndex.FixedOrderIndex.Find | include/dme/fixed_hash.hpp:35-44 | map lookup, for any hash and any load, a full table included |
| FixedIndex.FixedOrderIndex.Erase | include/dme/fixed_hash.hpp:50-72 | map removal; true exactly when the id was present; every remaining id stays reachable |
| FixedIndex.FixedOrderIndex.Repair | include/dme/fixed_hash.hpp:59-66 | the reinsertion loop ends, loses no entry, and leaves no probe path crossing a vacant slot |
| FixedIndex.LandsAtOrBefore | include/dme/fixed_hash.hpp:61-66 | a displaced entry lands in the hole exactly when the hole is on its probe path, otherwise back in its own slot |
| FixedIndex.RepairStep | include/dme/fixed_hash.hpp:61-66 | one turn of the loop either moves the hole forward and shortens the total probe distance, or extends the repaired stretch; the hole is the only place where a path may break |
| FixedIndex.RoomIsVacancy | include/dme/fixed_hash.hpp:21-33 | fewer entries than slots means a vacant slot |
| Bitmap.SetActiveMeans | src/order_book.cpp:62-65 | setting bit i activates index i and no other |
| Bitmap.ClearActiveMeans | src/order_book.cpp:67-70 | clearing bit i deactivates index i and no other |
| Bitmap.Lowest | src/order_book.cpp:74-79 | the least active index, or none exactly when no bit is set |
| Bitmap.Highest | src/order_book.cpp:80-88 | the greatest active index, or none exactly when no bit is set |
| Rep.ChainAppend | src/order_book.cpp:146-157 | linking a fresh node at the tail turns a well-formed FIFO with exact aggregates into the FIFO with the node appended |
| Rep.ChainCut | src/order_book.cpp:165-174 | unlinking any node, first, last or inner, leaves a well-formed FIFO without it, aggregates exact modulo 2^64 |
| Rep.ChainTrade | src/order_book.cpp:223-226 | a partial fill of the head keeps the FIFO and its total exact modulo 2^64 |
| RepOps.RepUnique | include/dme/order_book.hpp:92-101 | under the representation invariant no two resting orders share an id |
| RepOps.RepResident | include/dme/order_book.hpp:92-101 | the id index answers exactly the resident ids, with the node seated where the order rests |
| RepOps.AddOk | src/order_book.cpp:144-160 | add_resting keeps arena partition, FIFOs, aggregates, bitmaps and id index together, and appends one order to one FIFO of the ladder |
| RepOps.RemoveOk | src/order_book.cpp:165-180 | remove_node keeps all five together and removes one order from one FIFO of the ladder |
| RepOps.TrimOk | src/order_book.cpp:223-226 | a partial fill of a level's head keeps all five together |
| RepOps.TrimSides | src/order_book.cpp:223-226 | and changes the ladder by the head's quantity alone |
| RepOps.EmptyRepOk | src/order_book.cpp:34-48 | the constructed representation satisfies the invariant and stands for the empty ladder |
| Engine.Open | src/order_book.cpp:12-48 | a book is constructed exactly for the acceptable configurations, and then it is valid and empty |
| Engine.OrderBook.constructor | src/order_book.cpp:34-48 | the representation invariant holds, the ladder is empty, all counters are zero |
| Engine.OrderBook.BestIndex | src/order_book.cpp:72-89 | the best occupied index: every better-ranked level of that side is empty; none exactly when the side is empty |
| Engine.OrderBook.AddResting | src/order_book.cpp:144-163 | keeps the invariant, appends the order to its FIFO, emits Rested; the index insert cannot fail |
| Engine.OrderBook.RemoveNode | src/order_book.cpp:165-180 | keeps the invariant and removes exactly the order seated at that node |
| Engine.OrderBook.CanFullyFill | src/order_book.cpp:113-136 | for any limit, on or off the ladder, and any quantity: true exactly when the displayed (wrapping) totals of the crossing levels reach the quantity, or, for quantity 0, when some level crosses |
| Engine.ReachIsRanks | src/order_book.cpp:107-111 | for a valid limit the crossing levels are just the ranks up to its own |
| Engine.OrderBook.Match | src/order_book.cpp:215-230 | the node-by-node matching loop computes the specification's sweep: same ladder, same trades in the same order, same remainder |
| Engine.OrderBook.Admit | src/order_book.cpp:183-212 | the reason, or none, the specification gives, in the same order of checks; an admitted limit order that can leave a remainder finds a free node |
| Engine.OrderBook.Submit | src/order_book.cpp:182-238 | refines the specification's Submit: ladder, events and counters |
| Engine.OrderBook.CancelOrder | src/order_book.cpp:240-251 | refines the specification's cancel; when replacing, removes silently |
| Engine.OrderBook.ReplaceOrder | src/order_book.cpp:253-273 | refines the specification's replace, the order keeping its side |
| Engine.OrderBook.Process | src/order_book.cpp:275-288 | one command: the invariant is kept, ladder and events are the specification's, on a sound book also as Answers describes them trade by trade, and the three counters move by the command, its trades and its rejections, wrapping at 2^64 |
| Engine.OrderBook.ProcessAll | apps/replay.cpp:13-19 | a command stream: the ladder and events of the specification's run, the counters advanced by its totals; a sound ladder stays sound, an uncrossed one uncrossed |
| Engine.OrderBook.RestingOrders | src/order_book.cpp:290-305 | walking the links lists exactly the ladder: ascending price, bids before asks, FIFO within |
| Engine.OrderBook.Restore | src/order_book.cpp:307-325 | accepts exactly what the specification's Restore accepts and ends in its ladder, also when it stops midway; a book in use is refused and untouched |
| Engine.Replay | apps/replay.cpp:13-26 | a new book fed any stream: sound and uncrossed; short of 2^64 commands also in admission order, with trades + resting orders <= commands == last sequence; its events equal the linear-scan book's exactly when no command is misjudged or out of turn, which short of 2^64 commands is when none is misjudged |
| Matching.PriceTimePriority | src/order_book.cpp:215-230 | fills are the price-then-FIFO queue cut at the quantity, what stays is the rest of it, levels beyond the limit are untouched, fills plus remainder equal the quantity |
| Matching.TakeIsPrefix | src/order_book.cpp:217-230 | every fill but the last consumes its resting order whole |
| Matching.Preflight | src/order_book.cpp:113-136 | yes is always right, wrapped totals or not; the answer is wrong exactly when displayed depth < quantity <= true depth; never wrong when no level's total reaches 2^64 |
| Matching.PreflightRefusesWrappedLevel | src/order_book.cpp:113-136 | two orders of 2^63 at one tick display zero: a one-lot fill-or-kill is refused although it would fill |
| Runs.ProcessKeeps | src/order_book.cpp:275-288 | one command keeps quantities positive, ids unique and the order count within capacity, on crossed books too; an uncrossed book stays uncrossed; FIFOs stay in admission order, strict or with ties, while sequences do not wrap; quantity caps are kept |
| Runs.ResponseTheorem | src/order_book.cpp:182-288 | on every sound book, crossed or not: every response is Rejected, or Cancelled, or (Accepted or Replaced) Trade* (Rested or Cancelled)?; a rejection changes no resting order and carries contra, price and quantity 0; a reason appears just on rejections; a replace of a resident order with valid price and quantity is answered Replaced |
| Runs.ReplacementAdmitted | src/order_book.cpp:253-273 | a replacement that passed its checks cannot be rejected afterwards, even on a full book |
| Runs.ExecutionReport | src/order_book.cpp:214-237 | the events of one execution report it: trades follow the crossing queue at the resting prices, none worse than the order's own price unless it is a market order, never at a better price than an earlier one, all but the last whole; trades and remainder add up to the submitted quantity; a remainder appears exactly when the crossing depth falls short |
| Runs.ProcessReport | src/order_book.cpp:253-288 | the same of every command: what follows Accepted reports the order on the book as it was, what follows Replaced reports the replacement, with the original side, on the book without the original order |
| Runs.AllOrNothing | src/order_book.cpp:201-238 | a fill-or-kill, or a limit order on a full book, is turned away with the book untouched or filled whole with nothing left to rest, wrapped totals or not |
| Runs.RunTheorem | src/order_book.cpp:217-238 | over any run of any sound book, restored or new, crossed or not: it stays sound, uncrossed if it was, and trades + resting orders <= sequenced commands + orders at the start |
| Runs.RunSequence | src/order_book.cpp:275-282 | the last sequence counts the sequenced commands, wrapping at 2^64 |
| Runs.RunTimely | src/order_book.cpp:144-157 | short of a sequence wrap every FIFO stays in admission order, strictly if it was, and the last sequence counts the sequenced commands |
| Runs.FreshRun | src/order_book.cpp:275-288 | from a new book: sound, uncrossed, in admission order, trades + resting orders <= commands |
| Answers.AnswerTheorem | src/order_book.cpp:182-288 | every command on every sound book: refused for the first check that fails, with a bare rejection; otherwise, while the foremost nonempty opposite tick is within the order's price, it trades with that tick's head for the lesser of the two quantities; what is left rests at the back of its own tick if it is a limit order, else is cancelled; a cancel takes out exactly its order |
| Answers.AnswerUnique | src/order_book.cpp:182-288 | an outcome meets that description if and only if it is the specification's: every event field and every queue is fixed by it |
| Answers.RefusalIsAdmission | src/order_book.cpp:183-212 | the admission checks, by rank and effective limit, refuse exactly as the table by tick and price does, the displayed quantity at tolerable ticks included |
| Answers.LimitTheorem | src/order_book.cpp:198-236 | whatever the order type, only a market order trades beyond its price; a remainder is left only where no opposite order at such a price is, a market order's only where the opposite side is empty |
| Answers.ReplacedRests | src/order_book.cpp:253-273 | a replaced order keeps its side and is never cancelled: what it does not trade is Rested at the new price, last in that queue, with the untraded quantity and the command's sequence as priority |
| EventFold.FoldProcess | src/order_book.cpp:138-142 | folding one command's events over the book gives the book after the command |
| EventFold.EventsDetermineBook | src/order_book.cpp:138-142 | the event stream alone determines the book: folding Rested, Trade, Cancelled and Replaced over any run of any sound book gives every FIFO |
| Reference.MatchMirrors | tests/test_differential.cpp:67-81 | repeatedly scanning any flat list of distinct orders for the best price, then earliest priority, trades as the ladder sweep does if and only if every head the sweep takes is the earliest order of its FIFO; otherwise the trades differ |
| Reference.BestIsHead | tests/test_differential.cpp:67-81 | the scan's choice is the head of the best FIFO exactly when no order of that FIFO is earlier than its head |
| Reference.PreflightMirrors | tests/test_differential.cpp:83-92 | the list's preflight sees the true depth; the ladder's sees the displayed depth, which never exceeds it |
| Reference.CancelMirrors | tests/test_differential.cpp:150-161 | cancelling by id in the list and in the ladder is the same |
| Reference.ReplaceMirrors | tests/test_differential.cpp:163-184 | replacing by id in the list and in the ladder is the same, preflight mismatch or not, exactly unless the replacement is let through and trades out of turn; then the answers differ |
| Reference.DifferentialStep | tests/test_differential.cpp:21-33 | one command on any sound book: same events and same resting orders if and only if it is neither misjudged by a consulted preflight nor out of turn; misjudged, the answers differ from the first event on |
| Reference.DifferentialRun | tests/test_differential.cpp:21-33 | whole runs from any sound book and any list with the same FIFOs: same events if and only if no command is misjudged or out of turn when it is reached, and then the books agree |
| Reference.InOrderIsQueued | tests/test_differential.cpp:67-81 | the list is in order exactly when every FIFO of the ladder is |
| Turns.InTurnStep | src/order_book.cpp:215-230 | a sweep is in turn exactly when the head of the best nonempty level is its earliest order and the sweep after that trade is in turn |
| Turns.QueuedInTurn | src/order_book.cpp:144-157 | on a book whose FIFOs are in admission order, ties included, every sweep is in turn |
| Reference.QueuedParts | src/order_book.cpp:144-157 | so on such a book a command is answered differently exactly when it is misjudged |
| Reference.DatedParts | src/order_book.cpp:144-157 | and it stays so on every run from a book in admission order until the sequence wraps |
| Divergence.WrapDivergence | tests/test_differential.cpp:75-78 | the other exception is real: on a book that restore accepts, one sell wraps the sequence and lands behind an earlier-looking order, and the next buy is answered differently from every list with the same FIFOs, though no command is misjudged; a cancel in its place is answered alike |
| Reference.FreshDifferential | tests/test_differential.cpp:19-33 | the same from a new book, for every command sequence; shorter than 2^64 it is a matter of misjudged commands alone |
| Divergence.DivergenceReachable | src/order_book.cpp:156 | the first exception is real: three commands on a new book make the two books answer differently |
| Reference.NoWrapNeverDiverges | src/order_book.cpp:201-212 | where no level's true total reaches 2^64 no command is misjudged |
| Reference.CappedRunsAgree | include/dme/gateway.hpp:16 | with every quantity capped so that cap times capacity stays below 2^64, ladder and list answer every run identically |
| Recovery.ListingRoundTrip | src/order_book.cpp:290-305 | filing the listed orders by side and tick gives back the ladder |
| Recovery.ListingOrdered | src/order_book.cpp:290-305 | the listing runs by ascending price, bids before asks at one price |
| Recovery.SortSorts | src/order_book.cpp:312-314 | the sort orders by priority and permutes |
| Recovery.SortPick | src/order_book.cpp:312-314 | stability: a FIFO already in admission order keeps its order, ties included |
| Recovery.SnapshotRoundTrip | src/order_book.cpp:290-325 | restoring a book's own resting orders rebuilds that very ladder and last sequence if and only if the book is sound, no priority exceeds the last sequence and no FIFO has a later order ahead of an earlier one; crossed prices and ties do not matter |
| Recovery.WrapSpoilsSnapshot | src/order_book.cpp:276-318 | on every sound book whose last sequence is 2^64-1 and that holds an order of nonzero priority: one refused cancel wraps the sequence, and the snapshot is then refused |
| Recovery.SnapshotAfterWrapRefused | src/order_book.cpp:276-318 | the failing case is real and short: restore one order with last sequence 2^64-1, cancel an unknown id, and the live book's own snapshot is refused |
| Recovery.RestoreExact | src/order_book.cpp:307-325 | restore succeeds if and only if the orders fit and have valid prices, positive quantities, priorities up to the last sequence and distinct ids; the result is the orders filed by priority and is sound, and it is uncrossed if and only if every listed bid is below every listed ask |
| Recovery.RestoreMayCross | src/order_book.cpp:317-323 | the unchecked case is real: a list with a bid above an ask is accepted |
| Recovery.StaleRun | src/order_book.cpp:275-280 | on any book: commands already applied are each answered with a sequence gap and change nothing |
| Recovery.RecoveryTheorem | src/journal.cpp:88-169 | for a runner started on any sound book in admission order, new or restored, and a snapshot after any k of its m commands: replaying the suffix, or the whole journal, onto the restored snapshot gives the live book, and the later events are the live ones |
| Spsc.StorageCapacity | include/dme/spsc_queue.hpp:36-43 | throws exactly for 0 and from 2^63 on; otherwise a power of two above the minimum |
| Spsc.ProduceKeeps | include/dme/spsc_queue.hpp:18-25 | each atomic step of try_push keeps the ring invariant, whatever the consumer is in the middle of |
| Spsc.ConsumeKeeps | include/dme/spsc_queue.hpp:27-33 | each atomic step of try_pop keeps the ring invariant, whatever the producer is in the middle of |
| Spsc.Refusals | include/dme/spsc_queue.hpp:18-33 | a push is refused exactly when size - 1 values are held at the head load, a pop exactly when none is held at the tail load |
| Spsc.NoSlotShared | include/dme/spsc_queue.hpp:22-30 | the slot about to be written is never the slot about to be read |
| Spsc.RingTheorem | include/dme/spsc_queue.hpp:12-50 | every interleaving: pushed is popped followed by the ring contents read off head and tail, at most size - 1 held, no shared slot access, no refusal below the requested minimum |
| Spsc.PushLinearizes | include/dme/spsc_queue.hpp:18-25 | with any number of the consumer's accesses between those of a push: refused, it ends as the call alone at the moment of its head load; granted, as the call alone after all of them; it is refused exactly when the ring is full at the head load |
| Spsc.PopLinearizes | include/dme/spsc_queue.hpp:27-33 | likewise a pop amid the producer's accesses: refused exactly when nothing is held at its tail load |
| Spsc.SpscQueue.constructor | include/dme/spsc_queue.hpp:15-16 | an empty ring with room for more than the minimum |
| Spsc.SpscQueue.TryPush | include/dme/spsc_queue.hpp:18-25 | appends exactly when fewer than size - 1 values are held, and changes memory exactly as the four steps of the interleaved model, PushAlone, do |
| Spsc.SpscQueue.TryPop | include/dme/spsc_queue.hpp:27-33 | takes the oldest value, or nothing exactly when empty, and changes memory exactly as the four steps of the interleaved model, PopAlone, do |
| Pipeline.EngineKeeps | src/gateway.cpp:37-59 | each step of the runner loop (stop check, pop access, journal, process, push access, retry) keeps book, journal and published responses equal to sequential processing |
| Pipeline.ExecutionKeeps | src/gateway.cpp:37-59 | so does every interleaving of gateway, engine, consumer and stop |
| Pipeline.PipelineTheorem | src/gateway.cpp:37-59 | every interleaving, both runners: popped responses are a prefix of the tagged sequential results over requests in push order, the journal is written ahead by at most the command in hand, the book is the journal's replay |
| Pipeline.NothingLost | include/dme/engine_runner.hpp:22-42 | a running engine that drained its input has every response delivered or in the ring; a stopped one withholds exactly what it had not published |
| Pipeline.EveryResponseTraced | src/gateway.cpp:37-59 | every interleaving, both runners: the k-th journalled command has every field of the k-th request pushed, its sequence the k-th after the book's for the gateway, unchanged otherwise; every popped response is the next event in turn of one such command and carries that request's session and client sequence |
| Pipeline.StopEnds | src/gateway.cpp:41-57 | once stop is set the engine returns within a number of its own steps that the book's size bounds, whatever the other threads do and however full the output ring stays |
| Pipeline.StopIsHeeded | src/gateway.cpp:41-55 | once stop is set, at most the pop already under way succeeds, whatever the interleaving |
| Pipeline.ExpectedIsRun | src/gateway.cpp:46-51 | without their tags the sequential responses are the events of the run |
| Pipeline.GatewayNeverGaps | include/dme/gateway.hpp:56-59 | with the runner sole owner of a sound book, crossed or not, no response ever reports a sequence gap |
| Journal.ChecksumBytes | src/journal.cpp:38-46 | the checksum loop computes the folded checksum |
| Journal.ChecksumSteps | src/journal.cpp:38-46 | the offset basis, and each step: exclusive or with the byte first, then the multiplication modulo 2^64 |
| Journal.ScrambleInjective | src/journal.cpp:43 | multiplying by the odd constant modulo 2^64 loses nothing |
| Journal.MixInjective | src/journal.cpp:42-43 | a checksum step is injective in the state and in the byte |
| Journal.ChecksumDetects | src/journal.cpp:38-46 | any one changed byte changes the checksum |
| Journal.OpenJournal | src/journal.cpp:56-75 | a new file gets a header, a compatible one is continued, any other is refused |
| Journal.JournalWriter.Append | src/journal.cpp:77-81 | appends exactly the command's sealed record |
| Journal.AppendAll | src/journal.cpp:77-81 | a writer session adds exactly the commands' log to whatever the file held |
| Journal.FileGrows | src/journal.cpp:77-81 | so a journal of commands becomes the journal of their concatenation |
| Journal.ReplayJournal | src/journal.cpp:88-113 | the replay loop delivers the maximal prefix of sealed records, its extent, and whether the file ended there |
| Journal.CutAnywhere | src/journal.cpp:88-113 | a journal cut at any byte past the header replays exactly its whole records, with their exact extent, clean exactly at a record boundary; shorter files are refused |
| Journal.TruncateThenAppend | include/dme/journal.hpp:28-32 | truncating to valid_bytes and appending replays as the surviving prefix followed by the new commands |
| Journal.TornTailContinued | src/journal.cpp:56-75 | reopening a torn journal without truncating, as the writer does: nothing after the survivors is delivered exactly when the torn bytes followed by the new records do not happen to start with a sealed record; without a tear the new commands follow the old; the replay is clean exactly when there was no tear |
| Journal.AppendLost | src/journal.cpp:56-113 | in any format: one byte torn off the last record, and a next record that does not start with that byte, leave exactly the records before it, unclean, whatever follows |
| Layout.TornAppendLost | src/journal.cpp:56-113 | in the concrete format every journal has such a next command: the loss is real |
| Journal.CorruptionStopsReplay | src/journal.cpp:99-111 | any one byte of record i changed, command or checksum: exactly the i records before it are delivered and the end is unclean |
| Journal.CrashRecovery | src/journal.cpp:88-169 | a crash at any byte of the journal of a runner started on any sound book in admission order, and a snapshot of any later moment: replaying what survives onto the snapshot, or onto the starting book, gives the book as of the last whole record |
| Durability.CommandsConsecutive | src/gateway.cpp:46-47 | the gateway runner numbers its commands consecutively from its book's last sequence, short of a wrap |
| Durability.RunnerRecovers | src/gateway.cpp:37-59 | a running gateway under every interleaving, the book of any moment as snapshot, and its journal cut at any byte not before that moment: the snapshot restores, exactly the whole records replay, and replaying them over the snapshot gives the book after them, the live one if nothing was cut and no command was in hand |
| Snapshot.WriteSnapshot | src/journal.cpp:115-135 | writes the header and the listed orders of the live book |
| Snapshot.ReadSnapshot | src/journal.cpp:148-169 | yields a valid book exactly when header, count, length, checksum, configuration and orders all pass, and then the restored ladder |
| Snapshot.ImageRoundTrip | src/journal.cpp:115-169 | a book's image reads back as that very book if and only if the book is sound and in admission order |
| Snapshot.TruncationRefused | src/journal.cpp:152-165 | a snapshot cut short anywhere is refused |
| Snapshot.CorruptionRefused | src/journal.cpp:163-165 | any one byte of the orders changed: the snapshot is refused |
| Snapshot.Reload | src/journal.cpp:115-169 | saving any live book and loading it gives a valid book with the same ladder if and only if the ladder is sound and in admission order, for any hash function |
| Snapshot.ReloadAndCompare | src/journal.cpp:115-169 | a live book in admission order and its reloaded copy give the same answers to every later command stream and end in the same ladder |
| Layout.JournalLayout | src/journal.cpp:16-28 | the concrete 40-byte command, 8-byte checksum and 16-byte header satisfy everything assumed of a journal format |
| Layout.RecordLaidOut | include/dme/types.hpp:41-50 | every byte of a 48-byte record by offset: sequence, kind, side, type, padding, id, price, quantity, checksum of the first 40 |
| Layout.JournalOpens | src/journal.cpp:16-23 | the 16 bytes a journal starts with |
| Layout.SnapshotLayout | src/journal.cpp:17-36 | the concrete 72-byte header and 40-byte order satisfy everything assumed of a snapshot format |
| Layout.HeaderLaidOut | src/journal.cpp:17-36 | every byte of the 72-byte snapshot header by offset |
| Layout.OrderLaidOut | include/dme/order_book.hpp:28-34 | every byte of a 40-byte resting order by offset |
| Codec.Put | src/protocol.cpp:8-23 | writes the little-endian bytes at the offset and nothing else |
| Codec.Get | src/protocol.cpp:25-46 | the loop computes the little-endian value |
| Codec.DigitsNumber | src/protocol.cpp:8-46 | reading back what was written gives the value, at every width |
| Codec.NumberDigits | src/protocol.cpp:8-46 | writing back what was read gives the bytes |
| Codec.Signed | src/protocol.cpp:158 | the price whose two's-complement image is the word |
| Codec.EncodeRequest | src/protocol.cpp:99-124 | succeeds exactly when the window fits the frame and no identifier is zero; then lays the frame over the buffer, otherwise leaves it untouched |
| Codec.EncodeResponse | src/protocol.cpp:178-197 | succeeds exactly when the window fits 68 bytes and no identifier is zero; then lays the frame over the buffer, otherwise leaves it untouched |
| Codec.RequestRoundTrip | src/protocol.cpp:99-176 | an encoded request decodes to itself up to the fields its frame omits, consuming exactly its frame, whatever follows |
| Codec.DecodeExact | src/protocol.cpp:73-176 | the decoder yields a request if and only if the bytes start with that request's frame, reserved bytes apart, its identifiers are nonzero and the fields its frame omits have their defaults; it consumes exactly the frame |
| Codec.DecodeResponseExact | src/protocol.cpp:199-237 | likewise for responses |
| Codec.DecodedIsCanonical | src/protocol.cpp:126-176 | whatever decodes re-encodes to a frame of the same length that decodes to the same request |
| Codec.ResponseRoundTrip | src/protocol.cpp:178-237 | an encoded response decodes to itself, consuming exactly 68 bytes, whatever follows |
| Codec.PrefixesNeedMore | src/protocol.cpp:73-86 | every strict prefix of a request or response frame asks for more data |
| Codec.DecodeStable | src/protocol.cpp:126-237 | any answer but NeedMoreData is unchanged by bytes appended |
| Codec.NeedMoreIsShort | src/protocol.cpp:76-81 | asking for more means holding fewer than 80 bytes |
| Wire.DecodedBytes | src/protocol.cpp:126-176 | byte by byte: a request is decoded exactly from bytes with the magic, version, message code, length, and each field at its offset as a little-endian sum, enumerations by number, identifiers nonzero, omitted fields at their defaults; exactly the stated length is consumed |
| Wire.RefusedBytes | src/protocol.cpp:73-86 | where nothing is decoded, the status is that of the first check that fails, in terms of the bytes |
| Wire.EncodedBytes | src/protocol.cpp:62-124 | byte by byte: every field of a written request frame at its offset, zeros in the reserved bytes |
| Wire.DecodedEventBytes | src/protocol.cpp:199-237 | likewise for decoded responses |
| Wire.EncodedEventBytes | src/protocol.cpp:178-197 | likewise for written response frames |
| Stream.ParseLeaves | apps/gateway.cpp:190-197 | what a pass leaves is the end of the input; it is refused exactly when the stream is found broken, and otherwise waits for more and is shorter than a frame |
| Stream.ParseResumes | apps/gateway.cpp:190-219 | parsing a first part and resuming on its leftover equals parsing the whole, malformed frames included |
| Stream.ChunksDoNotMatter | apps/gateway.cpp:176-225 | the requests decoded, the leftover and the disconnect depend only on the concatenated bytes |
| Stream.SentIsReceived | apps/gateway.cpp:176-225 | the frames of any encodable requests, cut up anyhow, are decoded as exactly those requests with nothing left |
| Stream.Connection.constructor | apps/gateway.cpp:36-46 | both buffers empty, 65536 bytes to receive and 262144 to transmit |
| Stream.Connection.ReadRequests | apps/gateway.cpp:176-225 | decodes in place exactly the frames of leftover plus received bytes, keeps the remainder at the front; the stream is found well formed exactly when parsing finds no malformed frame, and the remainder is then shorter than a frame, so the full-buffer disconnect is never taken |
| Stream.Connection.QueueResponse | apps/gateway.cpp:150-168 | succeeds exactly when the unsent bytes plus one frame fit the buffer and no identifier is zero, wherever they lie; then appends the frame, otherwise keeps them |
| Stream.Connection.Sent | apps/gateway.cpp:227-246 | the bytes taken by the socket leave the front of the queue |
| Gateway.RiskIsExact | src/gateway.cpp:7-16 | the guarded 64-bit test refuses exactly the orders outside the limits over unbounded integers |
| Gateway.SessionValidator.ValidateAndAdvance | src/gateway.cpp:18-25 | a wrong session or client sequence is answered InvalidSessionSequence and moves nothing; otherwise the next sequence moves by one, modulo 2^64, and the answer is RiskLimit exactly when the limits are exceeded |
| Gateway.HandleRequest | apps/gateway.cpp:204-213 | one request, the engine meanwhile taking any number of requests: pushed to the ring, or answered with the validator's reason or backpressure, or the connection closes; what leaves the ring plus what it holds, and the queued frames, grow by exactly that |
| Gateway.HandleRequests | apps/gateway.cpp:198-214 | all decoded requests in turn, the engine taking any number of requests before each; the first binds the session, unless another connection holds it |
| Gateway.Service | apps/gateway.cpp:176-225 | one turn of a connection, the engine at work on the ring throughout: bytes taken, frames decoded, requests handled; ring, transmit buffer, leftover and session change as specified, closed connections included, and it stays open exactly while the stream is well formed and every request could be forwarded or answered |
| Gateway.AdmissionTheorem | apps/gateway.cpp:198-214 | whatever a client sends, the engine sees one session only, that of the first request unless another connection holds it and the connection closes, within the limits, in strictly increasing client sequence |
| Gateway.HandleAccounts | apps/gateway.cpp:204-213 | every request handled, in order: due, within the limits and with room in the ring it is forwarded; else it is answered with InvalidSessionSequence, RiskLimit or GatewayBackpressure, the first that applies, addressed to its sender and quoting its order; the connection is open exactly when no request is left over; no more is pushed than was free or freed meanwhile, and the transmit buffer is not overrun |
| Gateway.SequenceCounts | src/gateway.cpp:18-25 | over any list of requests the next client sequence is the first plus the number that arrived with the session and sequence expected at that moment, modulo 2^64 |
| Gateway.WireIsAdmissible | src/protocol.cpp:126-176 | whatever bytes arrive, a request that decoding and validation forward carries no omitted field and has quantity at most 10^6, price at most 10^9 and notional at most 10^11, where they apply |
| Gateway.GatewayMatchesReference | apps/gateway.cpp:34 | end to end on the gateway's book: for requests forwarded from any received bytes, under every interleaving, popped responses carry in order the events of the linear-scan book on the requests' own commands numbered from 1 |

## Left out

- Sockets, epoll, signals, accept and close, and bytes that arrive together with end of file: system
  plumbing.
- Routing of late responses after a session reconnects: depends on connection timing.
- Weak memory below the interleaving of atomic accesses, yields, and fairness between the threads.
- File system semantics: rename, flush, durability. A file is its byte sequence.
- Corruption of a journal or snapshot header: the checksums do not cover it, so nothing is claimed.
- The mixing function of the id index: proofs hold for every hash.
- `best_bid`, `best_ask` and `quantity_at`: one-line readers of what BestIndex and the level totals
  already state; a returned 0 is ambiguous where 0 is a valid price.
- Reserved bytes of commands and events: always zero in the source, not part of the model's records.
- Reserving and growing of vectors, allocation failure.
- Benchmarks, command line output, text names of events.
- Spsc.SpscQueue.TryPush: the method is the call alone; Spsc.PushLinearizes and Spsc.RingTheorem
  state it amid the consumer's accesses.
- Spsc.SpscQueue.TryPop: the method is the call alone; Spsc.PopLinearizes and Spsc.RingTheorem state
  it amid the producer's accesses.
- Stream.Connection.ReadRequests: buffering and decoding only; validation, ring and answers are
  stated by Gateway.Service.
- Gateway.Service: the engine takes requests between pushes, not in the middle of one;
  Spsc.PushLinearizes is why that loses no behaviour.
- Journal.CrashRecovery: for a journal whose sequences count up without wrapping from the book the
  runner started on.
- Gateway.GatewayMatchesReference: for runs of fewer than 2^64 requests with the default limits, as
  the gateway is configured.
