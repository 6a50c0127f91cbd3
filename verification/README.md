# A verified model of the toolbox's hard parts

This project models, in Dafny, the parts of the Reactive C++ Toolbox whose correctness is least obvious from
reading one function, and proves what they are for. `dafny verify dfyconfig.toml` checks everything.

| component | files | what is modelled |
|---|---|---|
| bounded MPMC queue | `MpmcMachine`, `MpmcProofs`, `MpmcFifo`, `MpmcInit`, `MpmcQueue` | every atomic access of `read` and `write` as a step of an interleaved machine for any number of threads, with weak compare-exchanges failing at will; and the two retry loops as methods on shared arrays, run under interference |
| Robin Hood hash table | `RobinHoodLayout`, `RobinHoodWords`, `RobinHoodGrowth`, `RobinHood`, `RobinHoodOverflow` | one info byte per slot, lookups, insertion by shifting up, deletion by shifting down, halving of info bytes eight at a time, rehashing, growth |
| timers | `TimerLog`, `TimerUse`, `TimerPeriodic`, `TimerHeap`, `TimerState`, `TimerQueue` | the binary heap, lazy cancellation, garbage collection, periodic timers, callbacks that use the queue, reference counts, slabs and the free list |
| HDR histogram | `HdrIndex`, `HdrRanks`, `HdrHistogram` | bit-level bucketing, recording, the iterator, percentile queries by rank |
| HTTP parser | `HttpChars`, `HttpBody`, `HttpChunks`, `HttpChunksStandard`, `HttpExecute`, `HttpLength`, `HttpUrl`, `HttpUrlText`, `HttpUrlServer`, `HttpUrlExact`, `HttpUrlWidth` | the chunked and content-length body states, bulk skipping of data, the content-length value, the two-pass URL splitter and the grammar of the URLs it accepts |
| smaller cores | `RingMachine`, `RingBuffer`, `Date`, `Frame` | the SPSC byte ring over a doubled mapping, calendar arithmetic, length-prefixed framing over a compacting buffer |

`Bits` holds the shifts, masks and leading-zero counts they share, as recursive functions on natural numbers.

How to read it. Where the source changes state step by step, the model is a class whose methods do the same, each
proved against a function or relation on values; what the source promises is then proved about those. Ghost
fields record history: what was recorded, written, or fired. Threads are modelled as sequentially consistent
interleavings. In the timer queue a cell number stands for a pointer, `Handles` says who holds references, and a
ghost log records insertions, cancellations and firings; `Replay` gives the timers that are armed after a log, and
`Legal` says that every firing was of an armed, due timer of least expiry. A callback is any finite list of
operations chosen afresh for each firing; `TimerUse` says what each operation, callback, dispatch and sequence of
calls does to what users see, which is the log, the cells the timers were given, and their own handles. Characters are
bytes; `HttpChars` lists which are digits, letters and so on, and the parser's tests for them are proved to hold of
just those.

Where the code falls short of its documentation or of what one would expect, the model follows the code:

- The in-memory constructor of `MpmcQueue` rounds the capacity up but numbers only as many slots as were asked for
  (toolbox/ipc/MpmcQueue.hpp:56-69). Such a queue works for good exactly when the capacity asked for is a power of
  two; otherwise it never accepts more writes than that in all. (`MpmcInit.MemoryQueueLastsExactly`)
- `TimerQueue::size()` under-reports by the number of timers that, since the last collection of stale heap entries,
  were cancelled in their own callbacks, by name or by losing their last user's handle there: they are not in the
  heap then, but are counted. It is right if and only if there were none. (`TimerQueue.Queue.SizeCounts`,
  `TimerQueue.SizeUnderReports`)
- `next_pow2` shifts a 32-bit one: above 2^30 it gives 0xffffffff80000000, and beyond 2^31 the shift count is out of
  range. (`Bits.NextPow2Exactly`)
- A rehash throws, and the entries not moved by then are lost to the table, if and only if some window of home slots
  gets at least 126 more keys than it has slots while another entry is still to be moved.
  (`RobinHood.Table.RehashPowerOfTwo`, `RobinHoodOverflow.RehashThrows`)
- An insertion fails exactly when growing, up to 256 times, meets such a rehash or never makes room; with up to 126
  entries it succeeds. A hash that sends every key to one slot stops at 127 entries. (`RobinHood.Table.InsertOrAssign`,
  `RobinHoodOverflow.GivesUp`)
- The checks in the constructor of `HdrBucketConfig` come after its initialisers. A magnitude that is too large is
  never reported, unless the highest value is negative: the search for the number of buckets doubles nought for ever.
  (`HdrHistogram.MakeConfig`, `HdrHistogram.NeverMade`)
- `record_values` is documented to refuse values above the highest trackable one
  (toolbox/hdr/Histogram.hpp:134-149); it refuses those from the end of the last bucket on, which is the same if and
  only if one more than the highest is a power of two and not below the end of the first bucket.
  (`HdrHistogram.DocumentedExactly`, `HdrHistogram.RecordsBeyondHighest`)
- The highest value of the very last class of a histogram whose range ends at 2^63 is computed by way of 2^63.
  (`HdrHistogram.NextFitsExactly`, `HdrHistogram.EndsAtLimit`)
- When the byte behind a chunk's data is wrong, the part of the data that came in the same buffer is not handed
  to the user, so what an erroneous stream delivers depends on how it was cut. (`HttpExecute.HttpParser.Execute`,
  `HttpExecute.DeliveryDependsOnCut`)
- Offsets and lengths of URL components are kept in sixteen bits and wrap silently beyond. The components of a URL come
  out right if and only if each of their offsets and lengths fits, and the length of the server part does; otherwise a
  path may be reported with length nought, and what is no URL may be accepted. (`HttpUrlWidth.RightExactly`,
  `HttpUrlWidth.LongPathAccepted`, `HttpUrlWidth.NotUrlAccepted`)
- A URL whose server part is followed at once by a `#` is refused, though section 3 of RFC 3986 allows a fragment
  there; a lone `?` or `#` at the end makes no component. (`HttpUrlExact.AcceptsExactly`, `HttpUrlExact.NoHashBehindServer`)
- The parser ends an empty trailer section at a bare line feed too. (`HttpChunks.AcceptsExactlyEncodings`)
- The table of hexadecimal digits has 256 places but values for ASCII only (toolbox/contrib/http_parser.c:224-233), so
  that every byte from 0x80 on counts as the digit nought in the size of a chunk. An accepted stream is chunked coding
  by section 4.1 of RFC 7230 if and only if no such byte is among the digits of its sizes.
  (`HttpChunksStandard.StandardExactly`, `HttpChunksStandard.HighByteAccepted`)

## Model

| member | source | states |
|---|---|---|
| Bits.IsPow2Exact | toolbox/util/Math.hpp:31-34 | The bit trick accepts exactly the powers of two |
| Bits.NextPow2Least | toolbox/util/Math.hpp:37-48 | Up to 2^30 the result is a power of two, at least the argument and less than twice it; powers of two are fixed |
| Bits.NextPow2Exactly | toolbox/util/Math.hpp:44-48 | With its 32-bit shift, the result is that power of two if and only if the argument is at most 2^30; from there to 2^31 it is 2^64 - 2^31 |
| MpmcProofs.RunKeepsInv | toolbox/ipc/MpmcQueue.hpp:164-217 | From any sound state, every interleaving keeps the invariant: slot numbers, ticket owners, and 0 <= wpos - rpos <= capacity |
| MpmcFifo.QueueIsFifo | toolbox/ipc/MpmcQueue.hpp:164-217 | Every run of a queue made by `new_mpmc_queue`, for up to 2^30 slots, is a run of a FIFO of the rounded-up capacity |
| MpmcFifo.RunRefinesFifo | toolbox/ipc/MpmcQueue.hpp:164-217 | The enqueues and dequeues of a run, in ticket order of the winning compare-exchanges, are legal on a bounded FIFO and end in its contents |
| MpmcFifo.SlotsAreExclusive | toolbox/ipc/MpmcQueue.hpp:164-217 | In no reachable state are two threads inside the same slot |
| MpmcFifo.TakeDeliversOnce | toolbox/ipc/MpmcQueue.hpp:164-190 | The winner of read ticket t takes exactly what the winner of write ticket t stored, and nobody took it before |
| MpmcFifo.DeliveriesAreFinal | toolbox/ipc/MpmcQueue.hpp:164-217 | A ticket once delivered stays delivered with the same value |
| MpmcFifo.WriteFailsExactly | toolbox/ipc/MpmcQueue.hpp:192-217 | `write` gives up at its slot load exactly when its position is the current one and the queue is full or a reader is still inside the slot's previous ticket; it retries only when its position is out of date |
| MpmcFifo.ReadFailsExactly | toolbox/ipc/MpmcQueue.hpp:162-190 | `read` gives up at its slot load exactly when its position is the current one and the queue is empty or the front ticket is won but not published; it retries only when its position is out of date |
| MpmcFifo.CasFailureMeansLost | toolbox/ipc/MpmcQueue.hpp:172-213 | Apart from spurious failures, a retry means that the shared position has moved past the local one |
| MpmcInit.SoloWrite | toolbox/ipc/MpmcQueue.hpp:192-217 | A writer left alone finishes in one attempt: it appends its value, unless the queue is full or a reader still holds the slot |
| MpmcInit.SoloRead | toolbox/ipc/MpmcQueue.hpp:162-190 | A reader left alone finishes in one attempt: it takes the oldest value, unless there is none or it is not published yet |
| MpmcInit.MemoryInitInv | toolbox/ipc/MpmcQueue.hpp:56-69 | The in-memory constructor establishes the invariant exactly for powers of two |
| MpmcInit.MemoryQueueLastsExactly | toolbox/ipc/MpmcQueue.hpp:56-69 | For up to 2^30 slots, it makes a queue that accepts any number of writes if and only if the capacity asked for is a power of two; otherwise no run accepts more writes than that |
| MpmcQueue.Queue.constructor | toolbox/ipc/MpmcQueue.hpp:253-273 | The file initialiser: capacity rounded up, slot i numbered i, in the sound initial state |
| MpmcQueue.Queue.InMemory | toolbox/ipc/MpmcQueue.hpp:56-69 | The in-memory constructor: the same but for the slots left unnumbered |
| MpmcQueue.Queue.Write | toolbox/ipc/MpmcQueue.hpp:192-217 | The whole retry loop, under any interference, is a run of the machine in which this thread makes just this call; it terminates, and a winner's ticket is a new one that one of its own steps won, and carries the value |
| MpmcQueue.Queue.Read | toolbox/ipc/MpmcQueue.hpp:162-190 | The same for reading; the ticket is one its own step won and was not delivered before, and the value is the one logged for it |
| RobinHoodLayout.NoEarlyMiss | toolbox/contrib/robin_hood.h:1417-1442 | From home to where a key is stored, no info byte is below the key's probe, so the early exits never miss a key |
| RobinHoodLayout.MissMeansAbsent | toolbox/contrib/robin_hood.h:1417-1442 | A probe that meets a smaller info byte proves the key absent |
| RobinHoodLayout.EntriesSorted | toolbox/contrib/robin_hood.h:1347-1394 | Over the whole table, entries are in order of their home slots, and with the same home slot in descending order of their hash bits |
| RobinHoodLayout.NoGaps | toolbox/contrib/robin_hood.h:1375-1415 | No slot is empty between an entry's home slot and the entry |
| RobinHoodLayout.FarNeedsMany | toolbox/contrib/robin_hood.h:1375-1415 | An entry is less far from home than there are entries |
| RobinHoodLayout.TightNeedsMany | toolbox/contrib/robin_hood.h:2359-2376 | At the finest unit, a byte without room for one more unit means at least 127 entries |
| RobinHoodLayout.FarExactly | toolbox/contrib/robin_hood.h:2359-2376 | At the finest unit, and at no other, a byte is without room if and only if its entry is at least 126 slots from home |
| RobinHoodLayout.CrowdedMeansFar | toolbox/contrib/robin_hood.h:1375-1394 | A window of home slots with at least 126 more keys than slots pushes some entry that far from home |
| RobinHoodLayout.FarMeansCrowded | toolbox/contrib/robin_hood.h:1375-1394 | An entry that far from home means such a window |
| RobinHoodLayout.ProbeStopsAtEnd | toolbox/contrib/robin_hood.h:2128-2141 | No probe outranks the sentinel or what lies behind it |
| RobinHoodLayout.InsertKeepsLayout | toolbox/contrib/robin_hood.h:1375-1394 | Shifting a run up into an empty slot and putting a new key at its insertion point keeps the layout and adds exactly that key |
| RobinHoodLayout.InsertionInfoFits | toolbox/contrib/robin_hood.h:2359-2376 | While every info byte leaves room for one more unit, the new key's info byte fits eight bits |
| RobinHoodLayout.TableHasRoom | toolbox/contrib/robin_hood.h:2137-2141 | The overflow tail guarantees an empty slot at or after any home slot |
| RobinHoodLayout.EraseKeepsLayout | toolbox/contrib/robin_hood.h:1396-1415 | Shifting the displaced run down over a removed entry keeps the layout and removes exactly that key |
| RobinHoodLayout.HalvingKeepsLayout | toolbox/contrib/robin_hood.h:2384-2410 | Halving every info byte is the layout of the same entries with half the unit and one hash bit fewer, with room again |
| RobinHoodWords.HalveWordHalvesBytes | toolbox/contrib/robin_hood.h:2400-2404 | One shift and one mask of a 64-bit word halve its eight bytes independently |
| RobinHoodGrowth.FailingIsCrowded | toolbox/contrib/robin_hood.h:2202-2235 | A failing rehash means a crowded window among all entries, and at least 127 of them |
| RobinHoodGrowth.SpareUnlessCrowded | toolbox/contrib/robin_hood.h:2413-2441 | A table stopped below its allowance has a hash bit to give up, unless a window is crowded |
| RobinHoodGrowth.FewGetRoom | toolbox/contrib/robin_hood.h:2413-2441 | With up to 126 entries growing always makes room, in at most three steps |
| RobinHood.Table.KeyToIdx | toolbox/contrib/robin_hood.h:1348-1361 | The five low bits of the hash, less those given up, go to the info byte; the bits above them, modulo the number of home slots, choose one |
| RobinHood.Table.FindIdx | toolbox/contrib/robin_hood.h:1417-1442 | The key is found if and only if the map has it, at the slot with its value; otherwise the end index |
| RobinHood.Table.ShiftUp | toolbox/contrib/robin_hood.h:1375-1394 | Exactly the run moves up one slot, each info byte one unit more; insertions are stopped if and only if some byte leaves no room for another unit |
| RobinHood.Table.ShiftDown | toolbox/contrib/robin_hood.h:1396-1415 | Exactly the run of displaced entries moves down one slot, each info byte one unit less, and its last slot is emptied |
| RobinHood.Table.Erase | toolbox/contrib/robin_hood.h:2036-2054 | Exactly the key is removed from the map; the result counts it |
| RobinHood.Table.TryIncreaseInfo | toolbox/contrib/robin_hood.h:2384-2410 | Same map with half the unit, possible exactly while the unit is above two |
| RobinHood.Table.InitData | toolbox/contrib/robin_hood.h:2304-2324 | A sound empty table of the size asked for |
| RobinHood.Table.InsertMove | toolbox/contrib/robin_hood.h:1450-1491 | Adds exactly an absent key, at its place, if and only if insertions are allowed or a hash bit is left to give up; else everything stays |
| RobinHood.Table.RehashPowerOfTwo | toolbox/contrib/robin_hood.h:2202-2235 | Fails if and only if some prefix of the old entries, in slot order and with another one behind it, has a crowded window under the new size and multiplier; else the same map, in exactly the table `Rehashed` says |
| RobinHood.Table.IncreaseSize | toolbox/contrib/robin_hood.h:2413-2447 | Allocates, gives up a hash bit, rehashes at the same size or doubles, each in exactly its case and with exactly the table `Grown` says; the multiplier changes exactly in the third case, and stays odd; fails if and only if the rehash does |
| RobinHood.Table.SeekKey | toolbox/contrib/robin_hood.h:2334-2349 | The insertion probe finds the key exactly when it is there, and else stops where the key belongs |
| RobinHood.Table.ConstructAt | toolbox/contrib/robin_hood.h:2283-2287 | A node is constructed only in a slot without one; the key is added with its value |
| RobinHood.Table.OverwriteAt | toolbox/contrib/robin_hood.h:2289-2293 | A node is assigned to only where there is one; the key is added with its value |
| RobinHood.Table.InsertKeyPrepareEmptySpot | toolbox/contrib/robin_hood.h:2331-2382 | Says whether the key is in the map; if not, a slot is ready in which any value makes a sound table with just that key added, or growing fails as `Outcome` says. It returns `overwrite_node` if and only if a node is still in that slot, which is where the key goes in the table grown to; `new_node` if and only if none is |
| RobinHood.Table.InsertOrAssign | toolbox/contrib/robin_hood.h:2274-2302 | Maps exactly the key to the value. For an absent key, what happens is exactly what `Outcome` of the table before says: the entry in the table grown to, constructed if and only if its slot there was empty and else assigned, or the exception, or giving up; with up to 126 entries it succeeds |
| RobinHood.Table.StuckExactly | toolbox/contrib/robin_hood.h:1450-1491 | While nothing is erased, insertions are stopped at the finest unit if and only if a window is crowded |
| RobinHoodOverflow.RehashThrows | toolbox/contrib/robin_hood.h:2202-2235 | A table of 130 keys with the home slots 255 and 256: the next insertion doubles it, and throws |
| RobinHoodOverflow.GivesUp | toolbox/contrib/robin_hood.h:2331-2382 | A table of 127 keys with one home slot: the next insertion grows 256 times and gives up |
| TimerHeap.PushHeap | toolbox/io/Timer.cpp:66-71 | Heap order again, same entries; the front is the old one or the new entry |
| TimerHeap.PopHeap | toolbox/io/Timer.hpp:234-240 | Heap order again, exactly the front entry gone |
| TimerHeap.MakeHeap | toolbox/io/Timer.hpp:226-230 | Any entries are put in heap order |
| TimerHeap.FrontIsEarliest | toolbox/io/Timer.hpp:242-245 | No entry expires before the front |
| TimerLog.CancelledNeverFires | toolbox/io/Timer.hpp:261-268 | After its cancellation a timer never fires |
| TimerLog.OneShotFiresOnce | toolbox/io/Timer.cpp:118-135 | A timer without an interval fires at most once in all |
| TimerLog.DispatchFiresInOrder | toolbox/io/Timer.hpp:197-216 | Within one dispatch timers fire in order of expiry, whatever the callbacks do to the queue |
| TimerLog.DispatchLogDuring | toolbox/io/Timer.hpp:197-216 | A dispatch logs as many firings as it returns, all at its time |
| TimerLog.FiresExactlyDue | toolbox/io/Timer.hpp:197-216 | With idle callbacks, exactly the timers due fire, each once, and exactly those are settled: periodic ones to the least time that is in the future and an interval on at least |
| TimerLog.FiringProgress | toolbox/io/Timer.cpp:105-136 | A firing leaves strictly fewer timers due, if its callback inserts none already due |
| TimerLog.LegalSettles | toolbox/io/Timer.cpp:118-135 | In every legal log, a timer still armed as its callback ends gets, if periodic, the least expiry later than now and no earlier than the old one plus its interval, with the same interval and handler; if not, it is done; no other timer is touched |
| TimerLog.SelfCancelsSince | toolbox/io/Timer.cpp:91-103 | The number of self-cancellations grows between two logs if and only if there was one in between |
| TimerUse.CancelledByOp | toolbox/io/Timer.hpp:261-268 | A timer cancelled by an operation, in a callback or between calls, by name or by its last handle, never fires after it |
| TimerUse.DispatchedGrows | toolbox/io/Timer.hpp:197-216 | What callbacks do in a dispatch is all that is logged between a firing and its settling |
| TimerPeriodic.FiresOnceIfDue | toolbox/io/Timer.hpp:197-216 | A periodic timer nobody cancels fires in a dispatch once if it is due at its start, else not at all, whatever callbacks do; it is settled, or stays as it is |
| TimerPeriodic.CallFires | toolbox/io/Timer.hpp:197-216 | The same of any call, as users see it; what is no dispatch neither fires nor changes the timer |
| TimerPeriodic.KeepsItsRate | toolbox/io/Timer.cpp:118-128 | Over any sequence of calls with one dispatch in each interval from its expiry e on, at e, e + i, e + 2i or later within it, a periodic timer nobody cancels fires once in each, and its expiry does not drift |
| TimerQueue.Queue.PoolAlloc | toolbox/io/Timer.cpp:35-59 | A cell nobody uses is set aside: the head of the free list, or else the first of a new slab, whose other cells go on the list; all other cells stay |
| TimerQueue.Queue.Insert | toolbox/io/Timer.cpp:61-89 | The timer with the next id is armed, in the heap and in its user's hands, in a cell nobody used; the heap order and the counts hold |
| TimerQueue.Queue.Release | toolbox/io/Timer.cpp:138-153 | One handle less; the last but one of a pending timer cancels it, the last one frees the cell, others change nothing else |
| TimerQueue.Queue.Dealloc | toolbox/io/Timer.hpp:145-150 | The cell is on the free list, at its head, and out of use |
| TimerQueue.Queue.Pop | toolbox/io/Timer.hpp:234-240 | The front's handle leaves the heap for the caller; every count stays right |
| TimerQueue.Queue.Gc | toolbox/io/Timer.hpp:222-233 | Collects if and only if more than half of the heap counts as cancelled; then nothing stale is left, the counts agree, and this is the last collection |
| TimerQueue.Queue.CancelQueue | toolbox/io/Timer.cpp:91-103 | The count never falls below the stale entries; afterwards the front is pending and no more than half of the heap counts as cancelled |
| TimerQueue.Queue.CancelTimer | toolbox/io/Timer.hpp:261-268 | A pending timer is disarmed, and miscounted only if it was not in the heap; any other is left alone |
| TimerQueue.Queue.DropHandle | toolbox/io/Timer.cpp:138-153 | Dropping the last user's handle of a pending timer cancels it; otherwise no timer changes |
| TimerQueue.Queue.Expire | toolbox/io/Timer.cpp:105-136 | The front fires, its callback does exactly its operations, in order, and it is settled: if periodic and still pending, to the least expiry that is in the future and an interval on at least, with interval and handler kept; done otherwise |
| TimerQueue.Queue.Dispatch | toolbox/io/Timer.hpp:197-216 | Terminates; the nth firing's callback does exactly the nth list of operations and nothing else happens; every timer fired is settled as it has to be; nothing is due afterwards; with idle callbacks exactly the due timers fired, once each |
| TimerQueue.Queue.Apply | toolbox/io/Timer.cpp:109-116 | Each operation, of a callback or between calls, has exactly its effect on the log, the timers' cells and the users' handles, and keeps every invariant |
| TimerQueue.Queue.SizeCounts | toolbox/io/Timer.hpp:183 | `size()` is the number of pending timers less the self-cancellations since the last collection, so right if and only if no timer was cancelled by its own callback since then; the count is never below the stale entries |
| TimerQueue.Queue.Serve | toolbox/io/Timer.hpp:160-271 | Any sequence of calls, dispatches with any callbacks included, leaves the queue in order and tidy, with a pending front, and does call by call what it should to what users see; nothing is due behind a dispatch |
| TimerQueue.Queue.HeapStaysSmall | toolbox/io/Timer.hpp:222-233 | Between calls the heap is at most twice as long as there are pending timers |
| TimerQueue.Queue.FrontIsNext | toolbox/io/Timer.hpp:185 | Between calls the front is a pending timer of least expiry |
| TimerQueue.Queue.CellsAreOwned | toolbox/io/Timer.hpp:41-52 | Each cell is either on the free list, once, with no handle, or its reference count is its number of handles |
| TimerQueue.Queue.PendingHasUser | toolbox/io/Timer.cpp:141-149 | Between calls a pending timer has a user, and is down to two references exactly when it has one |
| TimerQueue.SizeUnderReports | toolbox/io/Timer.cpp:91-136 | Three timers, the first cancelling itself: two pending, and a size of one |
| HdrIndex.BucketBounds | toolbox/hdr/Histogram.cpp:248-253 | The leading-zero count of the masked value puts it in the bucket whose range it is in |
| HdrIndex.SizeIsWidth | toolbox/hdr/Histogram.cpp:180-187 | The branch for a sub-bucket index beyond the sub-bucket count is never taken |
| HdrIndex.InOwnClass | toolbox/hdr/Histogram.cpp:146-156 | Every value lies from its lowest equivalent value up to below the next non-equivalent one |
| HdrIndex.IndexMonotone | toolbox/hdr/Histogram.cpp:255-272 | Counter indices never decrease with the value |
| HdrIndex.ValueAtIndexFor | toolbox/hdr/Histogram.cpp:168-178 | The value at a value's index is its lowest equivalent value |
| HdrIndex.IndexForValueAt | toolbox/hdr/Histogram.cpp:168-178 | Every index is the index of the value at it |
| HdrIndex.ClassesTile | toolbox/hdr/Histogram.cpp:189-192 | The next non-equivalent value is the value at the next index: the classes leave no gap |
| HdrIndex.EquivalentExactly | toolbox/hdr/Histogram.cpp:141-156 | Equal lowest values, equal indices and lying in the same class are one and the same |
| HdrIndex.ClassEnds | toolbox/hdr/Histogram.cpp:146-156 | The lowest and the highest equivalent value are the least and the greatest that share the value's counter; one more does not |
| HdrIndex.MedianIs | toolbox/hdr/Histogram.cpp:194-197 | The median equivalent value is half way from the least of the class to the one behind its greatest |
| HdrIndex.HasCounterExactly | toolbox/hdr/Histogram.cpp:217-229 | A value has a counter if and only if it is below the end of the last bucket |
| HdrIndex.Precision | toolbox/hdr/Histogram.cpp:62-98 | Class width times ten to the significant figures is at most the value, from the sub-bucket count on; below, classes are one unit wide |
| HdrIndex.MagnitudeIsLeast | toolbox/hdr/Histogram.cpp:62-68 | The half-count magnitudes are the least that give the resolution |
| HdrIndex.BucketsNeeded | toolbox/hdr/Histogram.cpp:41-54 | The least number of buckets covering a value, with no overflow on the way, when the first bound fits |
| HdrIndex.EndsExactly | toolbox/hdr/Histogram.cpp:41-54 | With 64-bit wrap-around, the search for the number of buckets ends if and only if the first bound fits 63 bits or the value is negative |
| HdrHistogram.MakeConfig | toolbox/hdr/Histogram.cpp:72-98 | For exactly which arguments the constructor returns, throws, goes on for ever, or is left undefined; a configuration made covers the highest trackable value with the least number of buckets, and for which arguments recording is as documented |
| HdrHistogram.NeverMade | toolbox/hdr/Histogram.cpp:72-98 | From 2^58 to 2^62 with one significant figure every check would pass but the last, and the constructor never gets to it |
| HdrHistogram.DocumentedExactly | toolbox/hdr/Histogram.hpp:134-149 | Just the values up to the highest trackable one are accepted if and only if one more than it is a power of two, not below the end of the first bucket |
| HdrHistogram.RecordsBeyondHighest | toolbox/hdr/Histogram.cpp:217-229 | With one significant figure from 1 to 1000, 1023 is recorded |
| HdrHistogram.EndsAtLimit | toolbox/hdr/Histogram.cpp:189-192 | From 1 to the greatest 64-bit integer, the documentation holds and the next non-equivalent value of the last class is 2^63 |
| HdrHistogram.NextFitsExactly | toolbox/hdr/Histogram.cpp:189-192 | The next non-equivalent value reaches 2^63 exactly for the last class of a range that ends there |
| HdrHistogram.Histogram.RecordValues | toolbox/hdr/Histogram.cpp:217-229 | Accepts exactly the values with a counter, and adds exactly that sample to what is recorded |
| HdrHistogram.Histogram.TotalIsSum | toolbox/hdr/Histogram.cpp:282-287 | The total is the sum of the counters |
| HdrHistogram.Histogram.Min | toolbox/hdr/Histogram.cpp:125-131 | Nothing recorded is less, and it is the least value that shares the counter of the least recorded |
| HdrHistogram.Histogram.Max | toolbox/hdr/Histogram.cpp:133-139 | Nothing recorded is greater; it shares the counter of the greatest recorded, and is the greatest value that does: one more does not |
| HdrHistogram.Histogram.Reset | toolbox/hdr/Histogram.cpp:204-210 | Nothing is recorded any more, and everything agrees with that |
| HdrHistogram.Iterator.MoveNext | toolbox/hdr/Iterator.cpp:83-99 | The next counter, the least, greatest and median value that share it, and the sum of the counters so far; false past the end |
| HdrHistogram.Iterator.Next | toolbox/hdr/Iterator.cpp:41-48 | The same, noting the value stepped from and to |
| HdrHistogram.Iterator.BasicNext | toolbox/hdr/Iterator.cpp:74-81 | Moves exactly while counts are left and buckets are left |
| HdrRanks.RankIndex | toolbox/hdr/Utility.cpp:51-64 | The index at which the counts reach a rank is that of the value of that rank |
| HdrRanks.RankExists | toolbox/hdr/Utility.cpp:51-64 | Every rank up to the total has a value |
| HdrRanks.RankUnique | toolbox/hdr/Utility.cpp:51-64 | And only one |
| HdrHistogram.ValueAtRank | toolbox/hdr/Utility.cpp:51-64 | The greatest value that shares the counter of the exact value of that rank among all recorded, one more not; nought beyond the total |
| HttpBody.RunKeepsGood | toolbox/contrib/http_parser.c:1873-2045 | The assertions inside the body states hold in every run |
| HttpBody.IdentityBody | toolbox/contrib/http_parser.c:1873-1907 | A body of length n is exactly the next n bytes |
| HttpBody.Unhex | toolbox/contrib/http_parser.c:224-233 | A hexadecimal digit is worth its place in the list of them, in either case, a byte beyond ASCII nought, and just what is neither is refused |
| HttpBody.ChunkSizeExactly | toolbox/contrib/http_parser.c:1925-1982 | A chunk size is accepted exactly under the overflow guard; it is the number its digits stand for, each worth its place in the list of digits, never the marker |
| HttpChunks.DecodesEncoding | toolbox/contrib/http_parser.c:1925-2045 | Decoding the encoding of any non-empty chunks gives them back, and the message ends with the encoding |
| HttpChunks.AcceptsExactlyEncodings | toolbox/contrib/http_parser.c:1925-2045 | Trailer fields aside, which are not modelled and count as errors, a stream is accepted if and only if it begins with such an encoding |
| HttpChunks.BodyOfChunks | toolbox/contrib/http_parser.c:1999-2033 | The body bytes told are the chunks' data joined |
| HttpChunksStandard.EncodingUnique | toolbox/contrib/http_parser.c:1925-2045 | A stream can be read as an encoding in one way only |
| HttpChunksStandard.StandardExactly | toolbox/contrib/http_parser.c:224-233 | An accepted stream is an encoding with hexadecimal sizes, as section 4.1 of RFC 7230 has them, if and only if no byte beyond ASCII is among the digits of its sizes |
| HttpChunksStandard.HighByteAccepted | toolbox/contrib/http_parser.c:1925-1941 | A last chunk whose size is one byte beyond ASCII is accepted, and is none by the standard |
| HttpExecute.HttpParser.NonData | toolbox/contrib/http_parser.c:1925-2045 | Each state other than data does what the byte-by-byte machine does |
| HttpExecute.HttpParser.Execute | toolbox/contrib/http_parser.c:678-2080 | Skipping data in bulk tells what the bytes one by one would; on an error it tells what comes before that chunk's first data byte in this buffer, and none of the data from there to the error |
| HttpExecute.HttpParser.Feed | toolbox/contrib/http_parser.c:638-642 | Any cut into non-empty pieces gives the outcome of the whole stream; on an error, only the piece it is in falls short, by just that |
| HttpExecute.DeliveryDependsOnCut | toolbox/contrib/http_parser.c:1999-2023 | A chunk of one byte with a wrong byte behind it: whole, its data is not handed over; cut before the wrong byte, it is |
| HttpExecute.FeedEncoding | toolbox/contrib/http_parser.c:1925-2045 | However an encoding is cut, the body bytes handed over are the chunks' data joined, and the message completes once |
| HttpLength.ContentLength | toolbox/contrib/http_parser.c:1519-1563 | Accepted exactly as digits under the guard and spaces; the decimal value, never the marker |
| HttpLength.DigitsUnique | toolbox/contrib/http_parser.c:1519-1563 | A value reads as digits and spaces in one way only |
| HttpLength.IsNum | toolbox/contrib/http_parser.c:418 | Holds of just the ten decimal digits, which are worth their place in the list of them |
| HttpUrl.StatesAdvance | toolbox/contrib/http_parser.c:490-636 | A byte stays in its component, begins a later one, or is a delimiter |
| HttpUrl.IsAlpha | toolbox/contrib/http_parser.c:416-417 | Holds of just the letters |
| HttpUrl.IsHex | toolbox/contrib/http_parser.c:420 | Holds of just the hexadecimal digits in either case |
| HttpUrl.IsUserinfoChar | toolbox/contrib/http_parser.c:421-426 | Holds of just letters, digits, marks and the delimiters listed |
| HttpUrl.IsUrlChar | toolbox/contrib/http_parser.c:243-275 | Holds of just visible ASCII but for what begins a query or a fragment |
| HttpUrl.IsHostChar | toolbox/contrib/http_parser.c:433 | Holds of just letters, digits, hyphen and dot |
| HttpUrl.IsV6Char | toolbox/contrib/http_parser.c:2221 | Holds of just hexadecimal digits, colon and dot |
| HttpUrl.IsZoneChar | toolbox/contrib/http_parser.c:2236-2239 | Holds of just the characters of a zone identifier by RFC 6874 |
| HttpUrl.ScanInOrder | toolbox/contrib/http_parser.c:2363-2420 | The first pass leaves components non-empty, in bounds and in order |
| HttpUrl.HostTouchKeeps | toolbox/contrib/http_parser.c:2176-2325 | Each byte of the server part keeps userinfo, host and port in place and in order |
| HttpUrl.PortIsDecimal | toolbox/contrib/http_parser.c:2436-2461 | The running port is the decimal value, or none once that is beyond sixteen bits |
| HttpUrl.SplitUrlSound | toolbox/contrib/http_parser.c:2345-2466 | Where offsets and lengths fit, every component of an accepted URL is non-empty, in bounds, disjoint from the others and in order; the port is its decimal value |
| HttpUrl.ParseUrl | toolbox/contrib/http_parser.c:2345-2466 | For buffers of any length, the loops, with their early exits, compute the split with offsets and lengths in sixteen bits |
| HttpUrlText.ScanPassed | toolbox/contrib/http_parser.c:490-636 | After any prefix that is not refused, the components and the delimiters between them are as the grammar has it |
| HttpUrlServer.HostToPassed | toolbox/contrib/http_parser.c:2176-2325 | So are userinfo, host (a name, or an address in brackets with or without a zone) and port within the server part |
| HttpUrlExact.ServerSplit | toolbox/contrib/http_parser.c:2258-2325 | The second pass accepts every server part of the grammar and finds its pieces |
| HttpUrlExact.Sound | toolbox/contrib/http_parser.c:2345-2466 | What is accepted is a URL by the grammar with just the components found |
| HttpUrlExact.Complete | toolbox/contrib/http_parser.c:2345-2466 | A URL by the grammar is accepted with just its components and port |
| HttpUrlExact.AcceptsExactly | toolbox/contrib/http_parser.c:2345-2466 | A buffer is split into given components and a port, where these fit, if and only if it reads, seam by seam and character by character, as a URL with just these; the grammar has its own lists of characters |
| HttpUrlExact.NoHashBehindServer | toolbox/contrib/http_parser.c:544-568 | A `#` straight behind the server part is refused |
| HttpUrl.LongPathWraps | toolbox/contrib/http_parser.c:2407-2418 | A path of p bytes is noted with length p modulo 65536 |
| HttpUrl.ScanWraps | toolbox/contrib/http_parser.c:2363-2420 | In buffers of any length, each range the first pass notes is the component's true offset and length modulo 65536 |
| HttpUrl.HostWraps | toolbox/contrib/http_parser.c:2258-2325 | So is each piece the second pass notes of the bytes it is led to |
| HttpUrlWidth.RightExactly | toolbox/contrib/http_parser.c:2345-2466 | A URL of any length is split into its components if and only if each offset and length fits sixteen bits, and the length of the server part does |
| HttpUrlWidth.NoServerWraps | toolbox/contrib/http_parser.c:2345-2466 | A URL without a server part is always accepted, with every range modulo 65536 |
| HttpUrlWidth.LongPathAccepted | toolbox/contrib/http_parser.c:2345-2466 | A slash and 65535 letters are accepted as a path of length nought |
| HttpUrlWidth.NotUrlAccepted | toolbox/contrib/http_parser.c:2345-2466 | A host of one letter with 65536 closing brackets behind it is no URL, but is accepted with just the letter |
| RingMachine.ConsumedIsPrefix | toolbox/ipc/MagicRingBuffer.hpp:147-186 | In every interleaving the bytes consumed are a prefix of those written, and 0 <= wpos - rpos <= capacity |
| RingMachine.WindowsAreDisjoint | toolbox/ipc/MagicRingBuffer.hpp:176-186 | The bytes the producer is copying share no slot with unread ones |
| RingMachine.AddressIsSlot | toolbox/ipc/Mmap.hpp:135-144 | Through the doubled mapping, an address on from the masked position is the slot of the position that far on |
| RingMachine.WriteFailsExactly | toolbox/ipc/MagicRingBuffer.hpp:177-182 | A write gives up exactly when the bytes do not fit as it loads the read position |
| RingMachine.ReadFailsExactly | toolbox/ipc/MagicRingBuffer.hpp:148-155 | A read gives up exactly when too little is there as it loads the write position |
| RingBuffer.MagicRing.Write | toolbox/ipc/MagicRingBuffer.hpp:177-192 | All of the bytes are appended, or none when they do not fit |
| RingBuffer.MagicRing.Size | toolbox/ipc/MagicRingBuffer.hpp:123-129 | The number of bytes written and not yet read |
| RingBuffer.MagicRing.Read | toolbox/ipc/MagicRingBuffer.hpp:147-167 | The oldest unread bytes are taken, as many as wanted and ready |
| Date.NextDayIsNext | toolbox/sys/Date.hpp:57-70 | The next calendar day, by the full leap year rule, has the next Julian day |
| Date.JdToYmdInverts | toolbox/sys/Date.hpp:83-103 | Converting a Julian day back gives the year, month and day it was made of |
| Date.RoundTrips | toolbox/sys/Date.hpp:49-103 | `jd_to_iso` and `iso_to_jd` undo each other on every valid date |
| Date.EveryDayHasADate | toolbox/sys/Date.hpp:57-70 | Every Julian day from the year nought on is some date's |
| Date.JdInOrder | toolbox/sys/Date.hpp:57-70 | One Julian day is less than another if and only if its date is earlier |
| Date.IsoInOrder | toolbox/sys/Date.hpp:49-54 | The ISO numbers of dates are in the order of the dates, and of their Julian days |
| Date.JdAnchored | toolbox/sys/Date.ut.cpp:41-47 | The first of January 1978 is Julian day 2443510, and 19780101 the ISO date of that |
| Date.NoOverflow | toolbox/sys/Date.hpp:49-103 | Up to the year 214748 nothing leaves thirty-two bits; no later year's ISO date fits |
| Frame.LengthRoundTrip | toolbox/net/Frame.hpp:35-67 | A length put is the length got |
| Frame.GetLengthIs | toolbox/net/Frame.hpp:35-41 | The masked, shifted and or-ed bytes are their little-endian sum |
| Frame.ParseInvertsEncode | toolbox/net/Frame.hpp:87-106 | Parsing encoded messages gives them back and leaves just the incomplete frame behind them |
| Frame.FramingIsIncremental | toolbox/net/Frame.hpp:87-106 | Framing a prefix and then the rest with what was left gives what framing it all does |
| Frame.RestIsIncomplete | toolbox/net/Frame.hpp:87-106 | What is left is never a complete frame |
| Frame.ParseFrame | toolbox/net/Frame.hpp:87-106 | The messages of all complete frames, and how many bytes they took |
| Frame.Buffer.Consume | toolbox/io/Buffer.cpp:22-46 | Takes bytes from the front; the rest moves to the front exactly when at least a kilobyte and half of the buffer is unused there, which keeps the content, and all bytes ever moved are at most those consumed plus the compactions |
| Frame.Buffer.Prepare | toolbox/io/Buffer.cpp:48-58 | Room for as many bytes as asked for, the content untouched |
| Frame.Buffer.Commit | toolbox/io/Buffer.hpp:83 | Exactly the bytes written become readable |
| Frame.Buffer.ReceiveAll | toolbox/net/Frame.hpp:87-106 | However a stream is cut, the messages are those of the whole stream, an incomplete frame stays, and the bytes moved are bounded |

## Left out

- Weak memory: atomics are sequentially consistent steps, so memory orders play no part.
- 64-bit wrap-around of queue tickets, ring positions, timer ids and histogram counts: they are unbounded integers.
- MpmcQueue: more than 2^30 slots, which `next_pow2` does not round up as it should; `size`, `empty`, `full`, memory mapping, and opening an existing file.
- Robin Hood table: iterators, node and bulk allocators, copying, `reserve`, `rehash` and `compact`, heterogeneous lookup; keys and values are plain data, and hash and multiplier are any function.
- RobinHood.Table.RehashPowerOfTwo: what becomes of the old arrays after the exception of a rehash is not modelled.
- The branch of the size calculation for tables of more than 2^64 / 100 slots.
- TimerQueue.Queue.Dispatch: assumes that no callback inserts a timer already due, without which the loop need not end; callbacks do not reset the handle they are given, and do not dispatch again.
- One timer queue per pool: several queues sharing a pool, `set_interval`, and exceptions for lack of memory.
- The percentile to rank conversion, mean, standard deviation, and the percentile and log iterators: floating point. The unit magnitude is the floor of the logarithm, computed exactly; signed 64-bit arithmetic that overflows in the initialisers is taken to wrap around.
- HdrHistogram.Histogram.Min: a histogram that has seen nothing but the greatest 64-bit integer reports that, and not its lowest equivalent value.
- HTTP start lines, header fields and their matching, trailer fields, upgrades, and callbacks that fail or pause; what follows the end of a message.
- RingMachine: a reader's callback takes no more than is ready; the double mapping itself is taken for granted.
- Date: years before nought, and the thirty-two bit range beyond the year 214748.
- Sockets, epoll, futexes, shared memory, logging, and the other wrappers of system calls.
