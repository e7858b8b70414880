# Verification of the Quill logger's pipeline

Quill is an asynchronous logger: frontend threads encode records into single-producer
single-consumer queues, and one backend thread decodes them, orders them by timestamp and writes
them to sinks. This project models the parts of it where the hard guarantees live and proves them
with Dafny. `dafny verify dfyconfig.toml` checks everything.

Two forms are used. Code that one thread runs on its own data is a class or a method with the
fields and loops of the original, proved against a specification. Where threads interleave, the
original's objects become the state of a machine with one step per atomic access (or per critical
section of a spinlock), and the results are about every run of that machine; atomic operations are
taken as sequentially consistent.

| file | models |
|---|---|
| Bits.dfy | unsigned word arithmetic: wrapping, masking, powers of two |
| BoundedQueue.dfy, BoundedQueueObject.dfy | the byte ring: step machine with stale position caches and batched publication, and the class over a byte array |
| UnboundedQueue.dfy | the chain of rings: growth, shrink, deletion by the consumer |
| ShrinkLoss.dfy, EmptyCheck.dfy, QueueRefinement.dfy | what a shrink with uncommitted records loses; why `empty()` may count as one step; why the scheduler may see the chain as lists of events |
| TransitBuffer.dfy | the growing ring of decoded events, as the sequence it should be |
| Scheduler.dfy, SchedulerOrder.dfy, SchedulerGrace.dfy | queue scan, cutoff, pending check and selection: conservation, order within batches, order over whole runs |
| Drain.dfy | the shutdown drain as it runs, with its termination measure |
| ThreadContexts.dfy, Loggers.dfy, Sinks.dfy | the three registries and their protocols |
| Managers.dfy, Names.dfy | the sorted vectors and sweeps behind the registries |
| Clock.dfy | the double-buffered clock base |
| TimeFormat.dfy, TimeParts.dfy | the patched timestamp string and the cutting of its format |
| Codec.dfy, CodecObject.dfy | sizing, encoding and decoding of records |
| Mdc.dfy | the per-thread diagnostic context and its rendering |
| NamedArgs.dfy, Decimals.dfy | named-argument templates and their keys |
| Containers.dfy | optional values and lists of context numbers |

Each machine's `Step`, `Enabled` and `Apply` follow the branches of the code cited in the rows of
its module. Inputs from outside are parameters or choices of the machine: the clock readings, the
outcome of allocations, when an object expires, the UTC offset and what `strftime` makes of a part.

Assumptions that theorems carry, as the original's documentation asks for them:

- `SchedulerGrace`: bounded queues, a fixed set of contexts, no MDC events, no user clocks,
  timestamps that do not decrease per thread, and every commit made before the clock passes the
  event's timestamp by more than the grace period. `SchedulerOrder` needs only the per-thread order.
- `Drain`: no frontend logs any more; from some turn on the clock has passed every queued timestamp by
  the grace period (`Drain.SettlesWhenPassed`; nothing to ask without one, `Drain.NoGraceSettles`); the hard limit is positive, as
  the options make it.
- `Loggers`: nobody logs through a logger after its removal began, and one thread removes it.
- `TimeFormat`: static parts and the UTC offset are constant within a recalculation period as long
  as no local midnight intervenes; GMT has no offset; a format without any time-of-day part also
  needs offsets that are multiples of 900 s, because it returns before the midnight check.
- `Clock`: fewer than 2^32 publications during one read; without it the exact condition is stated.
- `UnboundedQueue`: the producer calls `shrink` between its writes, not with a reservation open.

Where natural claims are false of the code, the exact condition is proved, with an input that fails:

- `shrink` does not commit: a finished record is lost exactly if it is uncommitted at the call
  (`ShrinkLoss.ShrinkLosesExactly`, `ShrinkLoss.RunLosesIff`; a run: `ShrinkLoss.DeletedUnread`).
- `prepare_read` returns null with data two nodes ahead exactly if the next node is empty
  (`UnboundedQueue.PrepareReadExact`; a run: `ShrinkLoss.NullWithDataAhead`).
- Growth grants a node too small for the record exactly above 2^63 bytes
  (`UnboundedQueue.GrowthTooSmallIff`; `UnboundedQueue.TooSmallGrant`).
- The invalid-context counter has wrapped exactly if more threads are between marking and counting
  than invalid contexts are registered (`ThreadContexts.CounterExact`; `ThreadContexts.CounterWraps`).
- The shutdown drain, its clock once settled, ends exactly if there is one context or nothing
  outstanding is stamped 2^64-1 (`Drain.BackendWorker.ExitTurns`; `Drain.StuckRun`, `Drain.StuckDrain`).
- A char array comes back exactly if it is below the 32-bit limit (`Codec.RoundTripIff`;
  `Codec.ArrayAtLimitFails`).
- Two live sinks of one id exist only if one is being thrown away after a failed publication
  (`Sinks.OneLivePerId`; `Sinks.DiscardedCanCoexist`).

Where comments and code disagree the model follows the code. The comment on `StringFromTime` says
the string is rebuilt at every noon and midnight; in local time the code rebuilds it every quarter
hour. The comment on `clamp_encoded_string_length` speaks of callers adding one after the clamp; the
code adds it before, which is what leaves a char array at the limit without its terminator.

## Model

| member | source | states |
|---|---|---|
| `Bits.MaskIsModulo` | quill/include/quill/core/BoundedSPSCQueue.h:63-66 | masking with capacity - 1 is reduction modulo the capacity, for every power of two |
| `Bits.MaskWrapped` | quill/include/quill/core/BoundedSPSCQueue.h:89-103 | masking a position that wraps at 2^w gives the unbounded position modulo the capacity |
| `Bits.PowerOfTwoIff` | quill/include/quill/core/MathUtilities.h:25-28 | the bit test accepts a number exactly when it is some power of two |
| `Bits.NextPowerOfTwo` | quill/include/quill/core/MathUtilities.h:35-61 | the doubling loop returns the least power of two not below its argument, capped at 2^63 |
| `BoundedQueue.FreeBytesExact` | quill/include/quill/core/BoundedSPSCQueue.h:89-103 | the wrapping free-space test equals the free space between unbounded positions, for any position width |
| `BoundedQueue.EmptinessExact` | quill/include/quill/core/BoundedSPSCQueue.h:145-189 | comparing wrapped positions, cached or atomic, is equality of the unbounded ones: emptiness is exact |
| `BoundedQueue.LagExact` | quill/include/quill/core/BoundedSPSCQueue.h:157-169 | the wrapping lag that batches publication is the number of bytes read and not yet published |
| `BoundedQueue.CommitReadExact` | quill/include/quill/core/BoundedSPSCQueue.h:157-169 | commit_read releases all that was read exactly after a full batch of bytes or when the consumer has read all it knows of, and otherwise releases nothing |
| `BoundedQueue.PrepareWriteExact` | quill/include/quill/core/BoundedSPSCQueue.h:89-119 | a write is granted, from the cached position or after the load, exactly when it fits the released space; a cached-only reservation exactly when it fits what the producer knows to be released |
| `BoundedQueue.CanStep` | quill/include/quill/core/BoundedSPSCQueue.h:89-189 | neither thread waits for the other: the next step of a call under way is always open |
| `BoundedQueue.OffsetsExact` | quill/include/quill/core/BoundedSPSCQueue.h:89-155 | masked write and read offsets are the unbounded positions modulo the capacity |
| `BoundedQueue.RegionsDisjoint` | quill/include/quill/core/BoundedSPSCQueue.h:89-103 | two ranges within one capacity of each other never share a byte of the 2 x capacity storage |
| `BoundedQueue.ReservationSafe` | quill/include/quill/core/BoundedSPSCQueue.h:89-119 | a granted reservation lies inside the storage and apart from every unread record |
| `BoundedQueue.StepKeepsInv` | quill/include/quill/core/BoundedSPSCQueue.h:89-189 | every atomic load and store of either side keeps the invariant |
| `BoundedQueue.EveryRunIsFifo` | quill/include/quill/core/BoundedSPSCQueue.h:89-189 | in every interleaving the consumer has received a prefix of the committed records byte for byte, every unread record is stored contiguously, and the range being written overlaps none |
| `BoundedQueue.RefusedIffFull` | quill/include/quill/core/BoundedSPSCQueue.h:89-103 | after reloading the reader position a write is refused exactly when the released space is too small |
| `BoundedQueue.NullReadIffDrained` | quill/include/quill/core/BoundedSPSCQueue.h:145-153 | a read finds nothing exactly when every committed record has been read |
| `BoundedQueue.DrainedQueueAcceptsAnyFit` | quill/include/quill/core/BoundedSPSCQueue.h:157-169 | once the consumer has read everything and called commit_read, any write up to the capacity succeeds |
| `BoundedQueueObject.ValidateCapacity` | quill/include/quill/core/BoundedSPSCQueue.h:227-273 | a capacity is accepted exactly when its power of two fits the position type and is at most 2^62, so that twice it can be allocated; the result is the least such power |
| `BoundedQueueObject.BoundedSPSCQueue.constructor` | quill/include/quill/core/BoundedSPSCQueue.h:60-85 | the initial fields are the initial state of the step model; a batch is the given percentage of the capacity |
| `BoundedQueueObject.BoundedSPSCQueue.PrepareWrite` | quill/include/quill/core/BoundedSPSCQueue.h:89-103 | grants exactly the requests that fit the released space, as the step model does |
| `BoundedQueueObject.BoundedSPSCQueue.Fill` | quill/include/quill/core/BoundedSPSCQueue.h:89-103 | bytes copied into a reservation are stored there and disturb no record |
| `BoundedQueueObject.BoundedSPSCQueue.FinishWrite` | quill/include/quill/core/BoundedSPSCQueue.h:121-121 | the written bytes become the newest finished record, or none for no bytes, and the consumer sees nothing of it yet |
| `BoundedQueueObject.BoundedSPSCQueue.CommitWrite` | quill/include/quill/core/BoundedSPSCQueue.h:123-127 | everything finished becomes pending, in order |
| `BoundedQueueObject.BoundedSPSCQueue.FinishAndCommitWrite` | quill/include/quill/core/BoundedSPSCQueue.h:132-143 | what was finished earlier and then the written bytes become pending, and nothing else changes |
| `BoundedQueueObject.BoundedSPSCQueue.PrepareRead` | quill/include/quill/core/BoundedSPSCQueue.h:145-153 | hands out the oldest pending record, contiguous in the storage, or null exactly when none is pending |
| `BoundedQueueObject.BoundedSPSCQueue.FinishRead` | quill/include/quill/core/BoundedSPSCQueue.h:155-155 | removes exactly the oldest pending record |
| `BoundedQueueObject.BoundedSPSCQueue.CommitRead` | quill/include/quill/core/BoundedSPSCQueue.h:157-173 | keeps the pending records and publishes the read position exactly after a full batch or when all that is known of was read |
| `UnboundedQueue.HandleFullQueue` | quill/include/quill/core/UnboundedSPSCQueue.h:264-305 | the capacity loop with its overflow exit decides what the specification decides |
| `UnboundedQueue.GrowthExact` | quill/include/quill/core/UnboundedSPSCQueue.h:264-305 | for records of at most 2^63 bytes, whatever the initial and maximum capacities, growth is refused exactly when the node is at or above maximum capacity or the record exceeds it; a granted node is the least doubling that fits |
| `UnboundedQueue.GrowthTooSmallIff` | quill/include/quill/core/UnboundedSPSCQueue.h:264-305 | a granted node is too small for the record exactly for records above 2^63 bytes |
| `UnboundedQueue.TooSmallGrant` | quill/include/quill/core/UnboundedSPSCQueue.h:264-305 | such a grant: two bytes for a record of 2^63 + 1 |
| `UnboundedQueue.GrantUnallocatableIff` | quill/include/quill/core/UnboundedSPSCQueue.h:264-305 | a granted node is beyond the allocation limit of the ring exactly when the maximum is 2^63 and no smaller doubling would do |
| `UnboundedQueue.GrownNodeAccepts` | quill/include/quill/core/UnboundedSPSCQueue.h:315-326 | the write that caused the growth succeeds in the new node |
| `UnboundedQueue.StepKeepsQInv` | quill/include/quill/core/UnboundedSPSCQueue.h:124-358 | every step of growing, shrinking, reading and deleting keeps the chain invariant |
| `UnboundedQueue.NoUseAfterDelete` | quill/include/quill/core/UnboundedSPSCQueue.h:329-358 | over every run no step touches a node the consumer has deleted |
| `UnboundedQueue.EveryRunIsOneFifo` | quill/include/quill/core/UnboundedSPSCQueue.h:124-358 | over every run, careless shrinks included, what was received is a prefix of what was committed across all nodes, and the consumer has left only nodes whose committed records were all read |
| `UnboundedQueue.CommittedOnlyGrows` | quill/include/quill/core/UnboundedSPSCQueue.h:124-233 | no step reorders or drops committed records: the committed sequence only grows at its end |
| `UnboundedQueue.CanStep` | quill/include/quill/core/UnboundedSPSCQueue.h:124-358 | neither thread waits for the other while growing, shrinking, reading or deleting |
| `UnboundedQueue.PrepareReadExact` | quill/include/quill/core/UnboundedSPSCQueue.h:210-233 | what one prepare_read does: it moves at most one node, so null with data two nodes ahead is possible, exactly when the next node is empty |
| `UnboundedQueue.ReadReachesWaiting` | quill/include/quill/core/UnboundedSPSCQueue.h:210-233 | with records outstanding some call within as many as there are nodes finds one |
| `ShrinkLoss.LinkedFrozen` | quill/include/quill/core/UnboundedSPSCQueue.h:187-205 | no step changes the records of a node the producer has left, or commits another of them |
| `ShrinkLoss.LostIff` | quill/include/quill/core/UnboundedSPSCQueue.h:124-205 | between calls of the producer, a finished record is never committed or received in any continuation exactly when the producer has left its node without committing it |
| `ShrinkLoss.ShrinkLosesExactly` | quill/include/quill/core/UnboundedSPSCQueue.h:187-205 | of the records in the producer's node shrink loses exactly those not yet committed |
| `ShrinkLoss.ShrinkLosesNothingIff` | quill/include/quill/core/UnboundedSPSCQueue.h:187-205 | shrink loses no finished record exactly when none was uncommitted at the call |
| `ShrinkLoss.RunLosesIff` | quill/include/quill/core/UnboundedSPSCQueue.h:124-358 | over every run some finished record is lost exactly when some shrink was called with a finished record uncommitted |
| `ShrinkLoss.DeletedUnread` | quill/include/quill/core/UnboundedSPSCQueue.h:329-358 | a concrete run in which the consumer deletes a node with a finished record inside |
| `ShrinkLoss.NullWithDataAhead` | quill/include/quill/core/UnboundedSPSCQueue.h:210-233 | a concrete run, two shrinks and a write, after which prepare_read returns null with a committed record two nodes ahead |
| `EmptyCheck.EmptyNowMeans` | quill/include/quill/core/UnboundedSPSCQueue.h:252-260 | the consumer's node is read and has no successor exactly when nothing is outstanding and no node is ahead |
| `EmptyCheck.EmptyIsAtomic` | quill/include/quill/core/UnboundedSPSCQueue.h:252-260 | with any producer steps between the two loads of empty(), its answer is right at one of them, so one atomic step stands for the call |
| `EmptyCheck.NonEmptyIsAtomic` | quill/include/quill/core/BoundedSPSCQueue.h:175-189 | an answer "not empty" from the ring alone is right at that load |
| `QueueRefinement.EmptyAgrees` | quill/include/quill/core/UnboundedSPSCQueue.h:252-260 | empty() decides for the chain what the scheduler model tests on its list of events |
| `QueueRefinement.ReadLoopTurn` | quill/include/quill/backend/BackendWorker.h:750-787 | taking and stopping, as the refinement has them, are the turns of the scheduler model's read loop |
| `QueueRefinement.FinishStep` | quill/include/quill/core/UnboundedSPSCQueue.h:235-238 | finishing a read takes from the scheduler's list the event decoded from the bytes handed out |
| `QueueRefinement.StepRefines` | quill/include/quill/core/UnboundedSPSCQueue.h:124-358 | every step of either thread on the chain is, for the scheduler's list of events, nothing, some commits, a new node, or one turn of the read loop |
| `QueueRefinement.EveryRunRefines` | quill/include/quill/core/UnboundedSPSCQueue.h:124-358 | over every run of the chain, the scheduler's list stepped along with it is what the chain holds |
| `TransitBuffer.TransitEventBuffer.constructor` | quill/include/quill/backend/TransitEventBuffer.h:26-32 | an empty buffer of the least power of two not below the requested capacity |
| `TransitBuffer.TransitEventBuffer.Size` | quill/include/quill/backend/TransitEventBuffer.h:95-98 | the wrapping difference of positions is the number of cached events |
| `TransitBuffer.TransitEventBuffer.Front` | quill/include/quill/backend/TransitEventBuffer.h:69-76 | the oldest cached event, or null exactly when there is none |
| `TransitBuffer.TransitEventBuffer.PopFront` | quill/include/quill/backend/TransitEventBuffer.h:78-78 | removes the oldest cached event |
| `TransitBuffer.TransitEventBuffer.Back` | quill/include/quill/backend/TransitEventBuffer.h:83-91 | the slot behind the newest event, doubling a full ring; fails exactly when a full ring cannot grow, and then leaves everything as it was |
| `TransitBuffer.TransitEventBuffer.PushBack` | quill/include/quill/backend/TransitEventBuffer.h:93-93 | the slot written becomes the newest event |
| `TransitBuffer.TransitEventBuffer.TryShrink` | quill/include/quill/backend/TransitEventBuffer.h:109-124 | only an empty buffer returns to the initial capacity, and only on request |
| `TransitBuffer.TransitEventBuffer.Expand` | quill/include/quill/backend/TransitEventBuffer.h:127-168 | the events move in order to a ring of twice the size; a failure before or after the move restores them |
| `TransitBuffer.ValidateLimits` | quill/include/quill/backend/BackendWorker.h:184-209 | options pass exactly when the hard limit is a power of two not below the soft limit and the rounded initial capacity |
| `TransitBuffer.TakeOne` | quill/include/quill/backend/BackendWorker.h:799-1048 | one record takes a slot unless it is held back or a full ring cannot grow |
| `TransitBuffer.ReadLoop` | quill/include/quill/backend/BackendWorker.h:738-796 | neither size nor capacity passes the hard limit; the records consumed, at most one queue capacity of bytes and the rest of a record, append exactly their events; and it stops only for one of the stated reasons |
| `TransitBuffer.Live` | quill/include/quill/backend/BackendWorker.h:184-209 | over every sequence of reads, pops and shrinks of a buffer made from options that pass the checks, size and capacity stay within the hard limit and what was cached is what was processed and what is left |
| `Clock.StepKeepsInv` | quill/include/quill/backend/RdtscClock.h:194-251 | every store of the writer and load of the reader keeps the double-buffer invariant |
| `Clock.ReturnedPairIsCurrent` | quill/include/quill/backend/RdtscClock.h:194-222 | with fewer than 2^32 publications during the read, a value that passes the re-check uses one published pair, the current one |
| `Clock.RecheckPassesIff` | quill/include/quill/backend/RdtscClock.h:194-222 | without that bound the re-check passes exactly when a multiple of 2^32 publications intervened |
| `Clock.UndisturbedRead` | quill/include/quill/backend/RdtscClock.h:194-222 | a reader that no publication disturbs returns the current pair, or finds the clock unset exactly if that pair is zero |
| `Clock.UnsetIff` | quill/include/quill/backend/RdtscClock.h:208-211 | the reader gives up for an unset clock exactly when both words it loaded are 0 |
| `Clock.CanStep` | quill/include/quill/backend/RdtscClock.h:194-251 | writer and reader never wait for one another |
| `Clock.RdtscClock.TimeSinceEpoch` | quill/include/quill/backend/RdtscClock.h:165-191 | the time of the current pair plus the converted signed ticks since; it resyncs exactly when more ticks than the interval have passed and an attempt is within the lag |
| `Clock.TightExact` | quill/include/quill/backend/RdtscClock.h:240-241 | the lag test is the difference of the two counter readings |
| `Clock.FastAverageExact` | quill/include/quill/backend/RdtscClock.h:275-278 | the bitwise average is the exact average rounded down, between its arguments |
| `Clock.RdtscClock.Resync` | quill/include/quill/backend/RdtscClock.h:227-261 | publishes the first of four attempts within the lag as one new pair, or nothing, doubling the interval unless that overflows |
| `TimeFormat.NextRecalculationExact` | quill/include/quill/backend/StringFromTime.h:521-562 | the next recalculation is the first later time in another quarter hour, or half day in GMT |
| `TimeFormat.AlignedNeverWraps` | quill/include/quill/backend/StringFromTime.h:166-177 | within one period the cached seconds stay below 86400 when the offset is a multiple of 900 s, as in GMT: the recalculation branch is unreachable |
| `TimeFormat.SecondOfDayAdvances` | quill/include/quill/backend/StringFromTime.h:160-170 | within a period the time of day advances by the difference of the timestamps |
| `TimeFormat.Patch` | quill/include/quill/backend/StringFromTime.h:180-248 | overwriting a piece by one of the same width in place is joining the pieces with that one replaced |
| `TimeFormat.DecimalWidth` | quill/include/quill/backend/StringFromTime.h:565-592 | the digit count of the epoch seconds is the length of their decimal form |
| `TimeFormat.ClockParts` | quill/include/quill/backend/StringFromTime.h:180-184 | hours, minutes and seconds make up the second of the day, each within its bounds |
| `TimeFormat.PieceMeans` | quill/include/quill/backend/StringFromTime.h:186-246 | what each modifier shows, in digits and padding: hours, minutes, seconds, the twelve-hour clock, the epoch |
| `TimeFormat.TwelveHourExact` | quill/include/quill/backend/StringFromTime.h:216-246 | the hour on a clock face is congruent to the hour modulo 12 |
| `TimeFormat.StringFromTime.Populate` | quill/include/quill/backend/StringFromTime.h:327-401 | the preformatted string joins the directly rendered parts and the indexes mark exactly the dynamic ones |
| `TimeFormat.StringFromTime.PatchIndexes` | quill/include/quill/backend/StringFromTime.h:180-246 | patching the changed components turns the old direct rendering into the new one |
| `TimeFormat.StringFromTime.FormatTimestamp` | quill/include/quill/backend/StringFromTime.h:80-248 | for any time, also after a step backwards, the result is the direct rendering of every part; it calls itself at most once |
| `TimeFormat.FormatAll` | quill/include/quill/backend/StringFromTime.h:80-248 | for every sequence of times each result is the direct rendering |
| `TimeParts.BoundaryIff` | quill/include/quill/backend/StringFromTime.h:269-279 | a percent sign starts a conversion exactly when an even number of percent signs stands in front |
| `TimeParts.IsEscapedPercent` | quill/include/quill/backend/StringFromTime.h:269-279 | the counting loop decides whether a percent sign is escaped |
| `TimeParts.FindUnescapedModifier` | quill/include/quill/backend/StringFromTime.h:251-266 | finds the first unescaped occurrence of a modifier, or reports that there is none |
| `TimeParts.SplitOnce` | quill/include/quill/backend/StringFromTime.h:404-448 | finds the first of all dynamic modifiers, or reports that there is none |
| `TimeParts.PopulateInitialParts` | quill/include/quill/backend/StringFromTime.h:294-324 | the parts spell the format, have its conversions in order, and leave no dynamic modifier inside a static part |
| `TimeParts.PartsRenderFormat` | quill/include/quill/backend/StringFromTime.h:294-324 | rendering the parts one by one is rendering the whole format, for any renderer that goes conversion by conversion |
| `TimeParts.DirectIsTokens` | quill/include/quill/backend/StringFromTime.h:294-324 | rendering the parts directly is rendering the conversions of the format, the time-of-day ones by the clock |
| `TimeParts.Letters` | quill/include/quill/backend/StringFromTime.h:404-448 | which letters are time-of-day modifiers and what each stands for |
| `TimeParts.HoursMinutesSeconds` | quill/include/quill/backend/StringFromTime.h:80-248 | "%H:%M:%S" renders the hour, minute and second of the local day |
| `TimeParts.FormatAllTimes` | quill/include/quill/backend/StringFromTime.h:80-248 | a formatter made for a format gives, for every sequence of times, the format rendered conversion by conversion |
| `Scheduler.PickIsLowest` | quill/include/quill/backend/BackendWorker.h:1090-1119 | the event selected is no later than the head of any cached buffer |
| `Scheduler.BestIsFirst` | quill/include/quill/backend/BackendWorker.h:1093-1112 | of equal heads the one first in the cached list is selected |
| `Scheduler.PickFailsIff` | quill/include/quill/backend/BackendWorker.h:1090-1119 | nothing is selected exactly when every buffer is empty or, among several contexts, every head has the largest timestamp |
| `Scheduler.ReadOneMoves` | quill/include/quill/backend/BackendWorker.h:738-796 | one turn of the decode loop moves the oldest queued event to the buffer, applies it if it is an MDC event, or leaves the events as they were |
| `Scheduler.ReadOneStops` | quill/include/quill/backend/BackendWorker.h:738-796 | a turn takes nothing exactly at a limit, on an empty queue, on a failed allocation or at an event past the cutoff |
| `Scheduler.TooNewIff` | quill/include/quill/backend/BackendWorker.h:696-709 | an event is past the cutoff exactly while the clock reads less than its timestamp plus the grace period |
| `Scheduler.ChooseExact` | quill/include/quill/backend/BackendWorker.h:515-545 | after a pass nothing, one event or a batch is processed, by what is cached, the soft limit and whether the backend exits |
| `Scheduler.CheckAllIff` | quill/include/quill/backend/BackendWorker.h:1056-1085 | the pending check, undisturbed, passes exactly when no context has an empty buffer and a non-empty queue |
| `Scheduler.BeginRefreshes` | quill/include/quill/backend/BackendWorker.h:1887-1907 | with the flag up a pass begins by making the cache equal to the registry |
| `Scheduler.PassStarts` | quill/include/quill/backend/BackendWorker.h:696-709 | a pass starts at the first context with nothing counted, and holds back exactly what the grace period holds back at the clock just read |
| `Scheduler.CheckStarts` | quill/include/quill/backend/BackendWorker.h:1056-1066 | the pending check starts with every registered context cached |
| `Scheduler.ProcessExact` | quill/include/quill/backend/BackendWorker.h:1090-1178 | processing outputs and removes the head of the context selected; a batch goes on and a single event ends the turn |
| `Scheduler.BackendCanStep` | quill/include/quill/backend/BackendWorker.h:510-600 | wherever it stands the backend can go on |
| `Scheduler.FrontendCanStep` | quill/include/quill/Logger.h:114-182 | a thread that has not finished can always commit an event |
| `Scheduler.StepKeepsInv` | quill/include/quill/backend/BackendWorker.h:510-600 | every step of frontends and backend keeps conservation and the registry invariant |
| `Scheduler.EveryRunConserves` | quill/include/quill/backend/BackendWorker.h:652-796 | in every reachable state each thread's non-MDC events are its processed, then buffered, then queued ones, in program order; a retired context had finished with nothing left |
| `SchedulerOrder.BatchPicksEarliest` | quill/include/quill/backend/BackendWorker.h:1056-1114 | when the pending check has passed, the selected event is no later than anything committed before that check began |
| `SchedulerOrder.EveryBatchIsOrdered` | quill/include/quill/backend/BackendWorker.h:536-544 | the same over every run with non-decreasing timestamps per thread, with MDC events and with contexts registered or retired on the way |
| `SchedulerGrace.ReadGrace` | quill/include/quill/backend/BackendWorker.h:914-921 | a decode loop that stops leaves either a non-empty buffer or nothing queued before the cutoff |
| `SchedulerGrace.StepGrace` | quill/include/quill/backend/BackendWorker.h:696-796 | every timely step keeps all outstanding events at or after the last processed timestamp |
| `SchedulerGrace.GracePeriodOrdersOutput` | quill/include/quill/backend/BackendWorker.h:696-796 | over every timely run, single events and batches alike, everything processed is in timestamp order |
| `Drain.BackendWorker.ReadQueue` | quill/include/quill/backend/BackendWorker.h:738-796 | one queue read moves events in order into the buffer and makes progress, or changes nothing with the buffer occupied, the queue empty or its events past the cutoff; what is past the cutoff stays queued |
| `Drain.BackendWorker.PopulateOne` | quill/include/quill/backend/BackendWorker.h:711-730 | the same for one cached context of the pass |
| `Drain.BackendWorker.Populate` | quill/include/quill/backend/BackendWorker.h:696-733 | one pass, at the cutoff of the clock it read, makes progress unless no context with an empty buffer has anything queued that is not past the cutoff |
| `Drain.BackendWorker.HasPending` | quill/include/quill/backend/BackendWorker.h:1056-1085 | reports exactly whether a context with an empty buffer has a non-empty queue |
| `Drain.BackendWorker.AllEmpty` | quill/include/quill/backend/BackendWorker.h:1740-1774 | reports exactly whether every context is empty |
| `Drain.BackendWorker.Select` | quill/include/quill/backend/BackendWorker.h:1090-1114 | the selection loop computes the specified choice |
| `Drain.BackendWorker.ProcessLowest` | quill/include/quill/backend/BackendWorker.h:1090-1178 | processes exactly the head of the context selected, or nothing if none is |
| `Drain.BackendWorker.Exit` | quill/include/quill/backend/BackendWorker.h:652-691 | with or without a grace period, once the clock has passed what is queued, the drain terminates with every context empty, having processed exactly what was outstanding, each thread in program order, and in timestamp order if every thread's events were |
| `Drain.BackendWorker.ExitTurns` | quill/include/quill/backend/BackendWorker.h:652-691 | the drain given up after n turns: if it reports everything empty, then there is one context or no outstanding event is stamped 2^64-1, and a clock that does not go back has passed all that was queued; and with enough turns after the clock has settled it does report so |
| `Drain.StuckRun` | quill/include/quill/backend/BackendWorker.h:1093-1112 | a run of two registrations and a commit to a state with an event stamped 2^64-1 |
| `Drain.StuckDrain` | quill/include/quill/backend/BackendWorker.h:1093-1112 | from that state the drain never ends, whatever the clock |
| `ThreadContexts.StepKeepsInv` | quill/include/quill/core/ThreadContextManager.h:250-336 | every atomic access of registration, invalidation and removal keeps the invariant |
| `ThreadContexts.NoRegistrationLost` | quill/include/quill/core/ThreadContextManager.h:250-286 | whenever the flag is down and no scan is due, every completed registration is in the backend's list |
| `ThreadContexts.RemovedOnlyWhenDone` | quill/include/quill/backend/BackendWorker.h:1916-1974 | a context is removed only after its producer finished and every record was processed, in order |
| `ThreadContexts.CounterExact` | quill/include/quill/core/ThreadContextManager.h:380-392 | modulo 2^32 the counter is the invalid contexts registered less the threads between marking and counting; it has wrapped exactly when the latter are more |
| `ThreadContexts.CounterWraps` | quill/include/quill/core/ThreadContextManager.h:380-392 | a concrete run to a counter of 2^32-1: two contexts removed in one pass, one of them not counted yet |
| `ThreadContexts.RecordsMove` | quill/include/quill/backend/BackendWorker.h:738-796 | a record goes from the end of the queue to the buffer and from there to what is processed |
| `ThreadContexts.CanStep` | quill/include/quill/core/ThreadContextManager.h:250-336 | the backend waits for nothing but the lock, and a thread only to take it |
| `Managers.LoggerManager.GetLogger` | quill/include/quill/core/LoggerManager.h:53-58 | finds a valid logger of the name exactly when there is one |
| `Managers.LoggerManager.Create` | quill/include/quill/core/LoggerManager.h:162-255 | creates exactly when the name is free; a name pending removal or in use is reported; the vector stays sorted |
| `Managers.LoggerManager.Remove` | quill/include/quill/core/LoggerManager.h:270-274 | marks the logger and raises the flag |
| `Managers.LoggerManager.CleanupInvalidated` | quill/include/quill/core/LoggerManager.h:278-315 | the erase-while-iterating loop removes exactly the invalid loggers found with nothing pending and leaves the flag up exactly if an invalid one stays |
| `Managers.KeptExact` | quill/include/quill/core/LoggerManager.h:278-315 | a sweep keeps exactly the loggers that are valid or were found with something pending |
| `Managers.GoneExact` | quill/include/quill/core/LoggerManager.h:278-315 | and reports exactly the others |
| `Managers.KeptMembers` | quill/include/quill/core/LoggerManager.h:278-315 | a sweep invents no logger and never removes a valid one |
| `Managers.ThreadContextManager.RemoveShared` | quill/include/quill/core/ThreadContextManager.h:288-336 | erases exactly the context and decrements the 32-bit counter |
| `Managers.CleanupContexts` | quill/include/quill/backend/BackendWorker.h:1916-1974 | the search-and-remove loop ends with no removable context cached and every other one kept |
| `Loggers.StepKeepsInv` | quill/include/quill/core/LoggerManager.h:270-315 | every step of logging, removing, decoding, scanning and notifying keeps the invariant |
| `Loggers.ScanProvesUnnamed` | quill/include/quill/backend/BackendWorker.h:1979-1990 | a scan that found each context empty, one after the other, shows that no queue or buffer names the logger |
| `Loggers.ScanEnds` | quill/include/quill/core/LoggerManager.h:278-315 | a scan that found every context empty erases its logger and no other; any other scan keeps it and raises the flag |
| `Loggers.ScanLooks` | quill/include/quill/backend/BackendWorker.h:1979-1990 | one look of a scan adds whether that context is empty |
| `Loggers.ExchangeExact` | quill/include/quill/core/LoggerManager.h:278-290 | a pass starts at the front of the registry exactly when the flag was up |
| `Loggers.ScanStarts` | quill/include/quill/backend/BackendWorker.h:1979-1990 | a scan starts with nothing looked at and every context registered by then cached |
| `Loggers.RefreshExact` | quill/include/quill/backend/BackendWorker.h:1887-1907 | between passes the cached contexts are refreshed exactly when there are new ones |
| `Loggers.VisitExact` | quill/include/quill/core/LoggerManager.h:285-312 | a pass goes past valid loggers, checks invalid ones, and ends with the notifications |
| `Loggers.RemovalSteps` | quill/include/quill/core/LoggerManager.h:270-274 | removing marks the logger first and raises the flag afterwards |
| `Loggers.CreateMeans` | quill/include/quill/core/LoggerManager.h:162-255 | a created logger is valid and registered under its name, and no other logger changes |
| `Loggers.RecordsMove` | quill/include/quill/backend/BackendWorker.h:738-796 | records and requests join the end of their queue and are decoded and processed from the front |
| `Loggers.BackendCanStep` | quill/include/quill/backend/BackendWorker.h:1979-2010 | wherever it stands the backend can go on |
| `Loggers.DestroyedIsUnnamed` | quill/include/quill/core/LoggerManager.h:278-315 | over every run no queue and no transit buffer holds a record naming a destroyed logger |
| `Loggers.NoneForgotten` | quill/include/quill/core/LoggerManager.h:270-315 | between passes a logger whose remover raised the flag is destroyed or the flag is still up |
| `Loggers.BlockingCallerReleased` | quill/include/quill/Frontend.h:424-471 | when a logger with a blocking request is erased its caller's flag is registered; it is set only after erasure; and after the cleanup every such caller is released |
| `Loggers.DecodedFlag` | quill/include/quill/backend/BackendWorker.h:1015-1025 | when a removal request is decoded its name has no flag yet, so the entry is made |
| `Names.FoundIff` | quill/include/quill/core/SinkManager.h:303-317 | in a sorted vector the lower-bound lookup finds a name exactly when it is there |
| `Names.LessExact` | quill/include/quill/core/SinkManager.h:303-317 | the order of names: a prefix first, otherwise by the first differing character |
| `Names.InsertSorted` | quill/include/quill/core/SinkManager.h:279-290 | inserting at the lower bound keeps the names strictly sorted and adds just that one |
| `Names.EraseSorted` | quill/include/quill/core/SinkManager.h:292-300 | erasing keeps the names strictly sorted and removes just that one |
| `Sinks.SinkManager.FindSink` | quill/include/quill/core/SinkManager.h:303-317 | returns a sink exactly if it is registered under the id and alive |
| `Sinks.SinkManager.ReserveOnce` | quill/include/quill/core/SinkManager.h:175-207 | the live sink of the id or an error if there is one; otherwise the id becomes pending unless it already is |
| `Sinks.SinkManager.PublishCreated` | quill/include/quill/core/SinkManager.h:239-255 | afterwards the sink is the one entry of its id, every other entry is as before, the id is not pending, and the vectors are sorted |
| `Sinks.SinkManager.CleanupUnused` | quill/include/quill/core/SinkManager.h:135-155 | the erase-while-iterating loop leaves exactly the live sinks, in order, and counts the others |
| `Sinks.FindLiveIff` | quill/include/quill/core/SinkManager.h:303-317 | the lookup of a registered id gives its sink exactly when it is still alive |
| `Sinks.StepKeepsInv` | quill/include/quill/core/SinkManager.h:175-317 | every critical section and every step outside the lock keeps the invariant |
| `Sinks.OneLivePerId` | quill/include/quill/core/SinkManager.h:175-277 | two live objects of one id are the same, unless one is being thrown away after a failed publication |
| `Sinks.EveryRunIsSafe` | quill/include/quill/core/SinkManager.h:135-317 | over every run ids and pending ids are strictly sorted, an id is pending exactly while one thread constructs it and then has no live sink, and an id has at most one live sink |
| `Sinks.DiscardedCanCoexist` | quill/include/quill/core/SinkManager.h:239-255 | a concrete run in which an object being thrown away after a failed publication lives beside its successor |
| `Sinks.CanStep` | quill/include/quill/core/SinkManager.h:175-277 | every caller of the registry has its next step |
| `Mdc.SetFromPattern` | quill/include/quill/backend/BackendMdcState.h:89-122 | a pattern is accepted exactly when it splits into prefix, separator, field separator and one-character suffix around exactly two placeholders, and those are returned |
| `Mdc.SetMeans` | quill/include/quill/backend/BackendMdcState.h:26-29 | setting a field in the sorted listing is updating the map it lists |
| `Mdc.EraseMeans` | quill/include/quill/backend/BackendMdcState.h:31-31 | erasing a field from the sorted listing is removing it from the map |
| `Mdc.ListsUnique` | quill/include/quill/backend/BackendMdcState.h:43-68 | a map has one sorted listing, so its rendering is determined |
| `Mdc.ContextKeepsOthers` | quill/include/quill/backend/BackendWorker.h:2027-2088 | a set event leaves every other key as it was |
| `Mdc.ContextTakesLast` | quill/include/quill/backend/BackendWorker.h:2027-2088 | and gives each of its keys the value set last |
| `Mdc.ContextAfterErase` | quill/include/quill/backend/BackendWorker.h:2090-2149 | an erase event removes exactly its keys, a clear event all, and other events change nothing |
| `Mdc.BodyExact` | quill/include/quill/backend/BackendMdcState.h:43-68 | a field reads key, separator, value, and fields follow one another with the field separator between |
| `Mdc.RenderExact` | quill/include/quill/backend/BackendMdcState.h:43-68 | prefix and suffix stand around the fields, and nothing is shown without fields |
| `Mdc.BackendMdcState.RebuildFormattedMdc` | quill/include/quill/backend/BackendMdcState.h:43-68 | the rendering loop produces the fields in key order between prefix and suffix, or nothing |
| `Mdc.RightUnique` | quill/include/quill/backend/BackendWorker.h:2155-2163 | an event stream determines the texts of its log events |
| `Mdc.ThreadContext.ApplySet` | quill/include/quill/backend/BackendWorker.h:2027-2088 | after a set event the state is the context of the events consumed, rendered |
| `Mdc.ThreadContext.ApplyErase` | quill/include/quill/backend/BackendWorker.h:2090-2144 | after an erase event the same, with an emptied state dropped |
| `Mdc.ThreadContext.PushLog` | quill/include/quill/backend/BackendWorker.h:2155-2163 | a log event takes the current rendering, and none left by an earlier occupant of its slot |
| `Mdc.ThreadContext.PushSilent` | quill/include/quill/backend/BackendWorker.h:1006-1044 | a flush, a removal request or a metric sample takes a slot and carries no text, none left by an earlier occupant either |
| `Mdc.ThreadContext.TryDecode` | quill/include/quill/backend/BackendWorker.h:799-1048 | an event is taken exactly if there is room and it has a user clock or is not past the cutoff; then it is applied once, otherwise nothing is |
| `Mdc.ThreadContext.ProcessFront` | quill/include/quill/backend/BackendWorker.h:1139-1157 | processing shows the oldest buffered text and blanks the slot |
| `Mdc.ThreadContext.ShownIsRight` | quill/include/quill/backend/BackendWorker.h:914-946 | the texts shown so far are those of the first buffered events, a log event showing what its predecessors in the thread built up |
| `Mdc.LiveThread` | quill/include/quill/backend/BackendWorker.h:799-1048 | over any interleaving of decoding attempts, repeated ones included, with processing and shrinking, the texts shown and then those buffered are exactly the right ones for the events taken from the queue |
| `Codec.TotalSizeExact` | quill/include/quill/core/Codec.h:365-383 | the size computed for an argument list is the number of bytes encoded |
| `Codec.OneRoundTrip` | quill/include/quill/core/Codec.h:284-318 | decoding an encoded argument gives its meaning back and consumes exactly its bytes |
| `Codec.RoundTripIff` | quill/include/quill/core/Codec.h:203-240 | an argument comes back, leaving what follows, exactly when it is not a char array whose text reaches the 32-bit limit |
| `Codec.ArrayAtLimitFails` | quill/include/quill/core/Codec.h:203-240 | such an array |
| `Codec.RoundTrip` | quill/include/quill/core/Codec.h:390-419 | a whole argument list comes back and what follows it is left alone |
| `Codec.MeaningExact` | quill/include/quill/core/Codec.h:128-135 | below the 32-bit limit nothing is cut: strings come back whole, other text up to its terminator |
| `CodecObject.ComputeAllSizes` | quill/include/quill/core/Codec.h:365-383 | whatever an earlier record left in the size cache, the total is exact and the cache is cleared whenever it will be used |
| `CodecObject.EncodeArg` | quill/include/quill/core/Codec.h:203-276 | writes exactly the encoding at the position, taking a length from the cache only for C strings and char arrays |
| `CodecObject.EncodeArgs` | quill/include/quill/core/Codec.h:390-400 | writes exactly the encodings one after the other and nothing else |
| `CodecObject.DecodeArg` | quill/include/quill/core/Codec.h:284-318 | reads one argument as specified |
| `CodecObject.DecodeArgs` | quill/include/quill/core/Codec.h:402-416 | reads an argument list as specified |
| `CodecObject.LogRecord` | quill/include/quill/Logger.h:354-474 | for plain, deep, shallow and hybrid records the size asked for is the bytes written, and they are the encoding of header, metadata and arguments |
| `CodecObject.DecodeRecord` | quill/include/quill/backend/BackendWorker.h:2309-2351 | reading such a record gives back the header words, the runtime metadata and the arguments and ends where it ends |
| `CodecObject.RecordMeans` | quill/include/quill/Logger.h:380-474 | the words and metadata a record carries, by text or by address, in order, for each kind of event |
| `Decimals.DecimalRoundTrip` | quill/include/quill/backend/BackendWorker.h:1626-1628 | decimal suffixes determine their number |
| `NamedArgs.CloseIff` | quill/include/quill/backend/BackendWorker.h:1632-1665 | the closing brace found is the one position with balanced text in front of it |
| `NamedArgs.ParseRoundTrip` | quill/include/quill/backend/BackendWorker.h:1539-1602 | cutting a template into characters, escapes, fields and rest loses nothing |
| `NamedArgs.FieldSplits` | quill/include/quill/backend/BackendWorker.h:1573-1590 | name and syntax make up the field, the name ending in front of the first colon |
| `NamedArgs.NormalizedExact` | quill/include/quill/backend/BackendWorker.h:1667-1701 | a syntax without nested fields stays, and a nested field keeps only its braces |
| `NamedArgs.TemplateRewritten` | quill/include/quill/backend/BackendWorker.h:1539-1602 | a template of text and fields with names and syntaxes comes out as the same text and fields without the names |
| `NamedArgs.FindClosingBrace` | quill/include/quill/backend/BackendWorker.h:1632-1665 | the scanning loop finds the closing brace as specified |
| `NamedArgs.NormalizeSyntax` | quill/include/quill/backend/BackendWorker.h:1667-1701 | a syntax keeps everything but the names of its nested fields |
| `NamedArgs.MakeUniqueKey` | quill/include/quill/backend/BackendWorker.h:1604-1630 | returns the first free candidate, after at most one try more than there are keys |
| `NamedArgs.KeysDistinct` | quill/include/quill/backend/BackendWorker.h:1597-1597 | keys made one after the other are pairwise distinct |
| `NamedArgs.ProcessTemplate` | quill/include/quill/backend/BackendWorker.h:1539-1602 | the template keeps everything but the names, with one key per field in order, pairwise distinct |
| `Sinks.SinkManager.TryMarkPending` | quill/include/quill/core/SinkManager.h:279-290 | marks exactly if the id was not pending; afterwards it is, and no other id changed |
| `Sinks.SinkManager.ErasePending` | quill/include/quill/core/SinkManager.h:292-300 | afterwards the id is not pending, and no other id changed |
| `Mdc.BackendMdcState.Set` | quill/include/quill/backend/BackendMdcState.h:26-29 | updates the map that the sorted listing stands for |
| `Mdc.BackendMdcState.Erase` | quill/include/quill/backend/BackendMdcState.h:31-31 | removes a key from the map that the sorted listing stands for |
| `Mdc.BackendMdcState.Empty` | quill/include/quill/backend/BackendMdcState.h:41-41 | is whether that map is empty |
| `Mdc.ThreadContext.ApplyClear` | quill/include/quill/backend/BackendWorker.h:2146-2149 | after a clear event there is no state and the context is empty |
| `Mdc.ThreadContext.Back` | quill/include/quill/backend/TransitEventBuffer.h:83-91 | fails exactly when a full ring cannot grow, and then leaves every slot; otherwise there is room, after doubling a full ring |
| `Mdc.ThreadContext.Expand` | quill/include/quill/backend/TransitEventBuffer.h:127-168 | moves the buffered texts in order and adds only blank slots |
| `Mdc.ThreadContext.RequestShrink` | quill/include/quill/backend/TransitEventBuffer.h:107-107 | records the request |
| `Mdc.ThreadContext.TryShrink` | quill/include/quill/backend/TransitEventBuffer.h:109-124 | on request an empty ring that has grown returns to the initial capacity; nothing else changes the slots, and the request stays while the ring is not empty |
| `CodecObject.SizeCache.Clear` | quill/include/quill/core/Codec.h:374-376 | empties the cache |
| `CodecObject.SizeCache.PushBack` | quill/include/quill/core/InlinedVector.h:95-136 | appends a length and returns it |
| `CodecObject.ComputeEncodedSize` | quill/include/quill/core/Codec.h:166-200 | gives the size of one argument and pushes it exactly for C strings and char arrays |
| `CodecObject.EncodeCharArray` | quill/include/quill/core/Codec.h:213-237 | writes a char array up to and with its terminator, adding one when it has none |
| `CodecObject.EncodeCString` | quill/include/quill/core/Codec.h:238-254 | writes a C string and its terminator, null as empty |
| `CodecObject.EncodeString` | quill/include/quill/core/Codec.h:255-271 | writes a length prefix and the characters |
| `CodecObject.FindTerminator` | quill/include/quill/core/Codec.h:114-125 | finds the end of terminated text |
| `CodecObject.EncodeHeader` | quill/include/quill/Logger.h:950-967 | writes the four header words |
| `CodecObject.EncodeHybrid` | quill/include/quill/Logger.h:441-460 | writes hybrid metadata with lengths kept in locals as the generic encoder would |
| `TransitBuffer.TransitEventBuffer.Empty` | quill/include/quill/backend/TransitEventBuffer.h:102-105 | equal positions are emptiness |
| `TransitBuffer.TransitEventBuffer.RequestShrink` | quill/include/quill/backend/TransitEventBuffer.h:107-107 | records the request and changes nothing else |
| `TransitBuffer.TransitEventBuffer.MoveOut` | quill/include/quill/backend/TransitEventBuffer.h:140-143 | moves every event of a full ring out in order |
| `TransitBuffer.TransitEventBuffer.MoveBack` | quill/include/quill/backend/TransitEventBuffer.h:152-155 | moving every event back restores the ring |
| `TimeFormat.StringFromTime.RenderParts` | quill/include/quill/backend/StringFromTime.h:84-105 | the fallback for earlier times is the direct rendering |
| `TimeFormat.StringFromTime.AppendPart` | quill/include/quill/backend/StringFromTime.h:354-400 | one turn appends one rendered part and records where a dynamic one starts |
| `TimeFormat.StringFromTime.Refresh` | quill/include/quill/backend/StringFromTime.h:109-131 | repopulates and sets the next recalculation after the given time |
| `TimeFormat.StringFromTime.PatchTime` | quill/include/quill/backend/StringFromTime.h:179-248 | finds the components that changed and turns the old rendering into the new one |
| `Managers.FindRemovable` | quill/include/quill/backend/BackendWorker.h:1954-1957 | finds the first removable context of the cache, or none |
| `Drain.BackendWorker.UpdateCache` | quill/include/quill/backend/BackendWorker.h:1887-1907 | afterwards every registered context is cached |
| `Drain.BackendWorker.Batch` | quill/include/quill/backend/BackendWorker.h:670-677 | processes until a context is starved or nothing is selected, at least one event if there is one and none is starved |
| `Drain.BackendWorker.Turn` | quill/include/quill/backend/BackendWorker.h:654-678 | one turn of the drain finds everything empty or, if nothing queued is past its cutoff, makes progress in the termination measure, which no turn increases |

## Left out

- Weak memory orders: each atomic operation is one sequentially consistent step.
- Operating-system calls: mmap and huge pages, alignment, affinity, thread names, the worker lock, signals, sleeping and waking.
- The bundled fmt library and the bodies of strftime, gmtime and localtime: abstract functions under the assumptions above.
- Floating-point calibration and the double multiplication of the clock: the model ends at the base pair that is used.
- The body of sinks, filters, pattern formatting, console colours, file handling and path normalisation, and the backtrace store.
- Exceptions from user formatters, notifiers and hooks; failed buffer growth, failed sink construction and failed publication are modelled.
- Log macros, metrics, the monotonic output-timestamp option and level parsing: they would add only easy members.
- Codecs for user-defined and standard-library types, and the record layout of metric samples.
- The rejection and replacement of composite modifiers before a timestamp format is cut; parts are cut from the format that results.
- The loops around full queues on the producer side (blocking, dropping, failure counters).
- Scheduler.Apply: models the backend and its contexts on values, not as classes, because every result is about interleavings of several threads; aliasing between contexts and the cached list is not captured. Drain.dfy has the same loops as methods over fields.
- Loggers.Apply: models the manager, its callers and the backend on values for the same reason; contexts are not retired there, since a retired context is empty (Scheduler.EveryRunConserves). Managers.dfy has the sequential form.
- ThreadContexts.Apply: models the manager on values for the same reason; Managers.dfy has the sequential form.
- UnboundedQueue.Apply: models nodes by their place in the chain instead of by pointers, with a deleted mark; the heap itself is not modelled.
- Drain.BackendWorker.Exit: the cleanup of finished contexts after a flush event inside the drain is not modelled; it removes only empty contexts.
- Scheduler.PickIsLowest: flush events and logger-removal events are not distinguished from log events, since selection treats them alike.
- TimeFormat.StringFromTime.FormatTimestamp: timestamps before the epoch are not modelled.
- CodecObject.SizeCache.PushBack: the vector's inline and heap storage is one sequence, and its overflow exception, at half the address space, is not modelled.
- CodecObject.DecodeRecord: requires that a complete record is present, as the original does, since a record carries no length.
