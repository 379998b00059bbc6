# libevent's core, modelled and proved in Dafny

The Swift package in this repository wraps libevent. What can go wrong lies in the vendored C sources, and this
project models seven of their components and proves what each of them is for:

- **evbuffer** (`buffer.c`): a byte queue kept as a linked list of partly filled chains. Modules `EvBuffers`
  (chains, buffers, adding, prepending, draining, borrowed memory), `EvBufferMoves` (chains that change hands without
  being copied), `EvBufferPullup`, `EvBufferScatter` (free space over several chains, reserving, committing, reading),
  `EvBufferSearch` (positions, search across chains, lines) and `EvBufferRuns` (every run behaves like a run on a plain
  sequence of bytes).
- **event_base** (`event.c`): flags, queues, counters, the timer heap and the common-timeout queues. `EventTime`,
  `EventState`, `EventSteps`, `EventTimers`, `EventDue`, `EventRuns`, `EventEffects` and `EventDeferred` describe the
  state as a value and prove its invariants over every run; `EventBases` holds the class whose methods change the base
  in place, one queue operation at a time, and proves each of them against those functions.
- **DNS** (`evdns.c`): names in messages, after sections 3.1 and 4.1.4 of RFC 1035 (`DnsNames`, and `DnsPackets` for
  the loops over buffers), and the table of requests (`DnsRequests`, `DnsRings` for the circular lists, `DnsBases` for
  the base that relinks them).
- **Rate limits** (`bufferevent_ratelim.c`): token buckets and the throughput of a group (`TokenBuckets`), suspension
  and wake-up (`RateLimits`), and the objects themselves (`RateLimitGroups`).
- **Tagged data** (`event_tagging.c`): the format (`Tags`) and its loops on evbuffers (`TagBuffers`).
- **bufferevent pairs** (`bufferevent_pair.c`): one direction as a pipe (`PairPipes`) and on two evbuffers
  (`PairConduits`).
- **arc4random** (`arc4random.c`): the state and the unbiased reduction (`Arc4Random`).

`Bytes` and `Queues` hold what several of them share. `dafny verify dfyconfig.toml` checks everything.

## How to read the model

A chain is an object with a mutable `next`, `misalign` and `off` and a fixed array; a buffer has the fields of
`struct evbuffer` and, as ghost state, the list of its chains, what each of them holds, and which is the last one with
data. `last_with_datap` is the chain whose `next` field it points to, or null when it points to the header. `Valid()`
says everything that `evbuffer-internal.h` says about these fields: the list is linked and ends in `last`, the cached
length is right, nothing follows the last chain with data, `misalign + off` stays within the memory, memory is shared
only between chains that nobody writes, and a chain of borrowed memory has no space at its end. `Contents()` is the
flat content, and every operation is stated in terms of it.

The scheduler, the request table, the rate limits and the pairs are state machines. Their functions say what one call
does; the lemmas about them say what holds over every run; the methods of the classes `EventBase`, `EvdnsBase`,
`Bufferevent`, `RateLimitGroup` and `Conduit` change fields, lists and counters step by step as the C code does, and
their postconditions say that the new state is the function of the old one. Where one of these functions only says what
a body does, a lemma beside it says what comes of it: `EventEffects`, `EventDue`, `PumpSends`, `RehashOk` and the like.

What the code takes from elsewhere are parameters: the time, what `evmap` answers, what `readv` delivers, which
nameserver and which transaction id are picked, where a random order starts, and random words.

Some properties fail as one would first state them; each is proved with the condition under which it holds:

- A pointer in a DNS message has 14 bits, so a name that was written further back cannot be pointed to
  (`PointerExact`, and `FarPointerMisleads` for a message in which it goes wrong). The round trip is proved for
  buffers of at most 2^14 bytes; the buffers that `evdns.c` itself encodes into are smaller. An empty label ends a name,
  so a name reads back as itself if and only if it has none (`JoinLabels`).
- The encoder compares every byte but the zero byte at the end with the length of its buffer. It writes this byte
  behind the buffer exactly when the name fills it and no suffix of the name is in the table (`EncodeFits`,
  `OneByteMore`), and a larger array is asked for only then (`DnsnameToLabels`).
- `evbuffer_read` and `evbuffer_reserve_space` with several vectors, asked for nothing, run into an assertion if the last
  chain is full, and only then (`ExpandFast`, `FilledToTheBrim`).
- A lone vector that `evbuffer_reserve_space` has handed out is taken back only if its chain is the last one or the
  first one with space (`SingleVectorCommits`). Which chain it is can be told before the call (`ReserveSpace`,
  `LoneVectorRefused`).
- In a pair, data can be stuck: it gets stuck when writing is enabled while it is suspended at the source, and stays so
  until there is an occasion for a transfer (`StuckStep`, `StuckExactly`, `SuspendedWriteHoldsBack`).
- In a pair, there can be more to read than the high-water mark admits: after a flush at the mark, or a mark set below
  what is there, until enough has been read or the mark has been raised (`AboveStep`, `AboveExactly`).
- A group that runs always has something to give if and only if its smallest share is at least one byte
  (`GivesSomethingExactly`, `ZeroShareRunsEmpty`).
- `evtag_consume` takes exactly one record if and only if the length of the record fits into an `int`, or the record is
  the end of the data and its length is not that of the error code (`ConsumesRecord`). The encoding functions append
  the whole record if and only if the buffer has room for all of it (`MarshalledWhole`).

Where code and comments disagree, the model follows the code. The comment on the wire format in `event_tagging.c` has
the more significant part of tags and of integers first (tag 0x166 as 82 66, nibbles in big-endian order); the code
writes the least significant seven bits of a tag, and the least significant nibble of an integer, first (E6 02).

## Model

| member | source | states |
|---|---|---|
| `EvBuffers.ChainNew` | Vendor/libevent/buffer.c:157-193 | a chain of at least the size asked for comes back empty, and none does exactly when the size plus the header exceeds the chain limit |
| `EvBuffers.EvBuffer.FreeTrailingEmptyChains` | Vendor/libevent/buffer.c:291-303 | exactly the chains behind the last one with data go (all of them if there is no data); what is left is linked, the content is the same, and the place to link on is returned |
| `EvBuffers.EvBuffer.ChainInsert` | Vendor/libevent/buffer.c:309-327 | the new chain follows the chains that are kept, the content grows by what it holds, and the pointer to the last chain with data moves only if it holds something |
| `EvBuffers.EvBuffer.Add` | Vendor/libevent/buffer.c:1730-1824 | over every layout of chains: the bytes are appended and the whole invariant of the buffer holds again, or, exactly when the end is frozen or a size limit is exceeded, -1 is returned and the content is unchanged; chains gained are newly allocated |
| `EvBuffers.EvBuffer.Prepend` | Vendor/libevent/buffer.c:1827-1910 | the bytes come first; a refused call changes nothing, and a call that fails because another chain would be too large has put those bytes in front for which the first chain had room, and no others |
| `EvBuffers.EvBuffer.Drain` | Vendor/libevent/buffer.c:1101-1166 | the first bytes go, as many as asked for or as there are; the chains left are a suffix of the old ones, and the pointer to the last chain with data is right again |
| `EvBuffers.EvBuffer.AddReference` | Vendor/libevent/buffer.c:2921-2958 | memory of the caller becomes content without being copied, in a chain that is never written, and is never among the memory that the buffer may write |
| `EvBufferMoves.AddBuffer` | Vendor/libevent/buffer.c:966-1009 | all chains change hands: the content of one buffer is appended to the other and the first is empty, no chain is in both, both invariants hold; frozen ends and a buffer added to itself change nothing |
| `EvBufferMoves.AppendChain` | Vendor/libevent/buffer.c:889-905 | linking the chains of one buffer behind the last chain with data of the other, with the pointer to the last chain with data taken from the right one of the two |
| `EvBufferMoves.PrependBuffer` | Vendor/libevent/buffer.c:1055-1098 | as for appending, at the front |
| `EvBufferMoves.PrependChain` | Vendor/libevent/buffer.c:948-963 | linking the chains of one buffer in front of those of the other keeps the invariant, also when the pointer to the last chain with data has to move to the tail of what was prepended |
| `EvBufferMoves.AdvanceLastWithData` | Vendor/libevent/buffer.c:704-721 | from any state in which chains behind it hold data, the pointer to the last chain with data is found again; the result is how many chains it passed |
| `EvBufferMoves.RemoveBuffer` | Vendor/libevent/buffer.c:1260-1347 | as many bytes as asked for, or as there are, leave the front of the source and are appended to the destination; if they are too many for it, exactly the whole chains among them arrive and the rest is lost; the two still share nothing |
| `EvBufferMoves.MoveChains` | Vendor/libevent/buffer.c:1309-1328 | whole chains are cut off the source and linked behind the destination |
| `EvBufferPullup.Pullup` | Vendor/libevent/buffer.c:1350-1461 | the content stays what it was and its first bytes are contiguous in the first chain; null is returned exactly when nothing was asked for, more than there is, or more than a chain can hold; only memory that the buffer owns, or new memory, is written |
| `EvBufferPullup.PullLayout` | Vendor/libevent/buffer.c:1424-1451 | each case of removed chains leaves the pointer to the last chain with data where it belongs |
| `EvBufferScatter.ExpandFast` | Vendor/libevent/buffer.c:2051-2158 | afterwards at most n chains, from the first one with space on, offer at least the space asked for; the content is the same; failure only beyond the chain limit; and there is a chain with space, as what follows asserts, if and only if something was asked for or the last chain was not full |
| `EvBufferScatter.ReadSetupVecs` | Vendor/libevent/buffer.c:2225-2260 | if there is a chain with space, as the code asserts, the vectors are the free space of consecutive chains from the first such one on, all but the last one complete, and add up to what was asked for |
| `EvBufferScatter.Read` | Vendor/libevent/buffer.c:2284-2412 | the largest number of bytes that have arrived, that one read takes, that were asked for and that FIONREAD has announced, if it has; exactly those are appended, however they are scattered over the free space of several chains, and the invariant holds again; a call for nothing may be made when the last chain is not full |
| `EvBufferScatter.FilledToTheBrim` | Vendor/libevent/buffer.c:2068-2251 | a buffer on which reading nothing, or reserving nothing with two vectors, fails that assertion: one whose only chain has been filled to its end |
| `EvBufferScatter.CommitSpace` | Vendor/libevent/buffer.c:724-791 | accepts exactly no vectors, one in the last chain, or vectors that start where the space of consecutive chains does; then the bytes written there are appended; otherwise nothing changes |
| `EvBufferScatter.ReserveSpace` | Vendor/libevent/buffer.c:671-701 | the vectors offer at least the space asked for; more than one are of the shape that can be committed; a lone one is the space of one chain, and can be committed if and only if, before the call, a chain between the first one with space and the last one did not have to be taken |
| `EvBufferScatter.ReservedCommits` | Vendor/libevent/buffer.c:752-785 | any beginning of the reserved vectors, each possibly shortened, can be committed |
| `EvBufferScatter.SingleVectorCommits` | Vendor/libevent/buffer.c:736-763 | a lone vector over the space of one chain, shortened or not, can be committed if and only if that chain is the last one or the first one with space |
| `EvBufferScatter.LoneVectorRefused` | Vendor/libevent/buffer.c:724-791 | a reserved lone vector that is refused: two bytes behind a chain with room for one, before another empty chain |
| `EvBufferScatter.ExpandSinglechain` | Vendor/libevent/buffer.c:1939-2046 | one chain of the buffer has the space asked for afterwards, whether it was there, realigned, replaced by a larger copy or added; it is the first one with space or the last one, unless the first was passed over for the next and there are more behind; the content is the same |
| `EvBufferSearch.SearchRange` | Vendor/libevent/buffer.c:2721-2782 | the least position from the start on at which the pattern occurs in the flat content and ends within the range, across chain boundaries; not found exactly if there is none |
| `EvBufferSearch.PtrMatches` | Vendor/libevent/buffer.c:2679-2712 | the comparison that walks over the chains agrees with an occurrence in the flat content |
| `EvBufferSearch.SetPtr` | Vendor/libevent/buffer.c:2623-2672 | the pointer designates the position asked for, or the end, and fails exactly beyond the content |
| `EvBufferSearch.SubtractPtr` | Vendor/libevent/buffer.c:2603-2620 | the pointer goes back by the distance, and fails exactly before the start |
| `EvBufferSearch.Strchr` | Vendor/libevent/buffer.c:1474-1493 | the first occurrence of a character, or none |
| `EvBufferSearch.FindEolChar` | Vendor/libevent/buffer.c:1523-1542 | the first CR or LF, or none |
| `EvBufferSearch.Strspn` | Vendor/libevent/buffer.c:1545-1581 | the length of the longest stretch of characters from the set |
| `EvBufferSearch.SearchEol` | Vendor/libevent/buffer.c:1597-1684 | for each of the five styles: the first line end of the flat content and its length, or the proof that there is none |
| `EvBufferSearch.CopyoutFrom` | Vendor/libevent/buffer.c:1190-1254 | the bytes from a position on, as many as asked for or as there are |
| `EvBufferSearch.Remove` | Vendor/libevent/buffer.c:1170-1181 | the bytes returned are the ones that leave the buffer |
| `EvBufferSearch.Readln` | Vendor/libevent/buffer.c:1687-1723 | the content is split into a line, its first line end and the rest; no line is returned exactly if the content has no line end or its front is frozen, and then nothing changes |
| `EvBufferSearch.LineHasNoEol` | Vendor/libevent/buffer.c:1687-1723 | a line contains no line end of its style, and line, line end and rest make up the content |
| `EvBufferSearch.EolUnique` | Vendor/libevent/buffer.c:1597-1684 | the first line end of a style is unique, in position and length |
| `EvBufferRuns.Run` | Vendor/libevent/buffer.c:671-2958 | over every run on two buffers of add, prepend, borrowing memory, drain, remove, pullup, expand, reserving with writing and committing, read, and moves from one buffer to the other, both invariants hold, the contents are what the same run makes of two plain sequences of bytes, and borrowed memory still holds what it held |
| `EventTime.CommonTag` | Vendor/libevent/event.c:1390-1416 | being a common timeout of a given index determines the tag in the microseconds |
| `EventTime.Retag` | Vendor/libevent/event.c:2670-2682 | a tag put on a plain time names the queue and leaves the moment as it was |
| `EventTime.TimerAddMicros` | Vendor/libevent/include/event2/util.h:532-540 | the sum of two times is their sum in microseconds, and normalized |
| `EventState.InsertInOrderFacts` | Vendor/libevent/event.c:3331-3358 | insertion keeps a queue in order of deadline, loses nothing, and puts the event behind exactly those that are not due later |
| `EventState.InsertTimeoutOk` | Vendor/libevent/event.c:3415-3436 | inserting a timeout keeps flags, queues and counters in agreement |
| `EventState.RemoveTimeoutOk` | Vendor/libevent/event.c:3267-3286 | removing a timeout does |
| `EventState.InsertActiveOk` | Vendor/libevent/event.c:3377-3395 | inserting in an active queue does |
| `EventState.RemoveActiveOk` | Vendor/libevent/event.c:3236-3250 | removing from an active queue does |
| `EventState.InsertLaterOk` | Vendor/libevent/event.c:3398-3412 | inserting in the queue for the next pass does |
| `EventState.RemoveLaterOk` | Vendor/libevent/event.c:3252-3265 | removing from the queue for the next pass does |
| `EventSteps.DelEffect` | Vendor/libevent/event.c:2810-2898 | deletion takes the event out of every queue, or does nothing while it is being finalized; no other event changes |
| `EventEffects.DelKeepsOrder` | Vendor/libevent/event.c:2810-2898 | the other events stay in their order when one is deleted |
| `EventSteps.ActivateEffect` | Vendor/libevent/event.c:2919-2967 | activation makes the event active, adds the result to one not yet delivered, and does nothing to an event that is being finalized |
| `EventEffects.ActivatedLast` | Vendor/libevent/event.c:3377-3395 | an event is activated behind all active ones of its priority, and leaves the queue in which it waited |
| `EventEffects.WaitsLast` | Vendor/libevent/event.c:3398-3412 | an event that has to wait does so behind all that wait |
| `EventEffects.CancelEffect` | Vendor/libevent/event.c:3069-3096 | cancelling takes a callback out of every queue, unless it is finalizing; no other changes |
| `EventEffects.RemoveTimerEffect` | Vendor/libevent/event.c:2555-2571 | removing a timer forgets timeout and interval of the event, and nothing else |
| `EventSteps.DeferEffect` | Vendor/libevent/event.c:3124-3140 | a deferred callback becomes active and counts, or waits once 33 have counted; the result says whether it was scheduled |
| `EventTimers.DeadlineFacts` | Vendor/libevent/event.c:2667-2684 | in microseconds the deadline is now plus the interval; it is normalized and carries the tag of the queue that the interval names |
| `EventTimers.AddTimeoutInv` | Vendor/libevent/event.c:2622-2725 | setting a timeout keeps every queue covered by a timer that is active or pending no later than the first deadline of the queue |
| `EventTimers.FirstIsEarliest` | Vendor/libevent/event.c:3331-3358 | in a common-timeout queue nothing is due before the first event |
| `EventDue.DrainEffect` | Vendor/libevent/event.c:1462-1482 | the callback of a common timeout activates exactly the events of its queue that are due, and leaves a head that is due later |
| `EventDue.RunTimerEffect` | Vendor/libevent/event.c:1462-1482 | with the new timer scheduled, the invariant holds again and no other timer has changed |
| `EventEffects.RunTimerSchedules` | Vendor/libevent/event.c:1447-1482 | afterwards the timer is pending for exactly the deadline of the first event that is left in its queue, and not pending if none is |
| `EventDue.ProcessesEffect` | Vendor/libevent/event.c:3181-3204 | a run over the heap activates exactly the events of the heap whose deadline has come, each of them in its turn, and keeps the invariant |
| `EventDue.SameAsOneHeap` | Vendor/libevent/event.c:1447-1482 | no timeout is lost: heap and queues together activate exactly the events that are due, as one heap of all timeouts would, in whatever order the timers run |
| `EventEffects.AddEffect` | Vendor/libevent/event.c:2597-2766 | adding succeeds exactly if the event is not being finalized and the map takes it; then it is inserted if need be, due at now plus the interval, in microseconds, in the right queue, and remembers the interval if it is periodic; no other event changes |
| `EventRuns.AddInv` | Vendor/libevent/event.c:2597-2766 | adding keeps the invariant of the base, and a failed call leaves the base as it was |
| `EventEffects.FinalizeEffect` | Vendor/libevent/event.c:2247-2258 | the whole record of a finalized event: out of every queue but the active one, in which it waits for its finalizer |
| `EventEffects.CallbackFinalizeEffect` | Vendor/libevent/event.c:2289-2303 | the same for bare callbacks |
| `EventRuns.FinalizeInv` | Vendor/libevent/event.c:2247-2258 | a finalizing event is in no timer queue and not inserted, and the invariant holds |
| `EventRuns.RunAtFacts` | Vendor/libevent/event.c:1562-1624 | in microseconds, a persistent event is due next one interval after it was due, or after now if it was not due or is late; never in the past, and in the same queue |
| `EventEffects.ProcessEffect` | Vendor/libevent/event.c:1634-1751 | the whole record of an event whose callback runs: not active, out of every queue unless it persists, and due again at the right microsecond if it is periodic; no other event changes |
| `EventEffects.KeepsPace` | Vendor/libevent/event.c:1562-1724 | a periodic event that runs in time is due two intervals after it was added, however late in the first interval it ran; otherwise one interval after it ran |
| `EventEffects.MakeActiveEffect` | Vendor/libevent/event.c:3439-3451 | everything that waited for the next pass becomes active, behind what was active already and in the same order, and its deferred callbacks count as scheduled in this pass; nothing else changes |
| `EventRuns.InitCommonInv` | Vendor/libevent/event.c:1487-1558 | a common timeout is found or made for each duration, one queue per duration, and refused exactly when 256 others exist |
| `EventRuns.NormalizedMicros` | Vendor/libevent/event.c:1496-1503 | normalizing keeps the length of a duration |
| `EventRuns.ApplyInv` | Vendor/libevent/event.c:2597-3096 | every step of a base keeps the invariant |
| `EventRuns.RunInv` | Vendor/libevent/event.c:1634-3451 | over every run flags, queues, counters, deadlines and timers stay consistent |
| `EventRuns.RunFacts` | Vendor/libevent/event.c:3212-3451 | from a new base on: the counters are the numbers of memberships, active and waiting exclude each other, and a finalizing event is in no timer queue |
| `EventRuns.AssertionsHold` | Vendor/libevent/event.c:3964-4020 | the consistency check of the base never fails |
| `EventDeferred.DeferBudget` | Vendor/libevent/event.c:3124-3140 | scheduling a deferred callback costs as much of the budget of the pass as it uses, and callbacks wait for the next pass only beyond the limit |
| `EventDeferred.PassBound` | Vendor/libevent/event.c:1634-1751 | whatever callbacks schedule, one pass runs at most as many as were queued plus what is left of 33 |
| `EventBases.EventBase.AddNolock` | Vendor/libevent/event.c:2597-2766 | the method that changes the base in place does what the function says about which the above is proved |
| `EventBases.EventBase.DelNolock` | Vendor/libevent/event.c:2810-2898 | likewise |
| `EventBases.EventBase.ActiveNolock` | Vendor/libevent/event.c:2919-2967 | likewise |
| `EventBases.EventBase.ActiveLaterNolock` | Vendor/libevent/event.c:2978-2992 | likewise |
| `EventBases.EventBase.CallbackActivateNolock` | Vendor/libevent/event.c:3006-3034 | likewise |
| `EventBases.EventBase.CallbackActivateLaterNolock` | Vendor/libevent/event.c:3037-3047 | likewise |
| `EventBases.EventBase.CallbackCancelNolock` | Vendor/libevent/event.c:3069-3096 | likewise |
| `EventBases.EventBase.DeferredSchedule` | Vendor/libevent/event.c:3124-3140 | likewise |
| `EventBases.EventBase.FinalizeNolock` | Vendor/libevent/event.c:2247-2258 | likewise |
| `EventBases.EventBase.CallbackFinalizeNolock` | Vendor/libevent/event.c:2289-2303 | likewise |
| `EventBases.EventBase.RemoveTimerNolock` | Vendor/libevent/event.c:2555-2571 | likewise |
| `EventBases.EventBase.InsertCommonTimeoutInOrder` | Vendor/libevent/event.c:3331-3358 | the backward walk over the queue inserts where the function says |
| `EventBases.EventBase.CommonTimeoutCallback` | Vendor/libevent/event.c:1462-1482 | the callback of a common timeout, with its loop, does what the function says |
| `EventBases.EventBase.TimeoutProcess` | Vendor/libevent/event.c:3181-3204 | the loop terminates and activates exactly the events of the heap that are due |
| `EventBases.EventBase.MakeLaterEventsActive` | Vendor/libevent/event.c:3439-3451 | the loop does what the function says |
| `EventBases.EventBase.ProcessFirst` | Vendor/libevent/event.c:1634-1700 | one round up to the call of the callback does what the function says |
| `EventBases.EventBase.ProcessDeferred` | Vendor/libevent/event.c:1634-1751 | a pass over a queue of deferred callbacks that go on scheduling each other terminates with the queue empty, within the bound |
| `EventBases.EventBase.InitCommonTimeout` | Vendor/libevent/event.c:1487-1558 | the method does what the function says |
| `DnsNames.JoinLabels` | Vendor/libevent/evdns.c:1614-1678 | the labels of a name spell it, up to one dot at its end, if and only if none of them is empty |
| `DnsNames.AtExtends` | Vendor/libevent/evdns.c:1614-1678 | what has been written stays readable whatever is written behind it, pointers included |
| `DnsNames.PointerExact` | Vendor/libevent/evdns.c:1635-1641 | a pointer leads to the position it was made for if and only if that is below 2^14 |
| `DnsNames.PointerAt` | Vendor/libevent/evdns.c:1635-1641 | a pointer stands for the labels at its target |
| `DnsNames.EncodeAt` | Vendor/libevent/evdns.c:1614-1678 | what is written for a name stands for its labels (sections 3.1 and 4.1.4 of RFC 1035), every pointer leads strictly backwards, and every entry of the table leads to its name |
| `DnsNames.EncodeFits` | Vendor/libevent/evdns.c:1614-1678 | the encoder stays within the buffer, but for one zero byte, and that if and only if the labels of the name fill the buffer to its end, the last one is not empty, and no suffix of the name is in the table |
| `DnsNames.EncodeAnswers` | Vendor/libevent/evdns.c:1614-1678 | exactly when encoding succeeds, how long the result is, and whether it fails with -1 or -2: by the first label at which the rest of the name is in the table or which is longer than 63 bytes, and by the room there is |
| `DnsNames.EncodeSucceeds` | Vendor/libevent/evdns.c:1614-1678 | every name of at most 255 bytes with labels of at most 63 is encoded where there is room for two bytes more than it has |
| `DnsNames.WrittenOnce` | Vendor/libevent/evdns.c:1635-1660 | a name that has been written out while the table had room takes two bytes from then on, a pointer to where it is |
| `DnsNames.OneByteMore` | Vendor/libevent/evdns.c:1614-1678 | a one-letter name and a buffer of two bytes: three bytes are written |
| `DnsNames.EncodeEnd` | Vendor/libevent/evdns.c:1614-1678 | a name ends where the encoder says if and only if no empty label has been written out |
| `DnsNames.NoEmptyIsWellFormed` | Vendor/libevent/evdns.c:1614-1678 | with no such name in the table, that is so if and only if the name has no empty label |
| `DnsNames.ParseAt` | Vendor/libevent/evdns.c:976-1030 | the parser reads the labels that the bytes stand for, if the output has room for them, and fails otherwise |
| `DnsNames.ParseExactly` | Vendor/libevent/evdns.c:976-1030 | on every packet: the parser succeeds if and only if the bytes spell labels, pointers leading anywhere but followed no more often than there are bytes, for which there is room; and the result is these labels and the end of the name |
| `DnsNames.ParseLoopBounds` | Vendor/libevent/evdns.c:976-1030 | on every packet, circles of pointers included, the parser terminates within the packet and within its output |
| `DnsNames.RoundTrip` | Vendor/libevent/evdns.c:976-1678 | a name reads back as its labels up to an empty one; that is the name if and only if no label is empty; and it ends where the encoder stopped if and only if no empty label has been written out |
| `DnsNames.FarPointerMisleads` | Vendor/libevent/evdns.c:1635-1641 | beyond 2^14 the round trip fails: a concrete packet and name |
| `DnsNames.WriteAllAt` | Vendor/libevent/evdns.c:1907-1990 | of any sequence of names that share a table, with other bytes in between, all stay readable |
| `DnsNames.WriteAllSucceeds` | Vendor/libevent/evdns.c:1907-1990 | a message with room for its names as they are, uncompressed, can be written |
| `DnsNames.AllNamesParse` | Vendor/libevent/evdns.c:976-1678 | parsing such a message at the start of each name gives back the name and its end |
| `DnsNames.MessageRoundTrip` | Vendor/libevent/evdns.c:976-1678 | so whatever encodable names and other bytes there are, if they fit they are written, and each name parses to itself and its end |
| `DnsPackets.LabelTable.GetPos` | Vendor/libevent/evdns.c:1575-1583 | the loop finds the first entry for the name, or none |
| `DnsPackets.LabelTable.Add` | Vendor/libevent/evdns.c:1587-1601 | the entry is remembered unless the table is full |
| `DnsPackets.DnsnameToLabels` | Vendor/libevent/evdns.c:1614-1678 | the cursor loop writes into the buffer what the specification says, returns the length or the error that EncodeAnswers tells, and leaves what is in front and behind alone; an array of exactly the length given is enough unless the name fills it |
| `DnsPackets.NameParse` | Vendor/libevent/evdns.c:976-1030 | the cursor loop leaves in the output what the specification says, as a C string, or fails as it says |
| `DnsRings.RequestInsert` | Vendor/libevent/evdns.c:2755-2771 | relinking appends the request to the circle |
| `DnsRings.RequestRemove` | Vendor/libevent/evdns.c:2717-2751 | relinking takes the request out and leaves a circle of the others in the same order, entered at the next one if it was the head |
| `DnsRequests.SubmitOk` | Vendor/libevent/evdns.c:2858-2877 | a submitted request has its id and nameserver, or waits behind all others; no other request changes, and lists and counters agree |
| `DnsRequests.FinishOk` | Vendor/libevent/evdns.c:653-710 | a finished request is gone, whether in flight or waiting; no other changes, and lists and counters agree |
| `DnsRequests.SwapOk` | Vendor/libevent/evdns.c:549-557 | the request has the new nameserver and its old id and place; no other changes, and lists and counters agree |
| `DnsRequests.PumpOneOk` | Vendor/libevent/evdns.c:747-774 | sending a waiting request does |
| `DnsRequests.PumpSends` | Vendor/libevent/evdns.c:747-774 | the pump sends those that have waited longest, in order, with what was picked for each, never beyond the limit, and stops only when nothing waits, the limit is reached or no nameserver is left |
| `DnsRequests.RehashOk` | Vendor/libevent/evdns.c:3426-3454 | a new limit, and one list for every five requests of it; every request in flight moves to the list where its id puts it, and none is lost or changed |
| `DnsRequests.RunOk` | Vendor/libevent/evdns.c:549-3454 | over every run each request in flight is in the list of its id and has a nameserver, each other one waits, and the counters of the base and of each nameserver are the numbers of their requests |
| `DnsBases.EvdnsBase.Submit` | Vendor/libevent/evdns.c:2858-2877 | the method, with its circular lists relinked in place, does what the function says |
| `DnsBases.EvdnsBase.RequestFinished` | Vendor/libevent/evdns.c:653-710 | likewise, with the pump that follows |
| `DnsBases.EvdnsBase.SwapNs` | Vendor/libevent/evdns.c:549-557 | likewise |
| `DnsBases.EvdnsBase.PumpWaiting` | Vendor/libevent/evdns.c:747-774 | likewise |
| `DnsBases.EvdnsBase.SetMaxRequestsInflight` | Vendor/libevent/evdns.c:3426-3454 | likewise, with both of its loops |
| `TokenBuckets.RefilledIsNaive` | Vendor/libevent/bufferevent_ratelim.c:74-111 | the refill by division, in wrapping arithmetic, is the naive one: a rate for each tick, up to the maximum |
| `TokenBuckets.ClampedShare` | Vendor/libevent/bufferevent_ratelim.c:703-721 | the smallest share is the largest number that is not above the one asked for nor above either rate; so it is at least one byte if and only if the one asked for is |
| `TokenBuckets.ShareExact` | Vendor/libevent/bufferevent_ratelim.c:236-251 | a member gets the largest number of bytes that the group has for each of its members, but the smallest share at least, and nothing while the group is suspended |
| `TokenBuckets.RefillExact` | Vendor/libevent/bufferevent_ratelim.c:529-557 | a refill brings a rate for each tick since the last one, up to the maximum, and wakes a suspended group if and only if this leaves a smallest share |
| `TokenBuckets.SpendExact` | Vendor/libevent/bufferevent_ratelim.c:295-305 | a transfer is charged to the group in full, and the group is suspended afterwards if and only if nothing is left |
| `TokenBuckets.BackwardsIgnored` | Vendor/libevent/bufferevent_ratelim.c:81-92 | a clock that goes back brings nothing |
| `TokenBuckets.RunCharges` | Vendor/libevent/bufferevent_ratelim.c:295-305 | over every run the total of the group is the sum of the transfers of its members |
| `TokenBuckets.StepOk` | Vendor/libevent/bufferevent_ratelim.c:198-557 | every step of a group keeps its bounds |
| `TokenBuckets.ThroughputBound` | Vendor/libevent/bufferevent_ratelim.c:198-557 | over every run the transfers of the members of a group add up to at most its initial limit, a rate for each elapsed tick and the smallest share less one; its limit never falls below one less the smallest share; while it runs the limit is positive |
| `TokenBuckets.ZeroShareRunsEmpty` | Vendor/libevent/bufferevent_ratelim.c:529-557 | from every state of a running group with a smallest share of zero, two allowed steps lead to one in which it runs and has nothing to give |
| `TokenBuckets.GivesSomethingExactly` | Vendor/libevent/bufferevent_ratelim.c:198-557 | in every run a group has something to give while it is not suspended, if and only if its smallest share is at least one byte |
| `RateLimits.LaneSteps` | Vendor/libevent/bufferevent.c:67-108 | suspending, unsuspending, enabling and disabling change what they say and nothing else; the backend runs exactly if the direction is enabled and nothing suspends it, and ending a new suspension undoes it |
| `RateLimits.DecrementEffect` | Vendor/libevent/bufferevent_ratelim.c:273-346 | a transfer is charged to its direction in full and to no other; bandwidth suspends this direction afterwards if and only if nothing is left |
| `RateLimits.DecrementLimitEffect` | Vendor/libevent/bufferevent_ratelim.c:969-1022 | the public functions charge the same, and suspend or wake when the limit crosses zero |
| `RateLimits.UpdateEffect` | Vendor/libevent/bufferevent_ratelim.c:74-111 | a look at the buckets brings a rate for each tick in both directions, remembers when, and wakes nobody |
| `RateLimits.RefillEffect` | Vendor/libevent/bufferevent_ratelim.c:394-439 | the callback brings a rate for each tick, ends the suspension where something is left, and is pending again if and only if one remains |
| `RateLimits.SetRateLimitEffect` | Vendor/libevent/bufferevent_ratelim.c:560-635 | a new configuration sets both limits and suspends or wakes by them; the one in use changes nothing, and none ends every suspension for bandwidth |
| `RateLimits.OwnThroughputBound` | Vendor/libevent/bufferevent_ratelim.c:198-439 | over every run a bufferevent transfers in each direction at most what its bucket held and a rate for each elapsed tick, and is never in debt |
| `RateLimits.DecrementOk` | Vendor/libevent/bufferevent_ratelim.c:273-346 | whatever suspends for want of bandwidth also makes the refill event pending |
| `RateLimits.DecrementLimitOk` | Vendor/libevent/bufferevent_ratelim.c:969-1022 | the same for the public functions, refunds included |
| `RateLimits.RefillOk` | Vendor/libevent/bufferevent_ratelim.c:394-439 | the refill callback makes itself pending again exactly if it has to |
| `RateLimits.SetRateLimitOk` | Vendor/libevent/bufferevent_ratelim.c:560-635 | a new configuration, or none, keeps the wake-up |
| `RateLimits.RefillWakes` | Vendor/libevent/bufferevent_ratelim.c:394-439 | the callback ends the suspension if and only if enough ticks have passed to cover the debt |
| `RateLimits.NoLostWakeUp` | Vendor/libevent/bufferevent_ratelim.c:272-635 | over every run, a suspension for want of bandwidth implies that the refill event is pending |
| `RateLimits.AtOnceBound` | Vendor/libevent/bufferevent_ratelim.c:198-258 | what may be transferred at once is the largest number within the own limit and the share in the group |
| `RateLimitGroups.VisitsEachOnce` | Vendor/libevent/bufferevent_ratelim.c:474-504 | from whatever random start, the order visits each member once |
| `RateLimitGroups.Bufferevent.DecrementBuckets` | Vendor/libevent/bufferevent_ratelim.c:273-293 | the method does what the function does that DecrementEffect is about |
| `RateLimitGroups.Bufferevent.OnRefill` | Vendor/libevent/bufferevent_ratelim.c:394-439 | likewise |
| `RateLimitGroups.Bufferevent.ConfigureRate` | Vendor/libevent/bufferevent_ratelim.c:560-635 | likewise |
| `RateLimitGroups.Bufferevent.RlimMax` | Vendor/libevent/bufferevent_ratelim.c:198-258 | the buckets are brought up to date; what may be transferred is the amount that AtOnceBound is about; with it all members together stay within the limit of the group unless it is no more than the smallest share, and nothing may be transferred while the group is suspended |
| `RateLimitGroups.RateLimitGroup.SuspendAll` | Vendor/libevent/bufferevent_ratelim.c:350-389 | exactly the members are suspended for the sake of the group |
| `RateLimitGroups.RateLimitGroup.UnsuspendAll` | Vendor/libevent/bufferevent_ratelim.c:488-523 | exactly the members are woken, each of them once |
| `RateLimitGroups.RateLimitGroup.DecrementGroup` | Vendor/libevent/bufferevent_ratelim.c:295-305 | accounting suspends or wakes the group together with all its members |
| `RateLimitGroups.RateLimitGroup.OnGroupRefill` | Vendor/libevent/bufferevent_ratelim.c:529-557 | both directions are refilled, and woken together with all members once there is a smallest share to give |
| `RateLimitGroups.RateLimitGroup.AddMember` | Vendor/libevent/bufferevent_ratelim.c:760-774 | a new member is suspended exactly in the directions in which the group is |
| `RateLimitGroups.RateLimitGroup.Join` | Vendor/libevent/bufferevent_ratelim.c:735-778 | a bufferevent leaves the group it is in, if it is another one, and becomes a member of this one; both groups stay sound |
| `RateLimitGroups.RateLimitGroup.RemoveMember` | Vendor/libevent/bufferevent_ratelim.c:787-807 | a member that leaves is not suspended for the sake of the group any more |
| `Tags.IntRoundTrip` | Vendor/libevent/event_tagging.c:121-377 | an integer of at most 16 nibbles decodes to itself, wherever it stands and whatever is behind it |
| `Tags.TagRoundTrip` | Vendor/libevent/event_tagging.c:178-246 | a 32-bit tag decodes to itself |
| `Tags.TagFormat` | Vendor/libevent/event_tagging.c:157-198 | on the wire, byte i of a tag has its bits from 7 * i on, least significant first, and a flag that says whether another byte follows; no byte more than needed |
| `Tags.IntFormat` | Vendor/libevent/event_tagging.c:99-154 | nibble i of an integer has its bits from 4 * i on; the first nibble says how many follow, less one; none more than needed |
| `Tags.DecodeTagExactly` | Vendor/libevent/event_tagging.c:201-246 | on every sequence of bytes: a tag is found if and only if one of the first five bytes ends it and it has 32 bits, and its value is what the bytes say |
| `Tags.DecodedInt` | Vendor/libevent/event_tagging.c:319-377 | on every sequence of bytes: an integer that is decoded is made of exactly the nibbles announced |
| `Tags.RecordRoundTrip` | Vendor/libevent/event_tagging.c:261-484 | a record with less than 2^31 bytes of payload comes back as it was, and what is behind it stays |
| `Tags.CutShort` | Vendor/libevent/event_tagging.c:442-484 | no beginning of a record is taken for a record |
| `Tags.StreamRoundTrip` | Vendor/libevent/event_tagging.c:261-484 | a stream of records gives back the records and is consumed exactly |
| `Tags.PeekRoundTrip` | Vendor/libevent/event_tagging.c:406-437 | peeking tells the encoded size of the first record, modulo 2^32, and the size of its payload |
| `Tags.ConsumesRecord` | Vendor/libevent/event_tagging.c:442-466 | consuming takes exactly the first record if and only if its length fits into an int, or the record ends the data and its length is not 2^32 - 1; from 2^31 on it empties the buffer, and for 2^32 - 1 it takes the header only |
| `Tags.NestedIntWidths` | Vendor/libevent/event_tagging.c:281-538 | 32-bit integers in records decode to themselves, and 64-bit ones with the 64-bit functions |
| `Tags.WrongTagRefused` | Vendor/libevent/event_tagging.c:489-538 | an integer under another tag is refused, and only the tag is taken |
| `Tags.TooWideRefused` | Vendor/libevent/event_tagging.c:489-538 | an integer of too many nibbles is refused, and its record is taken |
| `Tags.WrongTimevalTaken` | Vendor/libevent/event_tagging.c:583-609 | a timeval under another tag is refused, and its record is taken |
| `Tags.TimevalRoundTrip` | Vendor/libevent/event_tagging.c:311-609 | a timeval comes back modulo 2^32 in each part |
| `TagBuffers.EncodeIntInternal` | Vendor/libevent/event_tagging.c:121-154 | the nibble loop over the array writes the encoding |
| `TagBuffers.EncodeTagTo` | Vendor/libevent/event_tagging.c:178-198 | the encoded tag, five bytes at most, is appended if the buffer takes it |
| `TagBuffers.MarshalTo` | Vendor/libevent/event_tagging.c:261-267 | tag, length and payload are appended, each of them if the buffer takes it, since nobody looks at what evbuffer_add returns |
| `TagBuffers.MarshalIntTo` | Vendor/libevent/event_tagging.c:281-301 | the same for the record of an integer |
| `TagBuffers.MarshalledWhole` | Vendor/libevent/event_tagging.c:261-267 | the buffer grows by exactly the record if and only if its end is not frozen and all of the record fits into a size_t |
| `TagBuffers.DecodeTagInternal` | Vendor/libevent/event_tagging.c:201-246 | the loop over the pulled-up bytes decodes the tag, drains it if asked to, or fails and leaves the buffer alone |
| `TagBuffers.DecodeIntInternal` | Vendor/libevent/event_tagging.c:319-377 | the nibble loop decodes the integer at an offset without changing the content |
| `TagBuffers.PeekLengthOf` | Vendor/libevent/event_tagging.c:406-421 | the method on the buffer agrees with the specification and changes no content |
| `TagBuffers.PayloadLengthOf` | Vendor/libevent/event_tagging.c:424-437 | likewise |
| `TagBuffers.UnmarshalHeader` | Vendor/libevent/event_tagging.c:442-455 | the header is taken off the front; on failure what has been read so far is |
| `TagBuffers.Consume` | Vendor/libevent/event_tagging.c:458-466 | the method takes off the front what the function says, of which ConsumesRecord says when it is the first record |
| `TagBuffers.UnmarshalIntFrom` | Vendor/libevent/event_tagging.c:489-538 | the first record is taken off the front, and its integer returned if tag and length are right |
| `TagBuffers.UnmarshalTo` | Vendor/libevent/event_tagging.c:471-484 | the payload of the first record is appended to the other buffer and the record taken off the front |
| `PairPipes.TransferOk` | Vendor/libevent/bufferevent_pair.c:153-192 | a transfer conserves the bytes in order and leaves nothing behind that may still be delivered |
| `PairPipes.TransferLimits` | Vendor/libevent/bufferevent_pair.c:153-192 | a transfer moves bytes forward in order and changes no setting; below the high-water mark it moves as many as the mark admits and no more, at the mark or above nothing unless it is a flush, and then everything |
| `PairPipes.StepOk` | Vendor/libevent/bufferevent_pair.c:153-250 | every step does, and keeps reading suspended for the watermark exactly while the input has reached it |
| `PairPipes.StepSettings` | Vendor/libevent/bufferevent_pair.c:153-250 | every step changes the settings that it is for and no others, writes exactly what is written and takes exactly what is read |
| `PairPipes.PipeRuns` | Vendor/libevent/bufferevent_pair.c:153-250 | over every run all that was written, in order, is what was read, what can be read and what is held back; and unless writing is suspended at the source nothing is stuck |
| `PairPipes.StuckStep` | Vendor/libevent/bufferevent_pair.c:153-250 | exactly which steps leave data undelivered that could be delivered: enabling writing while it is suspended at the source gets data stuck, and what gives no occasion for a transfer leaves it so |
| `PairPipes.StuckExactly` | Vendor/libevent/bufferevent_pair.c:153-250 | over every run, data is stuck at the end if and only if one step got it stuck and no later one let it go |
| `PairPipes.AboveStep` | Vendor/libevent/bufferevent_pair.c:153-250 | exactly which steps leave more in the input than the mark admits: a flush at the mark, or a mark below what is there |
| `PairPipes.AboveExactly` | Vendor/libevent/bufferevent_pair.c:153-250 | over every run, the input is above its mark if and only if such a step has happened and nothing since has undone it |
| `PairPipes.SuspendedWriteHoldsBack` | Vendor/libevent/bufferevent.c:482-503 | a run in which that happens |
| `PairConduits.TransferBytes` | Vendor/libevent/bufferevent_pair.c:153-192 | on the two evbuffers: as many bytes as the watermark admits and no more change hands, in order, the two share nothing, and the inner ends are frozen again |
| `PairConduits.Conduit.RunTransfer` | Vendor/libevent/bufferevent_pair.c:153-192 | with the callbacks that the new input runs, the method does what the function says |
| `PairConduits.Conduit.Enabled` | Vendor/libevent/bufferevent_pair.c:225-250 | likewise |
| `PairConduits.Conduit.OnInput` | Vendor/libevent/bufferevent.c:136-149 | likewise |
| `PairConduits.Conduit.EnableWriting` | Vendor/libevent/bufferevent.c:482-503 | likewise |
| `PairConduits.Conduit.EnableReading` | Vendor/libevent/bufferevent.c:482-503 | likewise |
| `PairConduits.Conduit.SetWatermark` | Vendor/libevent/bufferevent.c:594-638 | likewise |
| `PairConduits.Conduit.Write` | Vendor/libevent/bufferevent_pair.c:205-222 | likewise, and what does not fit is refused |
| `PairConduits.Conduit.Take` | Vendor/libevent/bufferevent.c:470-473 | likewise, and the bytes returned are the first of the input |
| `Arc4Random.StirFromKeeps` | Vendor/libevent/arc4random.c:111-125 | whatever is mixed in, the state stays a permutation of 0 to 255, and a whole pass ends where it began |
| `Arc4Random.StirKeeps` | Vendor/libevent/arc4random.c:416-427 | so it does when a byte is drawn |
| `Arc4Random.StirRounds` | Vendor/libevent/arc4random.c:111-125 | one round, cell by cell, in numbers modulo 256 |
| `Arc4Random.StirMixes` | Vendor/libevent/arc4random.c:111-125 | every byte that is mixed in makes a difference |
| `Arc4Random.StirUndone` | Vendor/libevent/arc4random.c:111-125 | no round loses anything: the state before it can be told from the one after it and the byte |
| `Arc4Random.StirFromRounds` | Vendor/libevent/arc4random.c:111-125 | a pass is 256 rounds, in which the bytes of the data are mixed in one after the other, over and over |
| `Arc4Random.NextDraws` | Vendor/libevent/arc4random.c:416-427 | drawing a byte is a round in which nothing is mixed in; the byte is the cell that the two exchanged cells name together |
| `Arc4Random.Arc4.AddRandom` | Vendor/libevent/arc4random.c:111-125 | the loop over the array does what the function says and keeps the permutation |
| `Arc4Random.Arc4.GetByte` | Vendor/libevent/arc4random.c:416-427 | drawing a byte does what the function says and keeps the permutation |
| `Arc4Random.SmallestIsRemainder` | Vendor/libevent/arc4random.c:523-536 | the 32-bit arithmetic with wrap-around finds 2^32 modulo the bound |
| `Arc4Random.Unbiased` | Vendor/libevent/arc4random.c:513-545 | of the 32-bit numbers accepted, equally many are reduced to each number below the bound |
| `Arc4Random.Uniform` | Vendor/libevent/arc4random.c:513-545 | the result is the first accepted word modulo the bound |

## Left out

- Callbacks of users, and the accounting of bytes added and deleted for them (`evbuffer_run_callbacks`, deferred callbacks of bufferevents and their reference counts): what a callback does is a further step of a run.
- Chains that are pinned, multicast, or made for sendfile and file segments: the model has ordinary chains and chains of borrowed memory.
- Failing allocation: only the size limits of chains and buffers are modelled, and the failures that follow from them.
- Results of type `int` that are cut off, but for the lengths in `event_tagging.c`: they are modelled as unbounded; this matters only for more than 2^31 bytes at once.
- Assertions that stop the program (`EVUTIL_ASSERT`): they are proved where the invariant implies them; otherwise their exact condition is a precondition, as for `Read` and `ReserveSpace`.
- Locks, threads, condition variables and failing try-locks, so also the pending unsuspension of rate-limit groups: one loop, with every call atomic.
- The body of the min-heap: a set of events, with a top that has a least deadline.
- `evmap`, the backends, sockets and all system calls: parameters.
- `event_priority_set`, `event_base_once`, `event_base_loopbreak` and its like, and limits on the number of callbacks per pass: the priority of an event is fixed, and a pass may end after any round.
- The order in which `event_process_active` goes through the priorities: a run may take the first event of any active queue.
- Timeouts whose microseconds are not below one million and that carry no tag: callers have to pass normalized times.
- Nameservers that fail and are probed, the choice of a nameserver, and the uniqueness of transaction ids: parameters.
- Reading resolver configuration and hosts files, `getaddrinfo`, and the records of a reply: only names are modelled.
- Timeouts, end-of-file events and unlinking in pairs.
- The seeding of arc4random.
- `event_rpcgen.py`, evrpc, http, filters, OpenSSL, and the Swift layer.
- Run: what is added, prepended or borrowed at once has to fit into one chain, the ends are not frozen, what `evbuffer_remove_buffer` brings together fits into a `size_t`, and no read asks for nothing; the contracts of the single operations cover the other cases. Space is reserved with two vectors or more, and what is written there is committed before anything else is done.
- ReserveSpace: a negative size is not modelled, since it is a size that no chain can hold.
- PtrMatches: says whether the bytes are equal, which is all that its caller asks, and not which of two different ones is less.
- GetChr: for a position inside a chain, as its only caller has it.
- AddReference: the memory is not longer than a chain may be, and is not memory that the same buffer may write already.
- DecrementGroup: bytes are not negative, as its callers have them.
- SetPtr: a pointer to be moved is valid or not found; one left over from before a change of the buffer is not.
- ProcessFirst: ends where the callback of the user is called; what the callback does are further steps.
- SameAsOneHeap: timers run one directly after the other; user callbacks in between are not part of the statement.
- DnsnameToLabels: for a name that fills the buffer the array has to be one byte longer than the length given; what the byte behind the array would overwrite is not modelled.
- RoundTrip: for buffers of at most 2^14 bytes, for the reason given above.
- EncodeAt: for the same reason.
- WriteAllAt: for the same reason.
- AllNamesParse: for the same reason.
- RefillWakes: limits stay above the most negative `ev_ssize_t`.
- UnmarshalTo: a payload of 2^31 bytes or more is refused, as in the code, where the length becomes a negative `int`; so StreamRoundTrip is about smaller ones.
- Uniform: draws from a given list of words rather than looping for ever.
- RequestFinished: freeing the request, its handle and its timer is not modelled.
