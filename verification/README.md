# Verified model of a lock-order deadlock detector

The program modelled here watches a multi-threaded program through interposed pthread calls
and reports potential deadlocks. It has two halves:

* a **runtime** in C++ that writes every lock operation into a per-thread ring buffer, which
  one backend thread drains into a text trace, and
* an offline **analyzer** in Python that parses the trace, replays it into a graph of
  "held A while requesting B" edges, and searches that graph for cycles.

The Dafny files model both halves and the way from one to the other, and prove what each
part is for.

## The parts

**Finding cycles** (`analyzer/dl_analyzer/cycles.py`). `Tarjan` is the iterative search for
strongly connected components with its explicit work stack, proved to return exactly the
partition of the nodes into classes of mutual reachability. `SimpleCycles` is the reference:
a recursive enumeration `Emit` that lists exactly the simple cycles through a start node,
each once. `CycleSearch` is the program's enumeration with its explicit stack and emission
cap, proved to produce the first `cap` elements of the reference. `CanonicalCycles` has the
rotation to the least lock, the sort key, the sort and the removal of adjacent duplicates.
`FindCycles` puts them together: what is reported is sound, sorted and without repetition, and
each edge of a reported cycle carries what the graph has recorded for it;
it is complete whenever the cap admits it; for a positive cap it has a cycle of every
component that has one, and so it is non-empty exactly if there is a cycle.
The cap counts raw emissions, and a cycle of k locks is emitted k times, once for each of
its locks, so completeness asks that the *lengths* of the cycles of a component sum up to at
most the cap.

**Replay** (`analyzer/dl_analyzer/graph.py`). `LockGraph` is the `Graph` class with its
in-place handlers; each is proved equal to a step of the functional replay in `Replay`. `Events`
says what the operations are, and `Effects` what each of them does to held locks, edges,
generations and metadata, operation by operation. On that: held stacks are saturating counters
(`HeldLocks`), every edge is explained by its earliest witness (`EdgeHistory`), an edge's kinds
and backtraces are those of the event since which the first lock was held and of the request for
the second (`Witnesses`), generations separate the objects that live at one address
(`Generations`), and `Schedule` says when the order in which the rings were drained matters.
DESTROY does not commute, so it can matter. Without INIT, held locks, known locks and
generations depend only on what each thread did, and all merges of the threads' streams agree
on an edge if and only if it is not contested: no thread's last word on it is to build it
while another's is to destroy one of its ends. This can be checked on the streams before they
are merged. `Stamps` shows that time stamps and backtraces decide nothing. `Verdicts` combines
replay and search: a lock hierarchy gives silence, and without DESTROY something is reported
if and only if locks were requested in a ring.

**The ring** (`src/ring_buffer.h`, `src/event_log.cpp`, `src/backend.cpp`). `BitMask` and
`RingLayout` hold the arithmetic and the meaning of the bytes. `ThreadRing` is the ring as a
class over a byte array with wrapping 64-bit counters, proved to decide as one with unbounded
counters would. `RingProtocol` is the same ring under concurrency: one step is one load or
store of a counter or of a byte, loads of the other side's counter may be stale, and the
results hold for every interleaving. `EventBytes` is the binary event. `Pipeline` composes
any number of such rings with the registry, its mutex, lazy registration, the dead flags, the
freeing of rings and the shutdown, and `Closing` says exactly when the backend, once the
threads take no more steps, closes the log with nothing left in a ring. `Backend` is the drain
loop as imperative code on ring objects at rest. `RingAlone` connects it and the ring class
with the step-by-step ring: where one side is not disturbed, that side's steps do what the
methods promise.

**The trace text** (`src/backend.cpp`, `src/module_map.cpp`,
`analyzer/dl_analyzer/trace_reader.py`). `Digits` has number printing and Python's `int`,
`TraceText` lines and fields and the printed trace, `TraceReader` the analyzer's reading loop
proved against a recursive parser, and `TraceRoundTrip` the round trip, from the runtime's codes
to the analyzer's and back, and what becomes of a truncated trace.

**Backtraces** (`src/backtrace.cpp`). `FrameWalk` is the frame-pointer loop writing into an
array, against the chain of frames.

**End to end.** `EndToEnd` follows the events from the threads' commits through rings, file
and parser to the verdict, which it states in terms of what each thread committed: without
INIT and contested edges a cycle is reported if and only if there is a ring of locks, each of
them held by some thread whose last word on it was to ask for the next. So two runs in which
the threads commit the same operations get the same verdict, however threads and backend were
interleaved and whatever the times and call chains.

## How the model relates to the code

* Dictionaries are maps. Where the code walks over a dictionary, the model picks the keys in
  an arbitrary order, so the results hold for every iteration order.
* Python's `list.sort` is modelled by an insertion sort of our own; for the modules it is
  characterised completely (ascending, stable, nothing lost).
* Loads and stores of the atomics are single steps of one interleaving. In `RingProtocol` a
  load of the other side's counter returns any value it has had, though none older than this
  side has seen. The justification for reading bytes as current is the release/acquire
  pairing of section 32.4 of ISO/IEC 14882:2017 together with `RingProtocol.WritesAreSafe`:
  no byte is written while it is unread. In `Pipeline` the backend's loads of a head are up to
  date; the producers' loads of a tail may still be stale.
* Words in a ring are little-endian, as on the x86-64 machines the runtime is written for.
* A thread id is not used again, and marking its ring dead is the last thing a thread does.
* The file is a growing sequence; in `Pipeline` its entries are the payloads together with
  the thread whose ring they came from, and `EndToEnd` turns them into text.
* Two branches of the code turned out to behave differently from what one may expect. The
  second tag check of the drain (`src/backend.cpp:54`) does stop a call, though never at an
  unknown tag: it stops at padding that was published after the skip loop had found the ring
  empty (`RingAlone.StopsAtPadding` gives a run for every configured size,
  `RingProtocol.StopsExactlyAtPaddingAfterEmpty` says exactly when). The next call picks it up,
  so nothing is lost. The branches for a short header, a short frame and an oversized frame
  are never taken (`RingProtocol.OutcomesAre`).
* An event that announces more frames than follow it takes the next event with it: the reader
  uses up that event's line as the missing frame
  (`TraceRoundTrip.EventBehindShortFramesIsLost`).
* An event can be committed to a log that is still open and yet not get into it: if the scan
  that closes the log has already passed its ring (`Closing.LateEventIsLeft` gives a run,
  `Closing.ClosingSucceeds` says exactly when). Everything committed before the shutdown
  request is written.

## Model

| member | source | states |
|---|---|---|
| Tarjan.PushKeeps | analyzer/dl_analyzer/cycles.py:61-67 | Opening an unvisited node keeps the search invariant: work nodes form a path, the stack is ordered by index, on-stack nodes lead back to open ones, low values are reached |
| Tarjan.LookKeeps | analyzer/dl_analyzer/cycles.py:56-71 | Looking at a visited neighbour and lowering `low` keeps the invariant |
| Tarjan.MergeKeeps | analyzer/dl_analyzer/cycles.py:73-78 | Returning to the parent with the child's `low` keeps the invariant |
| Tarjan.CloseKeeps | analyzer/dl_analyzer/cycles.py:79-87 | Closing a component keeps the invariant |
| Tarjan.LeavesIsComponent | analyzer/dl_analyzer/cycles.py:79-87 | What is popped at a root is exactly one class of mutual reachability |
| Tarjan.PopComponent | analyzer/dl_analyzer/cycles.py:80-87 | The popping loop takes off exactly the stack from the root on, and only its nodes lose their on-stack mark |
| Tarjan.Leave | analyzer/dl_analyzer/cycles.py:73-87 | Leaving a frame passes `low` to its parent and, at a root, moves one more component to the result; the search invariant and the partition of the finished nodes are kept |
| Tarjan.Explore | analyzer/dl_analyzer/cycles.py:43-87 | The inner loop from one start, with its explicit work stack, terminates and leaves only closed components, all nodes it visited among them |
| Tarjan.TarjanScc | analyzer/dl_analyzer/cycles.py:34-88 | The result is the partition of all nodes into strongly connected components: each node in exactly one, two nodes share one if and only if each reaches the other |
| SimpleCycles.RootOfEmit | analyzer/dl_analyzer/cycles.py:111-162 | The reference enumeration from a start lists exactly the simple cycles of length two or more through it inside the component |
| SimpleCycles.EmitOnce | analyzer/dl_analyzer/cycles.py:121-162 | It lists each of them once |
| SimpleCycles.EmitAllExact | analyzer/dl_analyzer/cycles.py:107-162 | Over all starts it lists exactly the rooted simple cycles of the component |
| SimpleCycles.EmitAllOnce | analyzer/dl_analyzer/cycles.py:107-162 | And each rooted cycle once, so a cycle of k nodes k times |
| CycleSearch.BuildAdj | analyzer/dl_analyzer/cycles.py:92-96 | The adjacency lists have an entry for every endpoint and contain exactly the edges, without repetition |
| CycleSearch.MakeCycle | analyzer/dl_analyzer/cycles.py:134-144 | A closed path becomes a cycle exactly if all its edges are in the graph; its edges join up to a ring over the path, each with the info the graph has for it |
| CycleSearch.ScanNeighbours | analyzer/dl_analyzer/cycles.py:124-156 | The neighbour loop of one stack frame emits what the reference emits up to the next descent |
| CycleSearch.EnumerateFrom | analyzer/dl_analyzer/cycles.py:111-162 | The backtracking search with its explicit stack emits the reference enumeration from this start, cut off at what is left of the cap |
| CycleSearch.EnumerateScc | analyzer/dl_analyzer/cycles.py:104-162 | For a component it emits the first elements of the reference enumeration, `cap` of them or all if there are fewer, none if the cap is not positive |
| CanonicalCycles.Canon | analyzer/dl_analyzer/cycles.py:165-176 | The cycle is rotated to the first position of its least lock, least by address and then by generation |
| CanonicalCycles.RotateIsCanonical | analyzer/dl_analyzer/cycles.py:168-176 | Rotating a simple cycle to its least lock gives its normal form |
| CanonicalCycles.CanonicalRotationUnique | analyzer/dl_analyzer/cycles.py:164-176 | Only one rotation of a cycle is in normal form |
| CanonicalCycles.KeyDetermines | analyzer/dl_analyzer/cycles.py:181-184 | Cycles with the same sort key visit the same locks in the same order |
| CanonicalCycles.ShorterFirst | analyzer/dl_analyzer/cycles.py:181-186 | Shorter cycles are reported first |
| CanonicalCycles.FirstDifferenceDecides | analyzer/dl_analyzer/cycles.py:181-186 | Equally long cycles are ordered by the first edge in which they differ: the address and generation it leads from, then those it leads to |
| CanonicalCycles.Sort | analyzer/dl_analyzer/cycles.py:186 | The result is sorted by key and a permutation |
| CanonicalCycles.Dedup | analyzer/dl_analyzer/cycles.py:188-197 | On a sorted list the removal of adjacent duplicates leaves strictly ascending keys, and every key that occurred |
| FindCycles.NormalForm | analyzer/dl_analyzer/cycles.py:164-176 | Every cycle is a rotation of a cycle in normal form |
| FindCycles.RawMembers | analyzer/dl_analyzer/cycles.py:101-162 | The enumeration of a component contains exactly the cycles of the edge set that start in it |
| FindCycles.RawCount | analyzer/dl_analyzer/cycles.py:104-148 | Without a cap the number of emissions is the sum of the lengths of the component's cycles |
| FindCycles.ListExists | analyzer/dl_analyzer/cycles.py:101-162 | Each component's cycles in normal form can be listed, so the completeness bound is never void |
| FindCycles.ComponentFound | analyzer/dl_analyzer/cycles.py:104-148 | For a positive cap the enumeration finds a cycle in the component of every cycle |
| FindCycles.FindAllCycles | analyzer/dl_analyzer/cycles.py:91-197 | Reported cycles are rings of edges of the graph over distinct locks, written from the least one on, each edge with the info recorded for it; they are strictly sorted; if the lengths of a component's cycles sum up to at most the cap all of them are reported; for a positive cap every component with a cycle has a reported one, and something is reported if and only if there is a cycle |
| FindCycles.VerdictIsClosedWalk | analyzer/dl_analyzer/cycles.py:91-162 | For a positive cap something is reported if and only if the edges contain a closed walk |
| Events.ActionIs | analyzer/dl_analyzer/graph.py:137-191 | The dispatch in terms of operation, return code and object kind: what acquires, fails, releases, returns from a wait, begins and ends a lock, which lock it means and how it asks for it |
| Effects.HoldAfter | analyzer/dl_analyzer/graph.py:137-191 | Operation by operation: each successful acquisition adds one hold, UNLOCK of any kind of lock takes one away down to zero, a condition return leaves its mutex held at least once, everything else and other threads' holds stay |
| Effects.EdgeAfter | analyzer/dl_analyzer/graph.py:137-191 | Which edges are there after each operation: first acquisitions, failed attempts and condition returns add those from the other held locks, a failed plain acquisition none, DESTROY removes those of its lock |
| Effects.RecordAfter | analyzer/dl_analyzer/graph.py:115-128 | A new edge records the thread, the holder's kind and backtrace and the kind and backtrace of the request; an old one keeps its record |
| Effects.GenAfter | analyzer/dl_analyzer/graph.py:28-49 | INIT begins the next generation, the first use of an address generation 1, nothing else changes one |
| Effects.MetaAfterEvent | analyzer/dl_analyzer/graph.py:36-70 | INIT describes the new lock, DESTROY marks its lock as dead, a first use without INIT describes the lock by its request |
| Effects.NothingHappens | analyzer/dl_analyzer/graph.py:146-186 | PRE events, failed plain acquisitions and condition returns without a mutex change nothing at all |
| Effects.ReplayIsConsistent | analyzer/dl_analyzer/graph.py:137-191 | What these assume of the state holds after every trace |
| LockGraph.Graph.EnsureGen | analyzer/dl_analyzer/graph.py:28-33 | An address without a generation gets generation 1; the result is the current lock |
| LockGraph.Graph.OnInit | analyzer/dl_analyzer/graph.py:36-49 | The new state is the functional INIT step of the old one |
| LockGraph.Graph.OnDestroy | analyzer/dl_analyzer/graph.py:51-63 | The new state is the functional DESTROY step |
| LockGraph.Graph.FindHeld | analyzer/dl_analyzer/graph.py:71-74 | The search delivers the first entry of the lock, if there is one |
| LockGraph.Graph.TakeHold | analyzer/dl_analyzer/graph.py:71-84 | Re-entry counts up the lock's entry and builds no edge; otherwise edges are built and a new entry is pushed |
| LockGraph.Graph.OnAcquire | analyzer/dl_analyzer/graph.py:65-84 | The new state is the functional acquisition step: re-entry counts up and builds no edge, otherwise edges from all held locks and a new entry |
| LockGraph.Graph.OnAcquireAttempt | analyzer/dl_analyzer/graph.py:86-92 | A failed request builds edges and holds nothing |
| LockGraph.Graph.OnUnlock | analyzer/dl_analyzer/graph.py:94-107 | The latest entry of the lock is counted down or removed; unknown locks change nothing |
| LockGraph.Graph.OnCondPost | analyzer/dl_analyzer/graph.py:109-112 | A returning condition wait releases and takes its mutex again |
| LockGraph.Graph.BuildEdgesTo | analyzer/dl_analyzer/graph.py:115-128 | Edges from every other held lock, each kept if it exists already |
| LockGraph.Graph.ReplayAll | analyzer/dl_analyzer/graph.py:137-191 | Replaying a list of events equals the functional run |
| LockGraph.Graph.Handle | analyzer/dl_analyzer/graph.py:138-191 | Dispatching one event equals one functional step |
| HeldLocks.TakeCounts | analyzer/dl_analyzer/graph.py:71-84 | Taking a lock raises its hold count by one and leaves the others |
| HeldLocks.DropCounts | analyzer/dl_analyzer/graph.py:94-107 | Releasing a lock lowers its hold count by one, stopping at zero, and leaves the others |
| HeldLocks.GenIsCurrent | analyzer/dl_analyzer/graph.py:28-38 | The generation of an address after any trace is determined by its INITs and first use |
| HeldLocks.HeldIsCounted | analyzer/dl_analyzer/graph.py:65-112 | After every trace, INIT and DESTROY included, a thread's stack has distinct locks with positive counts, and each count is the thread's acquisitions of that lock minus its releases, saturating at zero, a condition return taking n to max(n, 1); held if and only if positive |
| EdgeHistory.AddEdgesExact | analyzer/dl_analyzer/graph.py:115-128 | Exactly the edges from other held locks to the requested one are added, with the holder's kind and backtrace; existing ones stay |
| EdgeHistory.EdgeStep | analyzer/dl_analyzer/graph.py:51-128 | An edge is there after an event exactly if it was there and was not destroyed, or the event builds it |
| EdgeHistory.EarliestWitness | analyzer/dl_analyzer/graph.py:51-63 | An edge exists if and only if some event built it and no DESTROY of an endpoint came later; it keeps what the first such event recorded |
| EdgeHistory.BuiltByCounts | analyzer/dl_analyzer/graph.py:65-128 | An event builds an edge exactly if it asks for its target while the thread's count of its source is positive |
| Witnesses.EntryIsRecorded | analyzer/dl_analyzer/graph.py:65-112 | After every trace a stack entry records the kind and backtrace of the event since which the thread holds the lock, the latest at which its count rose from zero or, in a condition return, came back to one |
| Witnesses.EdgeIsExplained | analyzer/dl_analyzer/graph.py:115-128 | In terms of events and counters alone: an edge exists if and only if it was requested and no end was destroyed later; it records the earliest such request, its thread, kind and backtrace, and the kind and backtrace of the event since which that thread held the first lock |
| Schedule.RunIsLocal | analyzer/dl_analyzer/graph.py:65-112 | Without INIT generations stay and a thread's held stack depends on its own events only |
| Schedule.RunByThread | analyzer/dl_analyzer/graph.py:28-63 | Without INIT the known addresses and locks are those known before and those some thread's own stream uses |
| Schedule.EdgeByOutcome | analyzer/dl_analyzer/graph.py:51-128 | Without INIT an edge is there after a run exactly if the last event that builds it or destroys an end of it builds it, or there is no such event and it was there before |
| Schedule.EdgeIsScheduled | src/backend.cpp:114-144 | After any history, all merges of the same INIT-free streams agree on an edge if and only if no thread's last word on it is to build it while another's is to destroy an end of it |
| Schedule.ScheduleIndependence | analyzer/dl_analyzer/graph.py:137-191 | After any history, two merges of the same INIT-free streams without a contested edge lead to the same held stacks, edge keys, known locks and generations |
| Schedule.ScheduleIndependenceIsExact | src/backend.cpp:114-144 | All merges of INIT-free streams lead to the same graph if and only if no edge is contested |
| Schedule.EdgeByStreams | analyzer/dl_analyzer/graph.py:115-191 | In a trace without INIT and without contest on it an edge is there exactly if it is some thread's last word, from its own stream, to build it |
| Schedule.DestroyOrderMatters | analyzer/dl_analyzer/graph.py:51-63 | An instance: two merges of the same streams with a DESTROY lead to different edges |
| Stamps.StampsDoNotMatter | analyzer/dl_analyzer/graph.py:65-191 | Traces that differ in time stamps and backtraces only lead to the same edges, generations and hold counts |
| Generations.GoneStays | analyzer/dl_analyzer/graph.py:51-128 | A retired lock that is in no edge and no stack stays so through any event |
| Generations.RetiredForever | analyzer/dl_analyzer/graph.py:36-38 | And through any run |
| Generations.GenerationSeparation | analyzer/dl_analyzer/graph.py:28-63 | If an address is destroyed while no thread holds its lock, and initialised again without a use in between, no later state has an edge or stack entry of the old lock |
| Generations.IdentityEndsWithInit | analyzer/dl_analyzer/graph.py:28-38 | Generations never go back, and an address keeps its identity exactly until its next INIT: a use after DESTROY revives the same lock |
| Verdicts.ReplayNoSelfLoop | analyzer/dl_analyzer/graph.py:118-119 | No trace leads to an edge from a lock to itself |
| Verdicts.SilentIffRanked | analyzer/dl_analyzer/cycles.py:91-197 | Nothing is reported if and only if the locks can be ranked so that every edge goes upwards |
| Verdicts.HierarchyIsSilent | analyzer/dl_analyzer/graph.py:65-128 | If every edge-building request goes upwards in some rank, nothing is reported, for every trace and cap |
| Verdicts.EdgesAreRequested | analyzer/dl_analyzer/graph.py:115-191 | Without DESTROY the edges are exactly the requests made while holding another lock, in terms of counters |
| Verdicts.VerdictIsRequestRing | analyzer/dl_analyzer/cycles.py:91-162 | Without DESTROY, for a positive cap, something is reported if and only if two or more distinct locks were requested in a ring |
| Verdicts.ScheduleKeepsVerdict | src/backend.cpp:114-144 | On INIT-free streams without a contested edge the order in which the backend drains the rings cannot change the verdict |
| Verdicts.Analyze | analyzer/dl_analyzer/graph.py:137-191 | Replay followed by the search reports rings of edges with their recorded info, is complete within the cap, has a cycle of every component with one, and gives the verdict |
| BitMask.AndMask | src/ring_buffer.h:67 | Masking with one less than a power of two is the remainder |
| BitMask.IsPow2Exact | src/config.cpp:40 | The size test accepts exactly the powers of two |
| BitMask.WrapKeepsOffset | src/ring_buffer.h:67 | The index of a position is that of its wrapped 64-bit counter |
| BitMask.WrapKeepsDistance | src/ring_buffer.h:48-52 | The wrapped difference of head and tail is the true one while it is below 2^64 |
| RingLayout.WriteBehind | src/ring_buffer.h:74-86 | A byte written behind the head in the free room leaves all unread bytes alone |
| RingLayout.PublishEvent | src/ring_buffer.h:92-97 | Moving the head over a complete event adds exactly its payload to the queue |
| RingLayout.RetireEvent | src/ring_buffer.h:132-135 | Moving the tail over an event takes exactly its payload off the queue |
| RingLayout.FrontTag | src/ring_buffer.h:109-115 | The byte at the tail is the tag of the front record; head equals tail exactly if there is none |
| RingLayout.FrontPayload | src/ring_buffer.h:124-129 | The front payload lies in one piece behind its tag, inside the buffer |
| ThreadRing.Ring.constructor | src/ring_buffer.h:25-36 | A new ring is empty; its size is any power of two below 2^64 |
| ThreadRing.Ring.Readable | src/ring_buffer.h:48-52 | The wrapped difference is the number of unread bytes, zero exactly if nothing is queued |
| ThreadRing.Ring.Reserve | src/ring_buffer.h:58-89 | With wrapping counters it fails exactly if the free bytes are fewer than the event with its tag and the padding it needs; otherwise the payload has room in one piece, the padding is published up to the buffer's end, and the queue is unchanged; on failure nothing changes |
| ThreadRing.Ring.Pad | src/ring_buffer.h:70-77 | The padding loop adds that many padding records and no payload |
| ThreadRing.Ring.Commit | src/ring_buffer.h:92-97 | The reserved bytes are appended to the queue as one payload |
| ThreadRing.Ring.TryLog | src/event_log.cpp:143-172 | One attempt appends exactly the payload if there is room and nothing otherwise |
| ThreadRing.Ring.PeekTag | src/ring_buffer.h:109-115 | The tag of the front record, if there is one |
| ThreadRing.Ring.SkipPadding | src/ring_buffer.h:118-121 | Takes off one padding record, no payload |
| ThreadRing.Ring.PeekPayload | src/ring_buffer.h:124-129 | Delivers the first bytes of the front payload |
| ThreadRing.Ring.ConsumeEvent | src/ring_buffer.h:132-135 | Takes exactly the front payload off the queue |
| ThreadRing.DrainedRoom | src/ring_buffer.h:58-89 | On a drained ring an event fits exactly if it fits before the end of the buffer or behind its padding |
| ThreadRing.AlwaysRoom | src/ring_buffer.h:58-89 | It fits at every head position exactly if twice its size less one is at most the capacity |
| ThreadRing.EveryEventFits | src/event_log.cpp:120-149 | With at least 4096 bytes and at most 64 frames every event fits once the ring is drained |
| RingProtocol.RunOk | src/ring_buffer.h:48-135 | The invariant of producer and consumer holds under every interleaving |
| RingProtocol.QueueIsFifo | src/ring_buffer.h:48-135 | Payloads taken followed by unread ones are the committed ones byte for byte; the unread bytes begin and end at record boundaries and are at most the capacity |
| RingProtocol.StepIsQueueStep | src/ring_buffer.h:48-135 | Each atomic step leaves the queue alone, appends the producer's payload, or moves the front payload to the backend |
| RingProtocol.WritePlace | src/ring_buffer.h:70-86 | Each write goes to the next byte behind what is written, inside the buffer, with free room |
| RingProtocol.WritesAreSafe | src/ring_buffer.h:70-86 | Under every interleaving no write lands outside the buffer or on an unread byte |
| RingProtocol.RecheckSucceeds | src/ring_buffer.h:78-84 | The second look at the tail, after padding, never finds too little room |
| RingProtocol.FreshLoadDecides | src/event_log.cpp:142-149 | A producer that sees the current tail gets room exactly if there is some, and on a drained ring of at least 4096 bytes always |
| RingProtocol.WrappedDecides | src/ring_buffer.h:58-89 | With 64-bit counters both halves of `reserve` decide as with unbounded ones, for every tail value the producer can have loaded, however stale |
| RingProtocol.DrainedMeansTaken | src/backend.cpp:130 | When the tail has caught up with the head, everything committed has been taken |
| RingProtocol.OutcomesAre | src/backend.cpp:47-86 | A call ends with an event written, with an empty ring, or at padding newer than an empty ring; short headers, short frames, oversized frames and unknown tags do not occur |
| RingProtocol.StopsExactlyAtPaddingAfterEmpty | src/backend.cpp:50-54 | The second tag check stops a call exactly if the front record is padding, which requires that the skip loop had found the ring empty |
| RingAlone.StopsAtPadding | src/backend.cpp:50-54 | Such a call exists for every ring of at least 4096 bytes: a run that ends at padding with unread bytes in the ring |
| RingAlone.LogAlone | src/event_log.cpp:143-172 | The steps of an undisturbed producer publish its event behind the padding it needs exactly if there is room, and nothing otherwise |
| RingAlone.CallAlone | src/backend.cpp:47-111 | The steps of an undisturbed call of the backend skip the padding in front and take the first event, or find none |
| RingAlone.LogOnBoth | src/event_log.cpp:143-172 | One attempt on the ring object and the steps of the producer lead to states that agree |
| RingAlone.CallOnBoth | src/backend.cpp:47-111 | One call on the ring object and the steps of the backend lead to states that agree, and to the same text |
| EventBytes.DecodePayload | src/event_log.cpp:157-172 | The backend reads back exactly the fields and frames the runtime filled in |
| EventBytes.PayloadIsFramed | src/event_log.cpp:120-171 | The payload size worked out from the header's frame count is the reserved one |
| Pipeline.NothingLost | src/backend.cpp:114-144 | In every run, for each thread, its events in the file followed by those in its ring are its committed ones in order |
| Pipeline.FreeIsSafe | src/backend.cpp:129-138 | When a ring is freed its thread is finished and all it committed is in the file |
| Pipeline.FreedOnlyWhenWritten | src/backend.cpp:129-138 | A logging thread always has its ring; a freed ring's events are all in the file, for good |
| Pipeline.ScanWritesWhatWasCommitted | src/backend.cpp:114-144 | A completed scan has written everything that was committed when it began |
| Pipeline.ClosedLogIsComplete | src/event_log.cpp:81-94 | A closed log holds everything committed before its last scan began, and nothing that was not committed |
| Pipeline.QuietCloseIsComplete | src/event_log.cpp:81-94 | If nothing was committed since that scan began, the closed log holds everything |
| Pipeline.CloseWritesEverything | src/backend.cpp:146-172 | The closed log holds everything committed while the backend was still in its main loop |
| Pipeline.OnlyAfterShutdown | src/backend.cpp:146-156 | In every run the backend leaves its main loop only after the shutdown has been requested |
| Pipeline.CloseWritesBeforeShutdown | src/event_log.cpp:81-94 | The closed log holds everything committed before the shutdown request |
| Closing.StepDrains | src/backend.cpp:47-111 | Each step of a call on a ring brings it nearer to its end and does not change whether it will take an event |
| Closing.FinishScan | src/backend.cpp:114-144 | If the threads take no more steps every scan ends, having done something exactly if an event waited in front of it |
| Closing.ClosingSucceeds | src/backend.cpp:146-172 | From any reachable state the backend alone can close the log with nothing left in a ring if and only if the shutdown has been requested and, if the last look at the rings is under way or over, nothing waits in them |
| Closing.LateEventIsLeft | src/backend.cpp:218-224 | The last condition is needed: in a run with idle producers and a log not yet closed an event waits behind the last look |
| Backend.Drainer.ProcessOneEvent | src/backend.cpp:47-111 | Takes exactly the front event off the ring and appends its lines, or finds the ring empty and changes no text |
| Backend.Drainer.DrainRing | src/backend.cpp:122-127 | Empties the ring and appends the lines of all its events in order |
| Backend.Drainer.ScanAllRingsOnce | src/backend.cpp:114-144 | Empties every ring in registry order, unlinks exactly those of finished threads, and tells whether there was anything |
| Backend.Drainer.RegisterRing | src/backend.cpp:202-208 | The new ring goes to the front of the registry |
| Backend.Drainer.FinalDrain | src/backend.cpp:220-224 | Scans until one finds nothing; afterwards all rings are empty and their events in the file |
| Digits.NatRoundTrip | analyzer/dl_analyzer/trace_reader.py:87-90 | Python's `int` reads what %lu writes |
| Digits.IntRoundTrip | analyzer/dl_analyzer/trace_reader.py:99 | Python's `int` reads what %ld writes |
| Digits.HexRoundTrip | analyzer/dl_analyzer/trace_reader.py:15-23 | The hex parser reads what 0x%lx writes |
| Digits.NatTextLength | src/backend.cpp:92-100 | A number below base^k has at most k digits |
| Digits.NatTextCodes | src/backend.cpp:91-106 | The character at each place is the ASCII code of the digit there, with lower-case letters in base 16 |
| Digits.NoLeadingZero | src/backend.cpp:91-106 | No number but 0 is written with a leading zero |
| TraceText.EventLineIs | src/backend.cpp:91-107 | The E line and the F line spelt out as the format strings have them |
| TraceText.ModuleLineIs | src/module_map.cpp:108-114 | The M line and the header line spelt out |
| TraceText.FieldsOfLine | analyzer/dl_analyzer/trace_reader.py:53 | Stripping the line end and splitting at tabs gives back the printed fields |
| TraceText.LinesOfLine | analyzer/dl_analyzer/trace_reader.py:48-50 | Reading a line from a printed text gives back the printed line |
| TraceText.NoLineIsCut | src/backend.cpp:91-105 | An E line has at most 98 characters, so no line is cut off by its 128-byte buffer |
| TraceReader.ReadFrameLines | analyzer/dl_analyzer/trace_reader.py:111-122 | The frame loop equals the recursive reader: it stops at a line that is no frame, using it up, and skips damaged addresses |
| TraceReader.FramesAre | analyzer/dl_analyzer/trace_reader.py:110-122 | An event gets the readable addresses of the frame lines right behind it, at most as many as it announces; another line that comes too early is used up |
| TraceReader.AcceptsExactlyV3 | analyzer/dl_analyzer/trace_reader.py:26-34 | A file is accepted exactly if its first line is the v3 header or goes on behind it with a tab |
| TraceReader.FindPid | analyzer/dl_analyzer/trace_reader.py:36-43 | The process id is that of the first pid field |
| TraceReader.ReadTrace | analyzer/dl_analyzer/trace_reader.py:26-128 | The reading loop computes the recursive parse of the lines, or refuses a file without a v3 header |
| TraceReader.SortIsStable | analyzer/dl_analyzer/trace_reader.py:126-127 | The modules come out in ascending order of base, those with equal base in their old order, none lost or added |
| TraceRoundTrip.CodesAgree | src/event_types.h:8-41 | The analyzer takes a number for an operation or a kind exactly if the runtime uses it for that one |
| TraceRoundTrip.LinesOfTrace | src/backend.cpp:88-105 | The printed trace falls into header, module, E and F lines |
| TraceRoundTrip.ReadEventLine | analyzer/dl_analyzer/trace_reader.py:82-109 | A printed E line is read as its event with its number of frames |
| TraceRoundTrip.ReadModuleLine | src/module_map.cpp:108-117 | A printed M line is read as its module, an empty path as a dash |
| TraceRoundTrip.ReadHeader | src/event_log.cpp:68 | The printed header is accepted and gives the process id |
| TraceRoundTrip.RoundTrip | analyzer/dl_analyzer/trace_reader.py:26-128 | Parsing a printed trace gives back the process id, the events with their frames in order, and the modules sorted by base |
| TraceRoundTrip.EventsRoundTrip | analyzer/dl_analyzer/events.py:11-45 | The same for typed events: operation, kind, thread, address, return code and frames are read back as they were logged |
| TraceRoundTrip.EventBehindShortFramesIsLost | analyzer/dl_analyzer/trace_reader.py:110-124 | An event behind one whose frame lines end too early is not read |
| TraceRoundTrip.CondAddressSurvives | analyzer/dl_analyzer/graph.py:187-191 | A condition wait's mutex address survives the signed field, its decimal text and the 64-bit mask |
| TraceRoundTrip.LinesOfPrefix | analyzer/dl_analyzer/trace_reader.py:48-50 | Cutting a text at a line boundary cuts its list of lines |
| TraceRoundTrip.Truncation | analyzer/dl_analyzer/trace_reader.py:48-124 | A trace cut off after any number of lines, the header among them, is read as a prefix of its events, of which only the last may have lost frames |
| TraceRoundTrip.TruncatedGenerations | analyzer/dl_analyzer/graph.py:36-38 | Replaying it leads to no later generation of any address than the whole trace |
| FrameWalk.ChainIsSound | src/backtrace.cpp:101-122 | The frames of a chain are aligned, inside the stack and strictly ascending, each linked to the next by its first word |
| FrameWalk.ChainIsMaximal | src/backtrace.cpp:101-122 | A chain ends only where the next frame is not above, not aligned, not inside the stack or has no return address |
| FrameWalk.CaptureFast | src/backtrace.cpp:79-123 | The loop reads inside the stack only; it writes the return addresses of the chain in order, the first `skip` dropped, exactly as many as there are up to `max_depth` and `out_cap`; a negative skip drops none and lowers the limit |
| EndToEnd.CommitIsSeen | src/event_log.cpp:157-172 | What the runtime commits for an event is seen by the analyzer as that event |
| EndToEnd.TextIsWritten | src/backend.cpp:88-108 | The events' text in the trace is what the drain writes for the file's payloads |
| EndToEnd.FileIsRead | analyzer/dl_analyzer/trace_reader.py:26-128 | The analyzer reads the file's events back in the file's order |
| EndToEnd.FileIsLogged | src/backend.cpp:88-110 | If the threads commit only events of their own, the file of every run holds only such events |
| EndToEnd.SameStreamsRead | src/backend.cpp:114-144 | Two complete runs in which the threads committed the same operations give traces that are merges of the same streams, time stamps and frames aside |
| EndToEnd.EdgeOfCommits | src/backend.cpp:114-172 | Without INIT and contested edges the trace of a complete run leads to an edge exactly if it is the last word of some thread, in what it committed, to build it |
| EndToEnd.VerdictOfCommits | src/backend.cpp:114-172 | For a positive cap a cycle is then reported exactly if the threads committed a ring of such last words |
| EndToEnd.InterleavingDoesNotMatter | src/backend.cpp:114-172 | Two complete runs in which the threads committed the same operations get the same verdict, however threads and backend were interleaved and whatever the times and call chains |

## Left out

- The interposition wrappers, symbol resolution and bypass counters: they only decide which event is logged with which return code. As the runtime logs operations after they return, a thread that is stuck in `lock` has no event of its own.
- File I/O, flushing, signals, sleeping, thread creation and joining, the clock: the file is a growing sequence, time is the order of steps, and a time stamp is whatever was committed.
- The reset in a forked child: it clears state without the mutex.
- Symbolisation, module lookup and ELF notes.
- The report text, the command line, and the filter for reader-reader cycles, which runs after the cap and looks at the first recorded kinds only: the verdict is stated without it.
- The fallbacks to glibc's `backtrace`, and overflow of `skip + max_depth` in a C `int`.
- Failure to allocate a ring, and payload sizes near 2^64.
- Weak memory beyond stale loads of the counters.
- The check of `log_enabled` at the start of `log_event`: in `Pipeline` a thread may log at any time, also after the log was closed.
- Pipeline.ScanWritesWhatWasCommitted: takes the backend's loads of a head as up to date; with stale loads a scan writes what its loads let it see, which `RingProtocol` covers ring by ring. That a scan ends while threads keep logging is not claimed, nor does the code ensure it.
- Schedule.ScheduleIndependence: streams with an INIT are not covered, since an INIT gives all later uses of its address another identity; INITs may be in the history before them, and `Generations` covers them in one trace.
- Backend.Drainer.ProcessOneEvent: the producer is at rest; `RingAlone.CallOnBoth` shows that the step-by-step backend does the same where it is not disturbed, and `RingProtocol` covers calls that are.
- Backend.Drainer.DrainRing: the producer is at rest; what a drain does while threads log is in `Pipeline`.
- Backend.Drainer.FinalDrain: the producers are at rest; what the closing scans do while threads log is in `Pipeline` and `Closing`.
- Backend.Drainer.ScanAllRingsOnce: producers are at rest, as above; the registry is a sequence rather than a linked list through the rings, and freeing a ring is its removal from it.
- LockGraph.Graph.OnDestroy: the source changes the metadata object in place; here the map entry is replaced, so aliases of it are not modelled.
- FindCycles.FindAllCycles: early `break`s at the cap are folded into loop conditions; cycles whose lengths exceed the cap are covered by soundness and by the verdict only.
- Digits.HexRoundTrip: `int` is modelled on ASCII text; digits and spaces outside ASCII and Python's limit on the length of decimal texts are not.
- TraceRoundTrip.RoundTrip: asks that build ids and paths hold no tab and no line break, as the source's own comment does; lines cut in the middle and damaged digits are read by the modelled reader but nothing is claimed about them.
- FrameWalk.CaptureFast: addresses are unbounded, so a frame pointer within 16 bytes of 2^64 is not modelled.
