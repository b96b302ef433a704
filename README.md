# gauge core, modelled in Dafny

gauge is a sampling profiler for Python. A collector thread samples the
stacks of the running threads into a buffer of raw frames. A processing step
cuts that buffer into per-thread stack snapshots (traces). The span
aggregator turns the traces into a stream of Start/End span events, one pair
per call. Exporters forward these events, for example to an OpenTracing
tracer.

The model covers these parts:

- **Value types.** The frame, trace and span values (`Base`).
- **The span aggregator** (`Aggregation.SpanAggregator`):
  - its three-key table of open spans (`SpanIndex`);
  - what `add_span` and `remove_span` do to that table and emit (`SpanLifecycle`);
  - how a batch of traces is walked frame by frame (`SpanIngest`);
  - the time-to-live sweep (`SpanSweep`);
  - the sorting of the emitted batch and its dispatch to subscribers (`SpanOrdering`).
- **The OpenTracing exporter's bookkeeping** (`TracingExport`):
  - the table of recorded spans;
  - the strip levels;
  - the ancestor walk;
  - the calls made on the tracer.
- **The expiring dictionary** the exporter depends on (`Expiring`).
- **Clock conversion** and the best-reading search (`Chrono`).
- **The sampling collector's processing step and lifecycle flags** (`Collector`).

Where the source works by mutation, the model is a class:

- its fields are the source's fields;
- each method states its new state as a function of the old one;
- those functions carry the lemmas below.

Stated this way, these are some of the properties proved about the model:

- the open-span table keeps cookies and span ids unique;
- every span id it holds was drawn from the UUID generator;
- after a sweep no open span has outlived the time-to-live;
- finishing empties the table;
- the Start events dispatched for a batch are exactly the spans built for new calls.

Time points and durations are integer nanosecond counts. The UUID generator
is a counter: the n-th id it draws is `Uuid(n)`. A subscriber callback is a
number, and the dispatch log `delivered` records which subscriber received
which batch. The OpenTracing tracer is an append-only log of the calls made
on it; a tracer span is the position of the call that started it. The
monotonic clock of the expiring dictionary is the `now` argument of each
operation. The clock reads of the measurement loop are a supplied sequence
`readings`. This process's id, the host name and the caller's thread id are
parameters.

## Model

| member | source | states |
|---|---|---|
| Base.DefaultTrace | include/gauge/base.hpp:40-45 | a default trace has no frames, zero thread and process ids, an empty hostname and epoch time points |
| Base.DefaultSpan | include/gauge/base.hpp:81-96 | a default span is a Start, not top, with empty id, parent id and correlation id and zero/empty other fields |
| Base.SpanOf | include/gauge/base.hpp:124-131 | `Span(trace, frame)` takes name, file, line and the coroutine/generator flags from the frame and both time points, thread id, process id and hostname from the trace; everything else is default |
| SpanIndex.Find | include/gauge/span_aggregator.hpp:107-118 | a lookup by cookie, id or parent id returns a position holding the key, and returns nothing exactly when no entry holds it |
| SpanIndex.FindIsFirst | include/gauge/span_aggregator.hpp:117 | the parent-id lookup returns the first entry with that key in iteration order |
| SpanIndex.FindUnique | include/gauge/span_aggregator.hpp:110-116 | under the unique-key invariant, a lookup by the id or the cookie of an entry finds exactly that entry |
| SpanIndex.Replace | src/cpp/gauge/span_aggregator.cpp:238 | a replacement keeps the size of the table |
| SpanIndex.ReplaceFacts | include/gauge/span_aggregator.hpp:92-105 | the keys are read from the stored span; a replacement keeps cookies and ids unique; it takes effect exactly when the new entry clashes with no other entry, and otherwise the table is unchanged |
| SpanIndex.Emplace | src/cpp/gauge/span_aggregator.cpp:258 | an insertion adds at most one entry |
| SpanIndex.EmplaceFacts | src/cpp/gauge/span_aggregator.cpp:258 | an insertion keeps the old entries in order and the keys unique, and appends the entry exactly when it clashes with none |
| SpanIndex.EraseById | src/cpp/gauge/span_aggregator.cpp:303 | erasing an id that is not indexed changes nothing; erasing an indexed id removes exactly one entry |
| SpanIndex.EraseByIdShifts | src/cpp/gauge/span_aggregator.cpp:303 | the entries other than the erased one keep their relative order |
| SpanIndex.EraseByIdKeeps | src/cpp/gauge/span_aggregator.cpp:303 | erasing leaves only entries that were there before |
| SpanIndex.EraseByIdUnique | src/cpp/gauge/span_aggregator.cpp:303 | erasing keeps the keys unique and leaves no entry with that id |
| SpanLifecycle.ToEndSpan | src/cpp/gauge/span_aggregator.cpp:60-64 | `to_end_span` yields a copy that is an End event and differs from the span in nothing else |
| SpanLifecycle.StampedEnd | src/cpp/gauge/span_aggregator.cpp:299-301 | the span's End copy carries the closing time points and keeps the span's id and parent id |
| SpanLifecycle.RemoveChainStep | src/cpp/gauge/span_aggregator.cpp:297-315 | one pass of `remove_span`'s loop emits the current span's End and erases its entry, then stops when the parent-id lookup finds no open child and otherwise goes on from the child it finds |
| SpanLifecycle.RemoveChainShrinks | src/cpp/gauge/span_aggregator.cpp:297-315 | `remove_span` emits at least one span, emits exactly one End per entry it erases, and leaves only old entries; so its loop ends |
| SpanLifecycle.RemoveChainUnique | src/cpp/gauge/span_aggregator.cpp:293-303 | `remove_span` keeps the keys unique, and afterwards the initiating span is no longer open |
| SpanLifecycle.RemoveChainEmits | src/cpp/gauge/span_aggregator.cpp:297-315 | the first span emitted is the initiating span's End; every span emitted is an End stamped with the given time points; each later one is a child of the span ended just before it |
| SpanLifecycle.RemoveChainEmitsEntries | src/cpp/gauge/span_aggregator.cpp:310-314 | every later span emitted is the stamped End of an entry of the table as it was before the call |
| SpanLifecycle.CloseSiblingFacts | src/cpp/gauge/span_aggregator.cpp:242-256 | closing a displaced sibling leaves only old entries, keeps the keys unique and emits only Ends |
| SpanLifecycle.AddSpanFacts | src/cpp/gauge/span_aggregator.cpp:223-268 | `add_span` stores only old entries and the new one and keeps the keys unique; re-indexing an open id changes no size and emits nothing |
| SpanLifecycle.AddSpanReplaces | src/cpp/gauge/span_aggregator.cpp:233-240 | an id already indexed under the same cookie is replaced in place, and nothing is emitted |
| SpanLifecycle.AddSpanInserts | src/cpp/gauge/span_aggregator.cpp:242-267 | a span with a new id and cookie is stored as the last entry after the sibling is closed; it is the only Start emitted, and only if it is a Start |
| SpanLifecycle.AddSpanStarts | src/cpp/gauge/span_aggregator.cpp:258-267 | the Start events `add_span` emits are the span itself when its id is new and it is a Start, and nothing otherwise |
| SpanLifecycle.AddSpanClosesSibling | src/cpp/gauge/span_aggregator.cpp:242-256 | a sibling found under the same parent id, of the same process and thread, is no longer open after `add_span` |
| SpanIngest.FrameSpan | src/cpp/gauge/span_aggregator.cpp:124-143 | a frame whose cookie is not indexed becomes a Start with a fresh id; an indexed cookie becomes an End reusing the indexed id; the first span visited is top with an empty parent id, later ones name the previous span as parent; each span carries the frame, the trace and the correlation id |
| SpanIngest.WalkFramesFacts | src/cpp/gauge/span_aggregator.cpp:121-147 | walking a trace never moves the generator back and keeps the table's keys unique |
| SpanIngest.WalkTracesFacts | src/cpp/gauge/span_aggregator.cpp:112-148 | a batch draws at least one id per trace, for its correlation id, and keeps the keys unique |
| SpanIngest.OffsetAfter | src/cpp/gauge/span_aggregator.cpp:109-118 | the time reference becomes the monotonic time point of the last trace of a non-empty batch; an empty batch leaves it unchanged |
| SpanIngest.WalkFramesBuilt | src/cpp/gauge/span_aggregator.cpp:121-125 | one span is built per frame, and the k-th span visited carries the k-th frame counted from the end |
| SpanIngest.WalkFramesTraced | src/cpp/gauge/span_aggregator.cpp:119-126 | every span of one trace carries the trace's time points and origin, and one shared correlation id |
| SpanIngest.WalkFramesLinks | src/cpp/gauge/span_aggregator.cpp:137-145 | the first span visited is top with an empty parent id; every later one is not top and has the previously visited span's id as parent id |
| SpanIngest.AddSpanIdsBelow | src/cpp/gauge/span_aggregator.cpp:132 | indexing a span whose id was already drawn keeps every indexed id drawn |
| SpanIngest.WalkFramesStarts | src/cpp/gauge/span_aggregator.cpp:121-147 | the Start events emitted while walking a trace are exactly the Start spans built for it, in order, and the indexed ids stay drawn |
| SpanIngest.WalkTracesStarts | src/cpp/gauge/span_aggregator.cpp:112-148 | the same for a whole batch of traces |
| SpanSweep.MarkExpiredOpen | src/cpp/gauge/span_aggregator.cpp:71-89 | the marking loop emits nothing, keeps the keys unique, and rewrites in place exactly the expired Start entries into their End copies |
| SpanSweep.MarkExpiredMarks | src/cpp/gauge/span_aggregator.cpp:77-86 | a span is expired when its age exceeds the time-to-live or finishing is forced; every marked entry is in the table, and every expired entry is marked |
| SpanSweep.MarkExpiredStep | src/cpp/gauge/span_aggregator.cpp:72-87 | one pass of the marking loop keeps the keys unique, rewrites the entry in place as its End copy when it is an expired Start, and marks it exactly when it is expired |
| SpanSweep.EndMarkedCloses | src/cpp/gauge/span_aggregator.cpp:91-96 | the closing loop keeps the keys unique, leaves only old entries, emits only Ends, and leaves no marked id open |
| SpanSweep.EndMarkedStep | src/cpp/gauge/span_aggregator.cpp:91-96 | one pass of the closing loop closes the marked entry when its id is still indexed, before the entries after it |
| SpanSweep.SweepLeavesNoExpired | src/cpp/gauge/span_aggregator.cpp:66-99 | after `process_open_spans` no open span is expired, the keys are unique, and everything emitted is an End |
| SpanSweep.ForcedSweepEmpties | src/cpp/gauge/span_aggregator.cpp:198-209 | a forced sweep leaves no span open |
| SpanSweep.FinishIsIdempotent | src/cpp/gauge/span_aggregator.cpp:198-209 | a second forced sweep finds nothing to close and emits nothing |
| SpanOrdering.Insert | src/cpp/gauge/span_aggregator.cpp:158-182 | inserting a span adds exactly that span to the multiset of the batch |
| SpanOrdering.SortSpans | src/cpp/gauge/span_aggregator.cpp:156-182 | `sort_spans` returns a permutation of its input |
| SpanOrdering.InsertLast | src/cpp/gauge/span_aggregator.cpp:158-182 | a span that precedes none of the sorted spans under the comparator goes last |
| SpanOrdering.SortKeepsOrdered | src/cpp/gauge/span_aggregator.cpp:158-182 | a batch in which no span precedes an earlier one comes out unchanged, as from a stable sort |
| SpanOrdering.Deliveries | src/cpp/gauge/span_aggregator.cpp:22-57 | an empty batch goes to no one; a non-empty batch goes to every native callback in list order, then to every Python callback in list order |
| SpanOrdering.Subscribe | src/cpp/gauge/span_aggregator.cpp:211-221 | a new subscriber goes to the front of its list, which is otherwise unchanged |
| SpanOrdering.DeliveryOrder | src/cpp/gauge/span_aggregator.cpp:22-57 | the most recently subscribed callback is served first, and every native callback is served before any Python one |
| Aggregation.AggregateFacts | src/cpp/gauge/span_aggregator.cpp:101-154 | one call of `operator()` keeps the keys unique and the ids drawn; it leaves no expired span open at the new time reference; the Start events of the dispatched batch are, as a multiset, exactly the spans built for new calls |
| Aggregation.SweepIdsBelow | src/cpp/gauge/span_aggregator.cpp:66-99 | a sweep keeps no id that was not drawn before |
| Aggregation.SpanAggregator.constructor | src/cpp/gauge/span_aggregator.cpp:15-20 | a new aggregator has the given time-to-live (100 ms by default), an empty table, no subscribers and the time reference at the epoch |
| Aggregation.SpanAggregator.NewUuid | src/cpp/gauge/span_aggregator.cpp:132 | the generator draws an id it never drew before |
| Aggregation.SpanAggregator.AddSpan | src/cpp/gauge/span_aggregator.cpp:223-268 | `add_span` updates the table and appends to the output as `SpanLifecycle.AddSpan` describes |
| Aggregation.SpanAggregator.RemoveSpan | src/cpp/gauge/span_aggregator.cpp:270-280 | the three-argument `remove_span` closes the chain at the span's own time points |
| Aggregation.SpanAggregator.RemoveSpanAt | src/cpp/gauge/span_aggregator.cpp:282-316 | the `while (true)` loop erases and emits down the chain of children exactly as `SpanLifecycle.RemoveChain` describes |
| Aggregation.SpanAggregator.ProcessOpenSpans | src/cpp/gauge/span_aggregator.cpp:66-99 | `process_open_spans` leaves the table and output as `SpanSweep.Sweep` describes |
| Aggregation.SpanAggregator.MarkExpiredSpans | src/cpp/gauge/span_aggregator.cpp:70-89 | the marking loop leaves the table, output and marked list as `SpanSweep.MarkExpired` describes |
| Aggregation.SpanAggregator.EndMarkedSpans | src/cpp/gauge/span_aggregator.cpp:91-96 | the closing loop removes each marked entry that is still indexed, as `SpanSweep.EndMarked` describes |
| Aggregation.SpanAggregator.ExecuteCallbacks | src/cpp/gauge/span_aggregator.cpp:22-57 | the dispatch log grows by exactly the deliveries of the batch |
| Aggregation.SpanAggregator.Subscribe | src/cpp/gauge/span_aggregator.cpp:211-216 | a native subscriber is put at the front of its list |
| Aggregation.SpanAggregator.SubscribePython | src/cpp/gauge/span_aggregator.cpp:218-221 | a Python subscriber is put at the front of its list |
| Aggregation.SpanAggregator.Aggregate | src/cpp/gauge/span_aggregator.cpp:101-154 | `operator()` keeps the object's invariant and leaves the table, generator, time reference and dispatch log as `AggregateBatch` describes |
| Aggregation.SpanAggregator.WalkBatch | src/cpp/gauge/span_aggregator.cpp:108-148 | the loop over the batch leaves the table, generator and output as `SpanIngest.WalkTraces` describes, and moves the time reference to the last trace |
| Aggregation.SpanAggregator.WalkTrace | src/cpp/gauge/span_aggregator.cpp:114-147 | the reverse loop over one trace's frames does what `SpanIngest.WalkFrames` describes |
| Aggregation.SpanAggregator.IndexFrame | src/cpp/gauge/span_aggregator.cpp:124-146 | one frame's span is built as `SpanIngest.FrameSpan` describes and indexed with `add_span` |
| Aggregation.SpanAggregator.WalkFrame | src/cpp/gauge/span_aggregator.cpp:121-146 | one pass of the frame loop: indexing frame `f - 1` and walking the frames before it is the walk of the first `f` frames |
| Aggregation.SpanAggregator.FinishOpenSpans | src/cpp/gauge/span_aggregator.cpp:198-209 | `finish_open_spans` leaves the table empty and dispatches the sorted Ends of a forced sweep |
| Expiring.CleanedExactly | src/py/gauge/utils/ttldict.py:17-21 | cleanup keeps a key exactly when its stamp plus the time-to-live is later than now, and keeps the value unchanged |
| Expiring.CleanedLater | src/py/gauge/utils/ttldict.py:17-21 | a cleanup followed by a later one is the later one alone |
| Expiring.CleanedShrinks | src/py/gauge/utils/ttldict.py:43-46 | cleanup never grows the table |
| Expiring.StoredThenLookup | src/py/gauge/utils/ttldict.py:23-31 | a value set at `now` is read back until `now + ttl` and raises KeyError from then on |
| Expiring.DeletedOnly | src/py/gauge/utils/ttldict.py:33-36 | deleting a live key removes that key and leaves every other key's lookup unchanged |
| Expiring.TtlDict.constructor | src/py/gauge/utils/ttldict.py:9-15 | a new dictionary is empty with the given time-to-live |
| Expiring.TtlDict.Cleanup | src/py/gauge/utils/ttldict.py:17-21 | the loop over a snapshot of the keys leaves exactly the entries `Cleaned` keeps |
| Expiring.TtlDict.Get | src/py/gauge/utils/ttldict.py:23-26 | get cleans up, then returns the value of a live key or KeyError |
| Expiring.TtlDict.Set | src/py/gauge/utils/ttldict.py:28-31 | set cleans up, then stores the value stamped `now` |
| Expiring.TtlDict.Delete | src/py/gauge/utils/ttldict.py:33-36 | delete cleans up, then removes a live key or reports KeyError |
| Expiring.TtlDict.Keys | src/py/gauge/utils/ttldict.py:38-41 | iteration cleans up and yields exactly the keys a lookup would find |
| Expiring.TtlDict.Len | src/py/gauge/utils/ttldict.py:43-46 | the length is the number of live keys, at most the number stored |
| TracingExport.AncestorsBounded | src/py/gauge/exporters/opentracing_exporter.py:79-90 | the modelled walk takes at most as many steps as its fuel |
| TracingExport.AncestorsLinked | src/py/gauge/exporters/opentracing_exporter.py:79-90 | each step of the walk is the recorded entry of the previous span's parent id, reached from a span that is not top |
| TracingExport.AncestorsStop | src/py/gauge/exporters/opentracing_exporter.py:80-88 | short of its fuel, the walk stops exactly at a top span or at a parent id that is not recorded |
| TracingExport.FullWalkRepeats | src/py/gauge/exporters/opentracing_exporter.py:79-90 | a walk that has taken one step per recorded span and could still take another has looked up some parent id twice, so the bound only cuts walks through a cycle of parent links |
| TracingExport.Covers | src/py/gauge/exporters/opentracing_exporter.py:95-107 | the key loop succeeds iff some key is present with a count of at least the depth |
| TracingExport.ShouldStrip | src/py/gauge/exporters/opentracing_exporter.py:92-107 | a span is stripped iff one of (pid, tid), (pid, None), (None, tid), (None, None) maps to at least its number of known ancestors plus one |
| TracingExport.AllStripped | src/py/gauge/exporters/opentracing_exporter.py:109-114 | `__is_top` holds iff every known ancestor is stripped |
| TracingExport.StartKeepsWellFormed | src/py/gauge/exporters/opentracing_exporter.py:116-170 | starting a span keeps every entry under its own id, with a tracer span iff not stripped; it only appends to the tracer log; a recorded span stores the strip decision |
| TracingExport.EndKeepsWellFormed | src/py/gauge/exporters/opentracing_exporter.py:183-210 | ending a span keeps the table well formed, forgets its id, changes no other entry and only appends to the tracer log |
| TracingExport.ExportKeepsWellFormed | src/py/gauge/exporters/opentracing_exporter.py:212-233 | a whole batch keeps the table well formed and only appends to the tracer log |
| TracingExport.StartThenEnd | src/py/gauge/exporters/opentracing_exporter.py:116-210 | starting then ending a span restores the span table; unless stripped, the tracer sees its start and then the finish of that tracer span at the End's timestamp, and if stripped nothing at all |
| TracingExport.StartIgnored | src/py/gauge/exporters/opentracing_exporter.py:117-138 | a Start changes nothing iff its id is already recorded, or it is not top and its parent is not recorded |
| TracingExport.EndCases | src/py/gauge/exporters/opentracing_exporter.py:183-195 | an End changes nothing iff its id is unknown; a stripped entry is removed with no call on the tracer |
| TracingExport.StripOwnKey | src/py/gauge/exporters/opentracing_exporter.py:68-107 | after `strip_levels(count, pid, tid)` with a non-zero count, every span of that thread at most `count` deep is stripped |
| TracingExport.NoLevelsNoStrip | src/py/gauge/exporters/opentracing_exporter.py:92-107 | with no strip levels set, no span is stripped |
| TracingExport.OpenTracingExporter.constructor | src/py/gauge/exporters/opentracing_exporter.py:24-45 | a new exporter has empty tables and has made no tracer call |
| TracingExport.OpenTracingExporter.StripLevels | src/py/gauge/exporters/opentracing_exporter.py:68-77 | a zero count deletes the key if present; any other count sets it |
| TracingExport.OpenTracingExporter.StartSpan | src/py/gauge/exporters/opentracing_exporter.py:116-170 | `__start_span` leaves the state `StartOf` describes |
| TracingExport.OpenTracingExporter.GetSpanById | src/py/gauge/exporters/opentracing_exporter.py:172-181 | a recorded id yields its entry, which is removed when asked; an unknown id yields KeyError |
| TracingExport.OpenTracingExporter.EndSpan | src/py/gauge/exporters/opentracing_exporter.py:183-210 | `__end_span` leaves the state `EndOf` describes |
| TracingExport.OpenTracingExporter.Export | src/py/gauge/exporters/opentracing_exporter.py:212-233 | `__call__` handles the spans in order by lifetime and keeps the table well formed |
| Chrono.ConvertBase | src/cpp/gauge/utils/chrono.hpp:45-54 | the base source point converts to the base destination point |
| Chrono.ConvertKeepsDifferences | src/cpp/gauge/utils/chrono.hpp:45-54 | conversion keeps differences, and so the order, of time points |
| Chrono.ConvertRoundTrip | src/cpp/gauge/utils/chrono.hpp:45-54 | converting back with the base pair swapped returns the original point |
| Chrono.Half | src/cpp/gauge/utils/chrono.hpp:104 | duration division by 2 truncates toward zero |
| Chrono.EpsilonIsSmallest | src/cpp/gauge/utils/chrono.hpp:94-107 | epsilon is at most every gap seen, and is either one of them or the maximal duration |
| Chrono.EpsilonNeverIncreases | src/cpp/gauge/utils/chrono.hpp:103-107 | epsilon never increases from one attempt to a later one |
| Chrono.KeptIsFirstSmallest | src/cpp/gauge/utils/chrono.hpp:99-107 | the kept pair is the midpoint reading of the first attempt with the smallest gap |
| Chrono.MidpointBetween | src/cpp/gauge/utils/chrono.hpp:104 | the stored source point lies between the two source reads of its attempt |
| Chrono.GetBaseMeasurements | src/cpp/gauge/utils/chrono.hpp:85-114 | at least one and at most `limit` attempts are made; the loop stops early only once epsilon is within tolerance and not before; the returned pair is the one kept after those attempts |
| Chrono.ConvertNow | src/cpp/gauge/utils/chrono.hpp:64-76 | the result is the time point converted with the pair kept after some number of attempts |
| Collector.FramesOf | src/cpp/gauge/sampling_collector.cpp:482-484 | one frame per raw frame, in the same order |
| Collector.SearchFrom | src/cpp/gauge/sampling_collector.cpp:263-270 | the end of the processed range lies within the buffer |
| Collector.CutIsAfterLastTopmost | src/cpp/gauge/sampling_collector.cpp:263-273 | the processed range ends just after the last topmost frame, and no topmost frame follows it |
| Collector.NextTopmost | src/cpp/gauge/sampling_collector.cpp:276-283 | the inner loop stops at the first topmost frame reached |
| Collector.GroupsFrom | src/cpp/gauge/sampling_collector.cpp:274-283 | every trace group is non-empty |
| Collector.GroupsCover | src/cpp/gauge/sampling_collector.cpp:274-283 | the groups cover the processed range, in order |
| Collector.GroupsAreStacks | src/cpp/gauge/sampling_collector.cpp:274-283 | each group ends at its only topmost frame |
| Collector.TracesSkipOwn | src/cpp/gauge/sampling_collector.cpp:287-297 | no trace of an own thread is passed on; without own threads every group becomes a trace |
| Collector.TracesStep | src/cpp/gauge/sampling_collector.cpp:274-298 | splitting off one group yields its trace, unless the thread is own, followed by the traces of the rest |
| Collector.SamplingCollector.constructor | src/cpp/gauge/sampling_collector.cpp:21-33 | a new collector is stopped, not paused, with no own threads |
| Collector.SamplingCollector.Start | src/cpp/gauge/sampling_collector.cpp:47-58 | only a stopped collector starts; otherwise CollectorHasAlreadyStarted |
| Collector.SamplingCollector.Finalize | src/cpp/gauge/sampling_collector.cpp:78-105 | a stopped collector is left alone; otherwise it is stopped and its own threads are forgotten |
| Collector.SamplingCollector.Pause | src/cpp/gauge/sampling_collector.cpp:500-505 | a paused collector reports CollectorIsAlreadyPaused; otherwise it becomes paused |
| Collector.SamplingCollector.Resume | src/cpp/gauge/sampling_collector.cpp:488-496 | a stopped collector reports CollectorIsStopped, an unpaused one CollectorIsNotPaused; otherwise it is no longer paused |
| Collector.SamplingCollector.RegisterOwnThread | src/cpp/gauge/sampling_collector.cpp:62-70 | the thread id joins the own-thread set |
| Collector.SamplingCollector.CheckIfOwnThread | src/cpp/gauge/sampling_collector.cpp:72-74 | true iff the id is in the own-thread set |
| Collector.SamplingCollector.ClearOwnThreads | src/cpp/gauge/sampling_collector.cpp:76 | the own-thread set becomes empty |
| Collector.SamplingCollector.ConstructTrace | src/cpp/gauge/sampling_collector.cpp:462-486 | the trace takes its time points and thread id from the first raw frame and keeps the frames in order |
| Collector.SamplingCollector.ProcessRawFrames | src/cpp/gauge/sampling_collector.cpp:243-302 | on an empty buffer a processing pass is idle (no traces, nothing erased); otherwise it returns the traces of the groups before the cut, minus own threads, in order, and leaves exactly the frames after the cut buffered |
| Collector.SamplingCollector.SearchBack | src/cpp/gauge/sampling_collector.cpp:263-273 | the backward loop finds the end of the processed range |
| Collector.SamplingCollector.NextGroup | src/cpp/gauge/sampling_collector.cpp:276-283 | the inner loop collects the frames up to and including the first topmost one |

## Left out

- Threads, mutexes, atomics, sleeps and the polling loops of `collector()` and `processor()` are not modelled. Every operation is a single atomic step.
- The Python C API is not modelled: frame capture, reference counting, GIL guards, and `PyContext_Enter`/`PyContext_Exit` around Python callbacks. Their failure paths are not modelled either.
- Boost UUID randomness is not modelled. The generator is a counter, so an id is fresh because it was never drawn before, and UUIDs are not compared as text.
- Host name, process id and `threading.get_ident()` are parameters.
- Logging and every SPDLOG macro are left out.
- The pybind glue, the Python wrapper classes and the `Timer` of `benchmark.hpp` are left out.
- The debug-only assertions of monotonic order after `sort_spans` and after trace splitting are left out.
- Collector subscription, `collect_callbacks` dispatch and the interval getters and setters are left out.
- `SpanOrdering.SortSpans`: the comparator is not a strict weak order, so `std::stable_sort` promises no particular order. The model sorts by stable insertion with the same comparator and proves only that the result is a permutation.
- `Aggregation.SpanAggregator.RemoveSpan` and `RemoveSpanAt` require the id to be indexed. The source only asserts this, and its callers always meet it.
- `SpanIndex.Replace` and `SpanIndex.Emplace` refuse an entry that would share a unique key, as the container does. The source's assertion that a replacement keeps its cookie is not modelled.
- `Aggregation.SpanAggregator.ExecuteCallbacks`: a callback is only recorded, never run. What a callback does, and any exception it throws, is not modelled.
- `Expiring.TtlDict`: clock readings are integers, not floats.
- The TTLDict constructor that takes initial `data` is not modelled. It stores values without time stamps, which every later access fails to unpack.
- `Expiring.TtlDict.Set` uses one `now` for both the cleanup and the stamp. The source reads the clock twice.
- `Expiring.TtlDict.Keys` returns the set of live keys. The insertion order of the source's iterator is not modelled.
- `TracingExport.KnownAncestors`: the ancestor walk is bounded by the number of recorded spans. `TracingExport.FullWalkRepeats` shows the bound only cuts a walk that has looked up an id twice; on such a table with a cycle of parent links the source would loop forever.
- The exporter's per-thread `contextvars` contexts (`__context_by_pid_tid`) and `Context.run` are not modelled, since the tracer is opaque.
- `TracingExport.EndOf`: an exception raised by the tracer's `finish` is not modelled. A finish is recorded as a call.
- `TracingExport.OpenTracingExporter.GetSpanById`: the `quiet` flag only controls logging and is left out.
- Span time points are integers in both exporters. The conversion to float seconds is not modelled.
- `Chrono`: durations are unbounded integers. Overflow of the 64-bit representation is not modelled, except for the maximal duration that `epsilon` starts at.
- `Chrono.GetBaseMeasurements` takes the clock reads as `readings`, which must hold at least `limit` attempts and at least one. The source reads the live clocks instead.
- `Chrono.ConvertNow` states only that some number of attempts was used. The exact number is stated by `GetBaseMeasurements`.
- `Collector.SamplingCollector.ProcessRawFrames` requires a buffer that is empty (an idle pass) or that the backward search can cut, with a topmost frame just before the end of the processed range. The source asserts this for a non-empty buffer, and other non-empty buffers are undefined behaviour there. The search never inspects the first frame.
- `SpanIndex.Find`, `SpanIndex.Emplace` and `SpanSweep.MarkExpired`: the source's hashed indices iterate in bucket order; the model iterates in insertion order, which is one admissible resolution of that unspecified order. It decides the order of the marked list and of the emitted Ends, which child the parent-id lookup in remove_span returns, and which sibling add_span closes. The proved properties (unique keys, no expired span left open, the sweep emits only Ends) do not depend on that order.
- `Collector.SamplingCollector`: `ignore_own_threads_flag` is stored by the constructor but never read. The model, like the source, always skips own threads.
