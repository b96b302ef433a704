/**
 * The span aggregator object (include/gauge/span_aggregator.hpp:36-158,
 * src/cpp/gauge/span_aggregator.cpp): its open-span table, time reference,
 * UUID generator and subscriber lists are fields that its methods update in
 * place. Each method is proved to leave the object in the state that the
 * functions of `SpanLifecycle`, `SpanIngest`, `SpanSweep` and
 * `SpanOrdering` describe, and the lemmas here state what that means for a
 * whole batch.
 */
module Aggregation {
  import opened Base
  import opened Wrappers
  import opened SpanIndex
  import opened SpanLifecycle
  import opened SpanIngest
  import opened SpanSweep
  import opened SpanOrdering

  /** Line 39 of the header: the default time-to-live, 100 ms in nanoseconds. */
  const DefaultSpanTtl: int := 100_000_000

  /** The state one call of `operator()` leaves and the batch it dispatches. */
  datatype Aggregated = Aggregated(open: Index, nextUuid: nat, offset: int, batch: seq<Span>)

  /**
   * Lines 101-154: walk every trace, move the time reference to the last
   * trace, sweep without forcing, and sort what was emitted.
   */
  function AggregateBatch(ix: Index, nextUuid: nat, offset: int, spanTtl: int, traces: seq<Trace>): Aggregated
  {
    var w := WalkTraces(ix, nextUuid, traces);
    var offset' := OffsetAfter(offset, traces);
    var sw := Sweep(w.open, offset', spanTtl, false);
    Aggregated(sw.open, w.nextUuid, offset', SortSpans(w.emitted + sw.emitted))
  }

  /** How often `x` occurs among the Start events of a batch. */
  lemma {:induction false} StartsCount(s: seq<Span>, x: Span)
    ensures multiset(Starts(s))[x] == if x.lifetime == Start then multiset(s)[x] else 0
  {
    if s != [] {
      var t := s[1..];
      StartsCount(t, x);
      assert s == [s[0]] + t;
      assert multiset(s) == multiset{s[0]} + multiset(t);
      var head := if s[0].lifetime == Start then [s[0]] else [];
      assert Starts(s) == head + Starts(t);
      assert multiset(Starts(s)) == multiset(head) + multiset(Starts(t));
    }
  }

  /** Rearranging a batch rearranges its Start events. */
  lemma StartsOfPermutation(a: seq<Span>, b: seq<Span>)
    requires multiset(a) == multiset(b)
    ensures multiset(Starts(a)) == multiset(Starts(b))
  {
    forall x ensures multiset(Starts(a))[x] == multiset(Starts(b))[x] {
      StartsCount(a, x);
      StartsCount(b, x);
    }
  }

  /**
   * What one call of `operator()` guarantees, given the table's invariant
   * and ids drawn from the generator: the invariant holds again; no span
   * left open has outlived the time-to-live at the new time reference;
   * the dispatched batch holds as Start events exactly the spans built for
   * new calls (counted with multiplicity), and every other event in it is
   * an End.
   */
  lemma AggregateFacts(ix: Index, nextUuid: nat, offset: int, spanTtl: int, traces: seq<Trace>)
    requires UniqueKeys(ix) && IdsBelow(ix, nextUuid)
    ensures var a := AggregateBatch(ix, nextUuid, offset, spanTtl, traces);
      && UniqueKeys(a.open) && IdsBelow(a.open, a.nextUuid)
      && NoneExpired(a.open, a.offset, spanTtl, false)
      && multiset(Starts(a.batch)) == multiset(Starts(WalkTraces(ix, nextUuid, traces).built))
  {
    var w := WalkTraces(ix, nextUuid, traces);
    WalkTracesFacts(ix, nextUuid, traces);
    WalkTracesStarts(ix, nextUuid, traces);
    var offset' := OffsetAfter(offset, traces);
    var sw := Sweep(w.open, offset', spanTtl, false);
    SweepLeavesNoExpired(w.open, offset', spanTtl, false);
    SweepIdsBelow(w.open, offset', spanTtl, false, w.nextUuid);
    StartsOfEnds(sw.emitted);
    StartsAppend(w.emitted, sw.emitted);
    assert w.emitted + sw.emitted == w.emitted + sw.emitted;
    StartsOfPermutation(SortSpans(w.emitted + sw.emitted), w.emitted + sw.emitted);
  }

  /** A sweep keeps no id that was not open before it. */
  lemma SweepIdsBelow(ix: Index, offset: int, spanTtl: int, forceFinish: bool, bound: nat)
    requires UniqueKeys(ix) && IdsBelow(ix, bound)
    ensures IdsBelow(Sweep(ix, offset, spanTtl, forceFinish).open, bound)
  {
    var mk := MarkExpired(ix, offset, spanTtl, forceFinish, 0);
    MarkExpiredOpen(ix, offset, spanTtl, forceFinish, 0);
    EndMarkedCloses(mk.open, mk.marked);
    var r := Sweep(ix, offset, spanTtl, forceFinish);
    forall k | 0 <= k < |r.open| ensures r.open[k].span.id.Uuid? && r.open[k].span.id.n < bound {
      var e := r.open[k];
      assert e in mk.open;
      var j :| 0 <= j < |mk.open| && mk.open[j] == e;
      assert e.span.id == ix[j].span.id;
    }
  }

  class SpanAggregator {
    /** The time-to-live after which an open span that was not seen again is closed. */
    const spanTtl: int
    /** The monotonic time reference of the latest batch. */
    var offset: int
    /** The three-key table of open spans. */
    var openSpans: Index
    /** The UUID generator: the next id it draws is `Uuid(nextUuid)`. */
    var nextUuid: nat
    /** Native subscribers, most recently subscribed first. */
    var callbacks: seq<nat>
    /** Python subscribers, most recently subscribed first. */
    var pyCallbacks: seq<nat>
    /** Every batch handed to a subscriber so far, in order. */
    var delivered: seq<Delivery>

    /** The table keeps its keys unique, and every indexed id was drawn from the generator. */
    ghost predicate Valid()
      reads this
    {
      UniqueKeys(openSpans) && IdsBelow(openSpans, nextUuid)
    }

    /** Lines 15-20: an empty table, the time reference at the clock's epoch. */
    constructor(spanTtl: int := DefaultSpanTtl)
      ensures Valid()
      ensures this.spanTtl == spanTtl && offset == 0 && openSpans == [] && nextUuid == 0
      ensures callbacks == [] && pyCallbacks == [] && delivered == []
    {
      this.spanTtl := spanTtl;
      offset := 0;
      openSpans := [];
      nextUuid := 0;
      callbacks := [];
      pyCallbacks := [];
      delivered := [];
    }

    /** The UUID generator draws an id it never drew before. */
    method NewUuid() returns (id: Ident)
      modifies this`nextUuid
      ensures id == Uuid(old(nextUuid)) && nextUuid == old(nextUuid) + 1
    {
      id := Uuid(nextUuid);
      nextUuid := nextUuid + 1;
    }

    /** Lines 223-268: `add_span`; the spans it emits are appended to `spans`. */
    method AddSpan(span: Span, cookie: U64, spans: seq<Span>) returns (out: seq<Span>)
      modifies this`openSpans
      ensures openSpans == SpanLifecycle.AddSpan(old(openSpans), span, cookie).open
      ensures out == spans + SpanLifecycle.AddSpan(old(openSpans), span, cookie).emitted
    {
      var found := Find(openSpans, ById(span.id));
      if found.Some? {
        openSpans := Replace(openSpans, found.value, OpenSpan(cookie, span));
        out := spans;
        return;
      }
      out := spans;
      var sibling := Find(openSpans, ByParentId(span.parentId));
      if sibling.Some? {
        var s := openSpans[sibling.value];
        if s.span.processId == span.processId && s.span.threadId == span.threadId {
          out := RemoveSpan(s.span, s.cookie, out);
        }
      }
      openSpans := Emplace(openSpans, OpenSpan(cookie, span));
      if span.lifetime == Start {
        out := out + [span];
      }
    }

    /** Lines 270-280: the three-argument `remove_span`, closing at the span's own time points. */
    method RemoveSpan(span: Span, cookie: U64, spans: seq<Span>) returns (out: seq<Span>)
      requires Find(openSpans, ById(span.id)).Some?
      modifies this`openSpans
      ensures openSpans == SpanLifecycle.RemoveSpan(old(openSpans), span).open
      ensures out == spans + SpanLifecycle.RemoveSpan(old(openSpans), span).emitted
    {
      out := RemoveSpanAt(span, cookie, spans, span.monotonicTimestamp, span.timestamp);
    }

    /**
     * Lines 282-316: the five-argument `remove_span`. Each pass emits the
     * current span's End copy, erases it, and moves to some open child.
     */
    method RemoveSpanAt(span: Span, cookie: U64, spans: seq<Span>, monotonicTimestamp: int, timestamp: int)
      returns (out: seq<Span>)
      requires Find(openSpans, ById(span.id)).Some?
      modifies this`openSpans
      ensures openSpans == RemoveChain(old(openSpans), span, monotonicTimestamp, timestamp).open
      ensures out == spans + RemoveChain(old(openSpans), span, monotonicTimestamp, timestamp).emitted
    {
      ghost var goal := RemoveChain(openSpans, span, monotonicTimestamp, timestamp);
      var current := span;
      out := spans;
      while true
        invariant Find(openSpans, ById(current.id)).Some?
        invariant RemoveChain(openSpans, current, monotonicTimestamp, timestamp).open == goal.open
        invariant out + RemoveChain(openSpans, current, monotonicTimestamp, timestamp).emitted == spans + goal.emitted
        decreases |openSpans|
      {
        RemoveChainStep(openSpans, current, monotonicTimestamp, timestamp);
        ghost var outBefore := out;
        var endSpan := StampedEnd(current, monotonicTimestamp, timestamp);
        out := out + [endSpan];
        openSpans := EraseById(openSpans, current.id);
        var child := Find(openSpans, ByParentId(current.id));
        if child.None? {
          break;
        }
        ConcatAssoc(outBefore, [endSpan], RemoveChain(openSpans, openSpans[child.value].span, monotonicTimestamp, timestamp).emitted);
        current := openSpans[child.value].span;
      }
    }

    /**
     * Lines 66-99: `process_open_spans`. The first loop marks expired
     * entries (re-indexing an expired Start as its End copy), the second
     * closes every marked entry that is still open.
     */
    method ProcessOpenSpans(spans: seq<Span>, forceFinish: bool) returns (out: seq<Span>)
      modifies this`openSpans
      ensures openSpans == Sweep(old(openSpans), offset, spanTtl, forceFinish).open
      ensures out == spans + Sweep(old(openSpans), offset, spanTtl, forceFinish).emitted
    {
      ghost var mk := MarkExpired(openSpans, offset, spanTtl, forceFinish, 0);
      var marked: seq<OpenSpan>;
      out, marked := MarkExpiredSpans(spans, forceFinish);
      ghost var en := EndMarked(openSpans, marked);
      ghost var afterMarking := out;
      out := EndMarkedSpans(marked, out);
      assert out == spans + (mk.emitted + en.emitted);
    }

    /** Lines 70-89: the marking loop, from the first entry to the last in iteration order. */
    method MarkExpiredSpans(spans: seq<Span>, forceFinish: bool) returns (out: seq<Span>, marked: seq<OpenSpan>)
      modifies this`openSpans
      ensures var mk := MarkExpired(old(openSpans), offset, spanTtl, forceFinish, 0);
        openSpans == mk.open && out == spans + mk.emitted && marked == mk.marked
    {
      ghost var mk0 := MarkExpired(openSpans, offset, spanTtl, forceFinish, 0);
      marked := [];
      out := spans;
      var i := 0;
      while i < |openSpans|
        invariant i <= |openSpans|
        invariant MarkExpired(openSpans, offset, spanTtl, forceFinish, i).open == mk0.open
        invariant marked + MarkExpired(openSpans, offset, spanTtl, forceFinish, i).marked == mk0.marked
        invariant out + MarkExpired(openSpans, offset, spanTtl, forceFinish, i).emitted == spans + mk0.emitted
        decreases |openSpans| - i
      {
        ghost var before := MarkExpired(openSpans, offset, spanTtl, forceFinish, i);
        ghost var markedBefore := marked;
        ghost var outBefore := out;
        var o := openSpans[i];
        if Expired(o.span, offset, spanTtl, forceFinish) {
          if o.span.lifetime == Start {
            var endSpan := ToEndSpan(o.span);
            ghost var eff := SpanLifecycle.AddSpan(openSpans, endSpan, o.cookie);
            out := AddSpan(endSpan, o.cookie, out);
            marked := marked + [OpenSpan(o.cookie, endSpan)];
            ghost var after := MarkExpired(openSpans, offset, spanTtl, forceFinish, i + 1);
            assert before == Marking(after.open, eff.emitted + after.emitted, [OpenSpan(o.cookie, endSpan)] + after.marked);
            ConcatAssoc(outBefore, eff.emitted, after.emitted);
            ConcatAssoc(markedBefore, [OpenSpan(o.cookie, endSpan)], after.marked);
          } else {
            marked := marked + [o];
            ghost var after := MarkExpired(openSpans, offset, spanTtl, forceFinish, i + 1);
            assert before == Marking(after.open, after.emitted, [o] + after.marked);
            ConcatAssoc(markedBefore, [o], after.marked);
          }
        } else {
          assert before == MarkExpired(openSpans, offset, spanTtl, forceFinish, i + 1);
        }
        i := i + 1;
      }
    }

    /** Lines 91-96: close each marked entry whose id is still indexed. */
    method EndMarkedSpans(marked: seq<OpenSpan>, spans: seq<Span>) returns (out: seq<Span>)
      modifies this`openSpans
      ensures var en := EndMarked(old(openSpans), marked);
        openSpans == en.open && out == spans + en.emitted
    {
      ghost var en0 := EndMarked(openSpans, marked);
      out := spans;
      var j := 0;
      while j < |marked|
        invariant j <= |marked|
        invariant EndMarked(openSpans, marked[j..]).open == en0.open
        invariant out + EndMarked(openSpans, marked[j..]).emitted == spans + en0.emitted
      {
        var m := marked[j];
        ghost var step := CloseMarked(openSpans, m);
        ghost var rest := EndMarked(step.open, marked[j + 1..]);
        EndMarkedStep(openSpans, marked, j);
        ConcatAssoc(out, step.emitted, rest.emitted);
        ghost var outBefore := out;
        if Find(openSpans, ById(m.span.id)).Some? {
          out := RemoveSpan(m.span, m.cookie, out);
        }
        assert openSpans == step.open && out == outBefore + step.emitted;
        j := j + 1;
      }
      assert marked[j..] == [];
    }

    /** Lines 22-57: a non-empty batch goes to every native subscriber, then to every Python one. */
    method ExecuteCallbacks(batch: seq<Span>)
      modifies this`delivered
      ensures delivered == old(delivered) + Deliveries(callbacks, pyCallbacks, batch)
    {
      if batch != [] {
        for k := 0 to |callbacks|
          invariant delivered == old(delivered) + Deliveries(callbacks[..k], [], batch)
        {
          delivered := delivered + [Delivery(Native(callbacks[k]), batch)];
          assert callbacks[..k + 1][..k] == callbacks[..k];
        }
        assert callbacks[..|callbacks|] == callbacks;
        for k := 0 to |pyCallbacks|
          invariant delivered == old(delivered) + Deliveries(callbacks, pyCallbacks[..k], batch)
        {
          delivered := delivered + [Delivery(Python(pyCallbacks[k]), batch)];
          assert pyCallbacks[..k + 1][..k] == pyCallbacks[..k];
        }
        assert pyCallbacks[..|pyCallbacks|] == pyCallbacks;
      }
    }

    /** Lines 211-216: a native subscriber goes to the front of its list. */
    method Subscribe(callback: nat)
      modifies this`callbacks
      ensures callbacks == SpanOrdering.Subscribe(old(callbacks), callback)
    {
      callbacks := [callback] + callbacks;
    }

    /** Lines 218-221: a Python subscriber goes to the front of its list. */
    method SubscribePython(callback: nat)
      modifies this`pyCallbacks
      ensures pyCallbacks == SpanOrdering.Subscribe(old(pyCallbacks), callback)
    {
      pyCallbacks := [callback] + pyCallbacks;
    }

    /**
     * Lines 101-154: `operator()`. Every trace is walked with a freshly
     * drawn correlation id, the time reference moves to the last trace, the
     * table is swept, and the sorted batch is dispatched.
     */
    method Aggregate(traces: seq<Trace>)
      requires Valid()
      modifies this`openSpans, this`nextUuid, this`offset, this`delivered
      ensures Valid()
      ensures var a := AggregateBatch(old(openSpans), old(nextUuid), old(offset), spanTtl, traces);
        && openSpans == a.open && nextUuid == a.nextUuid && offset == a.offset
        && delivered == old(delivered) + Deliveries(callbacks, pyCallbacks, a.batch)
    {
      ghost var w := WalkTraces(openSpans, nextUuid, traces);
      var spans := WalkBatch(traces);
      ghost var swept := Sweep(openSpans, offset, spanTtl, false);
      spans := ProcessOpenSpans(spans, false);
      assert spans == w.emitted + swept.emitted;
      var batch := SortSpans(spans);
      ExecuteCallbacks(batch);
      AggregateFacts(old(openSpans), old(nextUuid), old(offset), spanTtl, traces);
    }

    /**
     * Lines 108-148: the loop of `operator()` over the batch; each trace
     * draws its correlation id and is walked frame by frame, and the time
     * reference is taken from the last trace.
     */
    method WalkBatch(traces: seq<Trace>) returns (spans: seq<Span>)
      modifies this`openSpans, this`nextUuid, this`offset
      ensures var w := WalkTraces(old(openSpans), old(nextUuid), traces);
        openSpans == w.open && nextUuid == w.nextUuid && spans == w.emitted
      ensures offset == OffsetAfter(old(offset), traces)
    {
      ghost var w0 := WalkTraces(openSpans, nextUuid, traces);
      spans := [];
      var t := 0;
      while t < |traces|
        invariant t <= |traces|
        invariant var w := WalkTraces(openSpans, nextUuid, traces[t..]);
          w.open == w0.open && w.nextUuid == w0.nextUuid && spans + w.emitted == w0.emitted
        invariant offset == if t == |traces| then OffsetAfter(old(offset), traces) else old(offset)
      {
        var trace := traces[t];
        assert traces[t..][0] == trace && traces[t..][1..] == traces[t + 1..];
        ghost var step := WalkTraces(openSpans, nextUuid, traces[t..]);
        if t == |traces| - 1 {
          offset := trace.monotonicTimestamp;
        }
        var correlationId := NewUuid();
        ghost var here := WalkFrames(openSpans, nextUuid, trace, trace.frames, correlationId, None);
        ghost var spansBefore := spans;
        spans := WalkTrace(trace, correlationId, spans);
        ghost var rest := WalkTraces(openSpans, nextUuid, traces[t + 1..]);
        assert step.emitted == here.emitted + rest.emitted;
        ConcatAssoc(spansBefore, here.emitted, rest.emitted);
        t := t + 1;
      }
      assert traces[|traces|..] == [];
    }

    /**
     * Lines 114-147: one trace's frames from the last to the first; each
     * gets a span that continues an open call (same cookie) or starts one
     * with a fresh id, linked to the span built just before it.
     */
    method WalkTrace(trace: Trace, correlationId: Ident, spans: seq<Span>) returns (out: seq<Span>)
      modifies this`openSpans, this`nextUuid
      ensures var w := WalkFrames(old(openSpans), old(nextUuid), trace, trace.frames, correlationId, None);
        openSpans == w.open && nextUuid == w.nextUuid && out == spans + w.emitted
    {
      ghost var w0 := WalkFrames(openSpans, nextUuid, trace, trace.frames, correlationId, None);
      out := spans;
      var parent: Option<Span> := None;
      var f := |trace.frames|;
      assert trace.frames[..f] == trace.frames;
      while f > 0
        invariant 0 <= f <= |trace.frames|
        invariant var w := WalkFrames(openSpans, nextUuid, trace, trace.frames[..f], correlationId, parent);
          w.open == w0.open && w.nextUuid == w0.nextUuid && out + w.emitted == spans + w0.emitted
      {
        var span;
        span, out := WalkFrame(trace, f, correlationId, parent, out);
        ghost var rest := WalkFrames(openSpans, nextUuid, trace, trace.frames[..f - 1], correlationId, Some(span));
        assert rest.open == w0.open && rest.nextUuid == w0.nextUuid && out + rest.emitted == spans + w0.emitted;
        parent := Some(span);
        f := f - 1;
      }
      assert trace.frames[..0] == [];
    }

    /**
     * One pass of the frame loop: indexing frame `f - 1` and then walking
     * the frames before it is the walk of `frames[..f]`.
     */
    method WalkFrame(trace: Trace, f: nat, correlationId: Ident, parent: Option<Span>, spans: seq<Span>)
      returns (span: Span, out: seq<Span>)
      requires 0 < f <= |trace.frames|
      modifies this`openSpans, this`nextUuid
      ensures var w := WalkFrames(old(openSpans), old(nextUuid), trace, trace.frames[..f], correlationId, parent);
        var rest := WalkFrames(openSpans, nextUuid, trace, trace.frames[..f - 1], correlationId, Some(span));
        rest.open == w.open && rest.nextUuid == w.nextUuid && out + rest.emitted == spans + w.emitted
    {
      var frame := trace.frames[f - 1];
      WalkFramesStep(openSpans, nextUuid, trace, f, correlationId, parent);
      ghost var m := FrameSpan(openSpans, nextUuid, trace, frame, correlationId, parent);
      ghost var eff := SpanLifecycle.AddSpan(openSpans, m.span, frame.cookie);
      ghost var rest := WalkFrames(eff.open, m.nextUuid, trace, trace.frames[..f - 1], correlationId, Some(m.span));
      ConcatAssoc(spans, eff.emitted, rest.emitted);
      span, out := IndexFrame(trace, frame, correlationId, parent, spans);
    }

    /**
     * Lines 121-146, one frame: the span continues the open call with the
     * frame's cookie or starts a new one, and is indexed with `add_span`.
     */
    method IndexFrame(trace: Trace, frame: Frame, correlationId: Ident, parent: Option<Span>, spans: seq<Span>)
      returns (span: Span, out: seq<Span>)
      modifies this`openSpans, this`nextUuid
      ensures var m := FrameSpan(old(openSpans), old(nextUuid), trace, frame, correlationId, parent);
        var eff := SpanLifecycle.AddSpan(old(openSpans), m.span, frame.cookie);
        span == m.span && nextUuid == m.nextUuid && openSpans == eff.open && out == spans + eff.emitted
    {
      span := SpanOf(trace, frame).(correlationId := correlationId);
      var it := Find(openSpans, ByCookie(frame.cookie));
      if it.None? {
        var id := NewUuid();
        span := span.(lifetime := Start, id := id);
      } else {
        span := span.(lifetime := End, id := openSpans[it.value].span.id);
      }
      if parent.Some? {
        span := span.(parentId := parent.value.id, isTop := false);
      } else {
        span := span.(isTop := true, parentId := Empty);
      }
      out := AddSpan(span, frame.cookie, spans);
    }

    /** Lines 198-209: `finish_open_spans` closes every open span and dispatches the Ends. */
    method FinishOpenSpans()
      requires Valid()
      modifies this`openSpans, this`delivered
      ensures Valid() && openSpans == []
      ensures delivered == old(delivered)
        + Deliveries(callbacks, pyCallbacks, SortSpans(Sweep(old(openSpans), offset, spanTtl, true).emitted))
    {
      ghost var swept := Sweep(openSpans, offset, spanTtl, true);
      var spans := ProcessOpenSpans([], true);
      assert spans == swept.emitted;
      ForcedSweepEmpties(old(openSpans), offset, spanTtl);
      var batch := SortSpans(spans);
      ExecuteCallbacks(batch);
    }
  }
}
