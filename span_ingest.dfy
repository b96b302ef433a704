/**
 * Turning a batch of traces into spans: the loops of
 * `SpanAggregator::operator()` (src/cpp/gauge/span_aggregator.cpp:101-148)
 * as functions of the open-span table and of the UUID generator.
 *
 * The generator is modelled by a counter: the n-th UUID it draws is
 * `Uuid(n)`, so `Uuid(n)` with `n` at least the counter has never been
 * drawn.
 */
module SpanIngest {
  import opened Base
  import opened Wrappers
  import opened SpanIndex
  import opened SpanLifecycle

  /** A span built from one frame, and the generator's counter afterwards. */
  datatype Made = Made(span: Span, nextUuid: nat)

  /** The table, the counter, the emitted spans, and the spans built for each frame in visiting order. */
  datatype Walk = Walk(open: Index, nextUuid: nat, emitted: seq<Span>, built: seq<Span>)

  /** Every indexed span id was drawn from the generator before `bound`. */
  ghost predicate IdsBelow(ix: Index, bound: nat)
  {
    forall k :: 0 <= k < |ix| ==> ix[k].span.id.Uuid? && ix[k].span.id.n < bound
  }

  /**
   * Lines 125-143: the span for one frame. A cookie that is not indexed
   * starts a new call with a fresh id; an indexed cookie yields an End that
   * reuses the indexed id. The first frame visited is the top span with an
   * empty parent id; every later one names the span built just before it
   * as its parent.
   */
  function FrameSpan(ix: Index, nextUuid: nat, trace: Trace, frame: Frame, correlationId: Ident, parent: Option<Span>): (m: Made)
    ensures CarriesFrame(m.span, frame) && CarriesTrace(m.span, trace)
    ensures m.span.correlationId == correlationId
    ensures Find(ix, ByCookie(frame.cookie)).None? ==>
              m.span.lifetime == Start && m.span.id == Uuid(nextUuid) && m.nextUuid == nextUuid + 1
    ensures Find(ix, ByCookie(frame.cookie)).Some? ==>
              m.span.lifetime == End && m.span.id == ix[Find(ix, ByCookie(frame.cookie)).value].span.id
              && m.nextUuid == nextUuid
    ensures parent.None? ==> m.span.isTop && m.span.parentId == Empty
    ensures parent.Some? ==> !m.span.isTop && m.span.parentId == parent.value.id
  {
    var base := SpanOf(trace, frame).(correlationId := correlationId);
    var made := match Find(ix, ByCookie(frame.cookie))
      case None => Made(base.(lifetime := Start, id := Uuid(nextUuid)), nextUuid + 1)
      case Some(i) => Made(base.(lifetime := End, id := ix[i].span.id), nextUuid);
    if parent.Some? then made.(span := made.span.(parentId := parent.value.id, isTop := false))
    else made.(span := made.span.(isTop := true, parentId := Empty))
  }

  /**
   * Lines 121-147: visit `frames` from the last to the first, build each
   * frame's span and index it with `add_span`; `parent` is the span built
   * for the frame visited before.
   */
  function WalkFrames(ix: Index, nextUuid: nat, trace: Trace, frames: seq<Frame>, correlationId: Ident, parent: Option<Span>): Walk
    decreases |frames|
  {
    if |frames| == 0 then Walk(ix, nextUuid, [], [])
    else
      var frame := frames[|frames| - 1];
      var m := FrameSpan(ix, nextUuid, trace, frame, correlationId, parent);
      var eff := AddSpan(ix, m.span, frame.cookie);
      var rest := WalkFrames(eff.open, m.nextUuid, trace, frames[..|frames| - 1], correlationId, Some(m.span));
      Walk(rest.open, rest.nextUuid, eff.emitted + rest.emitted, [m.span] + rest.built)
  }

  /** One step of the walk: the frame at position `f - 1` first, then the frames before it. */
  lemma WalkFramesStep(ix: Index, nextUuid: nat, trace: Trace, f: nat, correlationId: Ident, parent: Option<Span>)
    requires 0 < f <= |trace.frames|
    ensures var frame := trace.frames[f - 1];
      var m := FrameSpan(ix, nextUuid, trace, frame, correlationId, parent);
      var eff := AddSpan(ix, m.span, frame.cookie);
      var rest := WalkFrames(eff.open, m.nextUuid, trace, trace.frames[..f - 1], correlationId, Some(m.span));
      var w := WalkFrames(ix, nextUuid, trace, trace.frames[..f], correlationId, parent);
      w.open == rest.open && w.nextUuid == rest.nextUuid && w.emitted == eff.emitted + rest.emitted
  {
    assert trace.frames[..f][f - 1] == trace.frames[f - 1];
    assert trace.frames[..f][..f - 1] == trace.frames[..f - 1];
  }

  /** Lines 112-148: each trace in order, with one freshly drawn correlation id per trace. */
  function WalkTraces(ix: Index, nextUuid: nat, traces: seq<Trace>): Walk
    decreases |traces|
  {
    if |traces| == 0 then Walk(ix, nextUuid, [], [])
    else
      var trace := traces[0];
      var here := WalkFrames(ix, nextUuid + 1, trace, trace.frames, Uuid(nextUuid), None);
      var rest := WalkTraces(here.open, here.nextUuid, traces[1..]);
      Walk(rest.open, rest.nextUuid, here.emitted + rest.emitted, here.built + rest.built)
  }

  /**
   * Walking one trace draws one id per new call and keeps the container's
   * invariant.
   */
  lemma {:induction false} WalkFramesFacts(ix: Index, nextUuid: nat, trace: Trace, frames: seq<Frame>, correlationId: Ident, parent: Option<Span>)
    ensures var w := WalkFrames(ix, nextUuid, trace, frames, correlationId, parent);
      nextUuid <= w.nextUuid && (UniqueKeys(ix) ==> UniqueKeys(w.open))
    decreases |frames|
  {
    if |frames| > 0 {
      var frame := frames[|frames| - 1];
      var m := FrameSpan(ix, nextUuid, trace, frame, correlationId, parent);
      AddSpanFacts(ix, m.span, frame.cookie);
      var eff := AddSpan(ix, m.span, frame.cookie);
      WalkFramesFacts(eff.open, m.nextUuid, trace, frames[..|frames| - 1], correlationId, Some(m.span));
    }
  }

  /**
   * A batch draws at least one id per trace, its correlation id, and keeps
   * the container's invariant.
   */
  lemma {:induction false} WalkTracesFacts(ix: Index, nextUuid: nat, traces: seq<Trace>)
    ensures var w := WalkTraces(ix, nextUuid, traces);
      nextUuid + |traces| <= w.nextUuid && (UniqueKeys(ix) ==> UniqueKeys(w.open))
    decreases |traces|
  {
    if |traces| > 0 {
      var trace := traces[0];
      WalkFramesFacts(ix, nextUuid + 1, trace, trace.frames, Uuid(nextUuid), None);
      var here := WalkFrames(ix, nextUuid + 1, trace, trace.frames, Uuid(nextUuid), None);
      WalkTracesFacts(here.open, here.nextUuid, traces[1..]);
    }
  }

  /** Lines 109-118: the time reference becomes the monotonic time point of the batch's last trace. */
  function OffsetAfter(offset: int, traces: seq<Trace>): (r: int)
    ensures |traces| == 0 ==> r == offset
    ensures |traces| > 0 ==> r == traces[|traces| - 1].monotonicTimestamp
  {
    if |traces| == 0 then offset else traces[|traces| - 1].monotonicTimestamp
  }

  /** `built[k]` carries the k-th frame of `frames` counted from the end, and there is one span per frame. */
  ghost predicate FramesCarried(built: seq<Span>, frames: seq<Frame>)
    decreases |frames|
  {
    && |built| == |frames|
    && (|frames| > 0 ==>
          CarriesFrame(built[0], frames[|frames| - 1]) && FramesCarried(built[1..], frames[..|frames| - 1]))
  }

  /** The recursive statement of `FramesCarried`, position by position. */
  lemma {:induction false} FramesCarriedAt(built: seq<Span>, frames: seq<Frame>)
    requires FramesCarried(built, frames)
    ensures forall k :: 0 <= k < |built| ==> CarriesFrame(built[k], frames[|frames| - 1 - k])
    decreases |frames|
  {
    if |frames| > 0 {
      var prefix := frames[..|frames| - 1];
      FramesCarriedAt(built[1..], prefix);
      forall k | 1 <= k < |built| ensures CarriesFrame(built[k], frames[|frames| - 1 - k]) {
        assert built[k] == built[1..][k - 1];
        assert frames[|frames| - 1 - k] == prefix[|prefix| - 1 - (k - 1)];
      }
    }
  }

  /**
   * The spans built for one trace: one per frame, the k-th visited built
   * from the k-th frame counted from the end.
   */
  lemma {:induction false} WalkFramesBuilt(ix: Index, nextUuid: nat, trace: Trace, frames: seq<Frame>, correlationId: Ident, parent: Option<Span>)
    ensures FramesCarried(WalkFrames(ix, nextUuid, trace, frames, correlationId, parent).built, frames)
    decreases |frames|
  {
    if |frames| > 0 {
      var frame := frames[|frames| - 1];
      var m := FrameSpan(ix, nextUuid, trace, frame, correlationId, parent);
      var eff := AddSpan(ix, m.span, frame.cookie);
      var prefix := frames[..|frames| - 1];
      WalkFramesBuilt(eff.open, m.nextUuid, trace, prefix, correlationId, Some(m.span));
      var rest := WalkFrames(eff.open, m.nextUuid, trace, prefix, correlationId, Some(m.span));
      var built := WalkFrames(ix, nextUuid, trace, frames, correlationId, parent).built;
      assert built == [m.span] + rest.built;
      assert built[1..] == rest.built;
    }
  }

  /** Every span in `built` carries the trace's attributes and the correlation id. */
  ghost predicate AllTraced(built: seq<Span>, trace: Trace, correlationId: Ident)
  {
    forall k :: 0 <= k < |built| ==> CarriesTrace(built[k], trace) && built[k].correlationId == correlationId
  }

  /** Every span built for one trace carries the trace's attributes and its correlation id. */
  lemma {:induction false} WalkFramesTraced(ix: Index, nextUuid: nat, trace: Trace, frames: seq<Frame>, correlationId: Ident, parent: Option<Span>)
    ensures AllTraced(WalkFrames(ix, nextUuid, trace, frames, correlationId, parent).built, trace, correlationId)
    decreases |frames|
  {
    if |frames| > 0 {
      var frame := frames[|frames| - 1];
      var m := FrameSpan(ix, nextUuid, trace, frame, correlationId, parent);
      var eff := AddSpan(ix, m.span, frame.cookie);
      var prefix := frames[..|frames| - 1];
      WalkFramesTraced(eff.open, m.nextUuid, trace, prefix, correlationId, Some(m.span));
      var rest := WalkFrames(eff.open, m.nextUuid, trace, prefix, correlationId, Some(m.span));
      var built := [m.span] + rest.built;
      assert WalkFrames(ix, nextUuid, trace, frames, correlationId, parent).built == built;
      forall k | 0 <= k < |built|
        ensures CarriesTrace(built[k], trace) && built[k].correlationId == correlationId
      {
        if k > 0 {
          assert built[k] == rest.built[k - 1];
        }
      }
    }
  }

  /**
   * The parent links of one trace's spans: the first visited is the top
   * span with an empty parent id (when the walk starts without a parent),
   * and each later one is the child of the one visited before it.
   */
  lemma {:induction false} WalkFramesLinks(ix: Index, nextUuid: nat, trace: Trace, frames: seq<Frame>, correlationId: Ident, parent: Option<Span>)
    ensures var w := WalkFrames(ix, nextUuid, trace, frames, correlationId, parent);
      && (forall k :: 1 <= k < |w.built| ==> !w.built[k].isTop && w.built[k].parentId == w.built[k - 1].id)
      && (|w.built| > 0 && parent.None? ==> w.built[0].isTop && w.built[0].parentId == Empty)
      && (|w.built| > 0 && parent.Some? ==> !w.built[0].isTop && w.built[0].parentId == parent.value.id)
    decreases |frames|
  {
    if |frames| > 0 {
      var frame := frames[|frames| - 1];
      var m := FrameSpan(ix, nextUuid, trace, frame, correlationId, parent);
      var eff := AddSpan(ix, m.span, frame.cookie);
      var prefix := frames[..|frames| - 1];
      WalkFramesLinks(eff.open, m.nextUuid, trace, prefix, correlationId, Some(m.span));
      var rest := WalkFrames(eff.open, m.nextUuid, trace, prefix, correlationId, Some(m.span));
      var w := WalkFrames(ix, nextUuid, trace, frames, correlationId, parent);
      assert w.built == [m.span] + rest.built;
      forall k | 1 <= k < |w.built|
        ensures !w.built[k].isTop && w.built[k].parentId == w.built[k - 1].id
      {
        assert w.built[k] == rest.built[k - 1];
        if k > 1 {
          assert w.built[k - 1] == rest.built[k - 2];
        }
      }
    }
  }

  /** Indexing a span whose id is below the bound keeps every indexed id below it. */
  lemma AddSpanIdsBelow(ix: Index, span: Span, cookie: U64, bound: nat)
    requires IdsBelow(ix, bound) && span.id.Uuid? && span.id.n < bound
    ensures IdsBelow(AddSpan(ix, span, cookie).open, bound)
  {
    AddSpanFacts(ix, span, cookie);
    var r := AddSpan(ix, span, cookie).open;
    forall k | 0 <= k < |r| ensures r[k].span.id.Uuid? && r[k].span.id.n < bound {
      assert r[k] in ix + [OpenSpan(cookie, span)];
    }
  }

  lemma IdsBelowGrow(ix: Index, bound: nat, bound': nat)
    requires IdsBelow(ix, bound) && bound <= bound'
    ensures IdsBelow(ix, bound')
  {
  }

  /**
   * The Start events emitted while walking a trace are exactly the Start
   * spans built for its new calls, in visiting order: a new cookie's span
   * always reaches the output, a continuation never does as a Start. The
   * ids drawn stay ahead of every indexed id.
   */
  lemma {:induction false} WalkFramesStarts(ix: Index, nextUuid: nat, trace: Trace, frames: seq<Frame>, correlationId: Ident, parent: Option<Span>)
    requires IdsBelow(ix, nextUuid)
    ensures var w := WalkFrames(ix, nextUuid, trace, frames, correlationId, parent);
      Starts(w.emitted) == Starts(w.built) && IdsBelow(w.open, w.nextUuid)
    decreases |frames|
  {
    if |frames| > 0 {
      var frame := frames[|frames| - 1];
      var m := FrameSpan(ix, nextUuid, trace, frame, correlationId, parent);
      var eff := AddSpan(ix, m.span, frame.cookie);
      var prefix := frames[..|frames| - 1];
      var rest := WalkFrames(eff.open, m.nextUuid, trace, prefix, correlationId, Some(m.span));
      AddSpanStarts(ix, m.span, frame.cookie);
      if m.span.lifetime == Start {
        assert Find(ix, ById(m.span.id)).None?;
        assert Starts(eff.emitted) == Starts([m.span]);
      } else {
        assert Starts(eff.emitted) == [] == Starts([m.span]);
      }
      IdsBelowGrow(ix, nextUuid, m.nextUuid);
      AddSpanIdsBelow(ix, m.span, frame.cookie, m.nextUuid);
      WalkFramesStarts(eff.open, m.nextUuid, trace, prefix, correlationId, Some(m.span));
      StartsAppend(eff.emitted, rest.emitted);
      StartsAppend([m.span], rest.built);
    }
  }

  /** The same for a whole batch: the Start events emitted are exactly the Start spans built, in order. */
  lemma {:induction false} WalkTracesStarts(ix: Index, nextUuid: nat, traces: seq<Trace>)
    requires IdsBelow(ix, nextUuid)
    ensures var w := WalkTraces(ix, nextUuid, traces);
      Starts(w.emitted) == Starts(w.built) && IdsBelow(w.open, w.nextUuid)
    decreases |traces|
  {
    if |traces| > 0 {
      var trace := traces[0];
      IdsBelowGrow(ix, nextUuid, nextUuid + 1);
      WalkFramesStarts(ix, nextUuid + 1, trace, trace.frames, Uuid(nextUuid), None);
      var here := WalkFrames(ix, nextUuid + 1, trace, trace.frames, Uuid(nextUuid), None);
      WalkTracesStarts(here.open, here.nextUuid, traces[1..]);
      var rest := WalkTraces(here.open, here.nextUuid, traces[1..]);
      StartsAppend(here.emitted, rest.emitted);
      StartsAppend(here.built, rest.built);
    }
  }
}
