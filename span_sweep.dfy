/**
 * `SpanAggregator::process_open_spans`
 * (src/cpp/gauge/span_aggregator.cpp:66-99) as functions of the open-span
 * table: first every expired entry is marked (a Start is re-indexed as its
 * End copy), then every marked entry that is still open is closed with
 * `remove_span`.
 */
module SpanSweep {
  import opened Base
  import opened SpanIndex
  import opened SpanLifecycle

  /** Lines 77-79: an entry is due when its age exceeds the time-to-live, or when finishing is forced. */
  predicate Expired(s: Span, offset: int, spanTtl: int, forceFinish: bool)
  {
    offset - s.monotonicTimestamp > spanTtl || forceFinish
  }

  /** The table after the marking loop, what it emitted, and the entries it marked, in order. */
  datatype Marking = Marking(open: Index, emitted: seq<Span>, marked: seq<OpenSpan>)

  /** What the marking loop makes of one entry: an expired Start becomes its End copy. */
  function MarkOf(o: OpenSpan, offset: int, spanTtl: int, forceFinish: bool): OpenSpan
  {
    if Expired(o.span, offset, spanTtl, forceFinish) && o.span.lifetime == Start
    then OpenSpan(o.cookie, ToEndSpan(o.span))
    else o
  }

  /**
   * Lines 71-89, from position `i` on: an expired Start is re-indexed as
   * its End copy through `add_span` and the copy is marked; an expired End
   * is marked as it is.
   */
  function MarkExpired(ix: Index, offset: int, spanTtl: int, forceFinish: bool, i: nat): Marking
    requires i <= |ix|
    decreases |ix| - i
  {
    if i == |ix| then Marking(ix, [], [])
    else
      var o := ix[i];
      if !Expired(o.span, offset, spanTtl, forceFinish) then
        MarkExpired(ix, offset, spanTtl, forceFinish, i + 1)
      else if o.span.lifetime == Start then
        var endSpan := ToEndSpan(o.span);
        var eff := AddSpan(ix, endSpan, o.cookie);
        var rest := MarkExpired(eff.open, offset, spanTtl, forceFinish, i + 1);
        Marking(rest.open, eff.emitted + rest.emitted, [OpenSpan(o.cookie, endSpan)] + rest.marked)
      else
        var rest := MarkExpired(ix, offset, spanTtl, forceFinish, i + 1);
        Marking(rest.open, rest.emitted, [o] + rest.marked)
  }

  /** Lines 91-96: each marked entry whose id is still indexed is closed with `remove_span`. */
  function EndMarked(ix: Index, marked: seq<OpenSpan>): Effect
    decreases |marked|
  {
    if marked == [] then Effect(ix, [])
    else
      var m := marked[0];
      var step := CloseMarked(ix, m);
      var rest := EndMarked(step.open, marked[1..]);
      Effect(rest.open, step.emitted + rest.emitted)
  }

  /** Lines 92-95, one marked entry: it is closed with `remove_span` when its id is still indexed. */
  function CloseMarked(ix: Index, m: OpenSpan): Effect
  {
    if Find(ix, ById(m.span.id)).Some? then RemoveSpan(ix, m.span) else Effect(ix, [])
  }

  /** One step of the closing loop, at position `j` of the marked list. */
  lemma EndMarkedStep(ix: Index, marked: seq<OpenSpan>, j: nat)
    requires j < |marked|
    ensures var step := CloseMarked(ix, marked[j]);
      var rest := EndMarked(step.open, marked[j + 1..]);
      EndMarked(ix, marked[j..]) == Effect(rest.open, step.emitted + rest.emitted)
  {
    assert marked[j..][0] == marked[j] && marked[j..][1..] == marked[j + 1..];
  }

  /** `process_open_spans(spans, force_finish)`: mark, then close. */
  function Sweep(ix: Index, offset: int, spanTtl: int, forceFinish: bool): Effect
  {
    var mk := MarkExpired(ix, offset, spanTtl, forceFinish, 0);
    var ended := EndMarked(mk.open, mk.marked);
    Effect(ended.open, mk.emitted + ended.emitted)
  }

  ghost predicate AllEnds(spans: seq<Span>)
  {
    forall k :: 0 <= k < |spans| ==> spans[k].lifetime == End
  }

  ghost predicate NoneExpired(ix: Index, offset: int, spanTtl: int, forceFinish: bool)
  {
    forall k :: 0 <= k < |ix| ==> !Expired(ix[k].span, offset, spanTtl, forceFinish)
  }

  /** The marking loop's table: entries before `i` untouched, every later one as `MarkOf` makes it. */
  ghost predicate MarkedFrom(ix: Index, r: Index, offset: int, spanTtl: int, forceFinish: bool, i: nat)
  {
    && |r| == |ix|
    && forall k :: 0 <= k < |r| ==> r[k] == (if k < i then ix[k] else MarkOf(ix[k], offset, spanTtl, forceFinish))
  }

  /**
   * Under the container's invariant, re-indexing the End copy replaces
   * the entry in place (its cookie and id are its own), so the marking loop
   * emits nothing and rewrites exactly the expired Starts.
   */
  lemma {:induction false} MarkExpiredOpen(ix: Index, offset: int, spanTtl: int, forceFinish: bool, i: nat)
    requires UniqueKeys(ix) && i <= |ix|
    ensures var mk := MarkExpired(ix, offset, spanTtl, forceFinish, i);
      mk.emitted == [] && UniqueKeys(mk.open) && MarkedFrom(ix, mk.open, offset, spanTtl, forceFinish, i)
    decreases |ix| - i
  {
    if i < |ix| {
      var o := ix[i];
      if !Expired(o.span, offset, spanTtl, forceFinish) {
        MarkExpiredOpen(ix, offset, spanTtl, forceFinish, i + 1);
      } else if o.span.lifetime == Start {
        var endSpan := ToEndSpan(o.span);
        var entry := OpenSpan(o.cookie, endSpan);
        AddSpanReplaces(ix, endSpan, o.cookie, i);
        var next := ix[i := entry];
        assert UniqueKeys(next) by {
          forall a, b | 0 <= a < b < |next|
            ensures next[a].cookie != next[b].cookie && next[a].span.id != next[b].span.id
          {
            assert next[a].cookie == ix[a].cookie && next[a].span.id == ix[a].span.id;
            assert next[b].cookie == ix[b].cookie && next[b].span.id == ix[b].span.id;
          }
        }
        MarkExpiredOpen(next, offset, spanTtl, forceFinish, i + 1);
        var rest := MarkExpired(next, offset, spanTtl, forceFinish, i + 1);
        forall k | 0 <= k < |rest.open|
          ensures rest.open[k] == (if k < i then ix[k] else MarkOf(ix[k], offset, spanTtl, forceFinish))
        {
          if k == i {
            assert rest.open[k] == next[i];
          }
        }
      } else {
        MarkExpiredOpen(ix, offset, spanTtl, forceFinish, i + 1);
      }
    }
  }

  /** Every marked entry is in the table, and every expired entry from position `i` on is marked. */
  ghost predicate MarksExpired(mk: Marking, offset: int, spanTtl: int, forceFinish: bool, i: nat)
  {
    && (forall m :: m in mk.marked ==> m in mk.open)
    && (forall k :: i <= k < |mk.open| && Expired(mk.open[k].span, offset, spanTtl, forceFinish) ==> mk.open[k] in mk.marked)
  }

  /**
   * Every entry the loop marks is in the table it leaves, and every
   * expired entry from position `i` on is marked.
   */
  lemma {:induction false} MarkExpiredMarks(ix: Index, offset: int, spanTtl: int, forceFinish: bool, i: nat)
    requires UniqueKeys(ix) && i <= |ix|
    ensures MarksExpired(MarkExpired(ix, offset, spanTtl, forceFinish, i), offset, spanTtl, forceFinish, i)
    decreases |ix| - i
  {
    if i < |ix| {
      var entry := MarkOf(ix[i], offset, spanTtl, forceFinish);
      var next := ix[i := entry];
      MarkExpiredStep(ix, offset, spanTtl, forceFinish, i);
      MarkExpiredMarks(next, offset, spanTtl, forceFinish, i + 1);
      var mk := MarkExpired(ix, offset, spanTtl, forceFinish, i);
      var rest := MarkExpired(next, offset, spanTtl, forceFinish, i + 1);
      forall m | m in mk.marked ensures m in mk.open {
        if m !in rest.marked {
          assert m == entry;
        }
      }
      forall k | i <= k < |mk.open| && Expired(mk.open[k].span, offset, spanTtl, forceFinish)
        ensures mk.open[k] in mk.marked
      {
        if k > i {
          assert mk.open[k] in rest.marked;
        } else {
          assert Expired(ix[i].span, offset, spanTtl, forceFinish);
        }
      }
    }
  }

  /**
   * One step of the marking loop under the container's invariant: the
   * entry at `i` is rewritten in place as `MarkOf` makes it, and is marked
   * exactly when it is expired.
   */
  lemma MarkExpiredStep(ix: Index, offset: int, spanTtl: int, forceFinish: bool, i: nat)
    requires UniqueKeys(ix) && i < |ix|
    ensures var o := ix[i];
      var next := ix[i := MarkOf(o, offset, spanTtl, forceFinish)];
      var mk := MarkExpired(ix, offset, spanTtl, forceFinish, i);
      var rest := MarkExpired(next, offset, spanTtl, forceFinish, i + 1);
      && UniqueKeys(next)
      && mk.open == rest.open && |mk.open| == |ix| && mk.open[i] == next[i]
      && mk.marked == (if Expired(o.span, offset, spanTtl, forceFinish) then [MarkOf(o, offset, spanTtl, forceFinish)] else []) + rest.marked
  {
    var o := ix[i];
    if Expired(o.span, offset, spanTtl, forceFinish) && o.span.lifetime == Start {
      AddSpanReplaces(ix, ToEndSpan(o.span), o.cookie, i);
      AddSpanFacts(ix, ToEndSpan(o.span), o.cookie);
    } else {
      assert ix[i := o] == ix;
    }
    MarkExpiredOpen(ix[i := MarkOf(o, offset, spanTtl, forceFinish)], offset, spanTtl, forceFinish, i + 1);
  }

  /**
   * Under the container's invariant the closing loop keeps it, leaves only
   * old entries, and no marked id is open afterwards; it emits only Ends.
   */
  lemma {:induction false} EndMarkedCloses(ix: Index, marked: seq<OpenSpan>)
    requires UniqueKeys(ix)
    ensures var r := EndMarked(ix, marked);
      && UniqueKeys(r.open) && SubIndex(r.open, ix) && AllEnds(r.emitted)
      && (forall m :: m in marked ==> Find(r.open, ById(m.span.id)).None?)
    decreases |marked|
  {
    if marked != [] {
      var m := marked[0];
      var step := CloseMarked(ix, m);
      if Find(ix, ById(m.span.id)).Some? {
        RemoveChainShrinks(ix, m.span, m.span.monotonicTimestamp, m.span.timestamp);
        RemoveChainUnique(ix, m.span, m.span.monotonicTimestamp, m.span.timestamp);
        RemoveChainEmits(ix, m.span, m.span.monotonicTimestamp, m.span.timestamp);
      }
      assert Find(step.open, ById(m.span.id)).None?;
      EndMarkedCloses(step.open, marked[1..]);
      var rest := EndMarked(step.open, marked[1..]);
      var r := EndMarked(ix, marked);
      forall k | 0 <= k < |r.open| ensures r.open[k] in ix {
        assert r.open[k] in step.open;
      }
      forall n | n in marked ensures Find(r.open, ById(n.span.id)).None? {
        if n != m {
          assert n in marked[1..];
        } else {
          forall k | 0 <= k < |r.open| ensures r.open[k].span.id != m.span.id {
            assert r.open[k] in step.open;
          }
        }
      }
    }
  }

  /**
   * After `process_open_spans`, no entry that is still open has outlived
   * the time-to-live, and everything emitted is an End event.
   */
  lemma SweepLeavesNoExpired(ix: Index, offset: int, spanTtl: int, forceFinish: bool)
    requires UniqueKeys(ix)
    ensures var r := Sweep(ix, offset, spanTtl, forceFinish);
      UniqueKeys(r.open) && NoneExpired(r.open, offset, spanTtl, forceFinish) && AllEnds(r.emitted)
  {
    var mk := MarkExpired(ix, offset, spanTtl, forceFinish, 0);
    MarkExpiredOpen(ix, offset, spanTtl, forceFinish, 0);
    MarkExpiredMarks(ix, offset, spanTtl, forceFinish, 0);
    EndMarkedCloses(mk.open, mk.marked);
    var r := Sweep(ix, offset, spanTtl, forceFinish);
    forall k | 0 <= k < |r.open| ensures !Expired(r.open[k].span, offset, spanTtl, forceFinish) {
      var e := r.open[k];
      assert e in mk.open;
    }
  }

  /** `finish_open_spans`: a forced sweep closes every open span. */
  lemma ForcedSweepEmpties(ix: Index, offset: int, spanTtl: int)
    requires UniqueKeys(ix)
    ensures Sweep(ix, offset, spanTtl, true).open == []
  {
    SweepLeavesNoExpired(ix, offset, spanTtl, true);
    var r := Sweep(ix, offset, spanTtl, true);
    if r.open != [] {
      assert Expired(r.open[0].span, offset, spanTtl, true);
    }
  }

  /** Finishing twice is finishing once: the second forced sweep has nothing left to close or emit. */
  lemma FinishIsIdempotent(ix: Index, offset: int, spanTtl: int, offset': int)
    requires UniqueKeys(ix)
    ensures Sweep(Sweep(ix, offset, spanTtl, true).open, offset', spanTtl, true) == Effect([], [])
  {
    ForcedSweepEmpties(ix, offset, spanTtl);
  }
}
