/**
 * Indexing and closing of open spans: `add_span`, both `remove_span`
 * overloads and `to_end_span` (src/cpp/gauge/span_aggregator.cpp),
 * as functions of the open-span table.
 */
module SpanLifecycle {
  import opened Base
  import opened Wrappers
  import opened SpanIndex

  /** The table after an operation and the spans it appended to the output batch. */
  datatype Effect = Effect(open: Index, emitted: seq<Span>)

  /** `to_end_span`: a copy of the span that differs only in being an End event. */
  function ToEndSpan(s: Span): (e: Span)
    ensures e.lifetime == End
    ensures e.(lifetime := s.lifetime) == s
  {
    s.(lifetime := End)
  }

  /** The End copy that `remove_span` emits: the span's End, stamped with the closing time points. */
  function StampedEnd(s: Span, monotonicTimestamp: int, timestamp: int): (e: Span)
    ensures e.lifetime == End && e.monotonicTimestamp == monotonicTimestamp && e.timestamp == timestamp
    ensures e.id == s.id && e.parentId == s.parentId
  {
    ToEndSpan(s).(timestamp := timestamp, monotonicTimestamp := monotonicTimestamp)
  }

  /** The Start events of a batch, in order. */
  function Starts(spans: seq<Span>): (r: seq<Span>)
    ensures forall k :: 0 <= k < |r| ==> r[k].lifetime == Start
    ensures |r| <= |spans|
  {
    if spans == [] then []
    else (if spans[0].lifetime == Start then [spans[0]] else []) + Starts(spans[1..])
  }

  lemma {:induction false} StartsAppend(a: seq<Span>, b: seq<Span>)
    ensures Starts(a + b) == Starts(a) + Starts(b)
  {
    if a == [] {
      assert a + b == b;
    } else {
      assert (a + b)[1..] == a[1..] + b;
      StartsAppend(a[1..], b);
    }
  }

  lemma {:induction false} StartsOfEnds(spans: seq<Span>)
    requires forall k :: 0 <= k < |spans| ==> spans[k].lifetime == End
    ensures Starts(spans) == []
  {
    if spans != [] {
      StartsOfEnds(spans[1..]);
    }
  }

  /**
   * The five-argument `remove_span`: starting from `current`, emit the
   * End copy of the span (stamped with the initiating span's time points),
   * erase it by id, then continue with some open child of it, until the
   * erased span has no open child. Each step erases one entry, which is why
   * the walk ends.
   */
  function RemoveChain(ix: Index, current: Span, monotonicTimestamp: int, timestamp: int): (r: Effect)
    requires Find(ix, ById(current.id)).Some?
    decreases |ix|
  {
    var ended := StampedEnd(current, monotonicTimestamp, timestamp);
    var rest := EraseById(ix, current.id);
    match Find(rest, ByParentId(current.id))
    case None => Effect(rest, [ended])
    case Some(c) =>
      var more := RemoveChain(rest, rest[c].span, monotonicTimestamp, timestamp);
      Effect(more.open, [ended] + more.emitted)
  }

  /** The three-argument `remove_span`: the chain closes at the span's own time points. */
  function RemoveSpan(ix: Index, span: Span): Effect
    requires Find(ix, ById(span.id)).Some?
  {
    RemoveChain(ix, span, span.monotonicTimestamp, span.timestamp)
  }

  /**
   * One pass of `remove_span`'s loop: the current span's End is emitted and
   * its entry erased; the walk then stops, or goes on from the open child
   * the parent-id lookup finds.
   */
  lemma RemoveChainStep(ix: Index, current: Span, monotonicTimestamp: int, timestamp: int)
    requires Find(ix, ById(current.id)).Some?
    ensures var rest := EraseById(ix, current.id);
      var r := RemoveChain(ix, current, monotonicTimestamp, timestamp);
      var ended := StampedEnd(current, monotonicTimestamp, timestamp);
      match Find(rest, ByParentId(current.id))
      case None => r == Effect(rest, [ended])
      case Some(c) =>
        && Find(rest, ById(rest[c].span.id)).Some?
        && var more := RemoveChain(rest, rest[c].span, monotonicTimestamp, timestamp);
          r == Effect(more.open, [ended] + more.emitted)
  {
  }

  /** `remove_span` erases one entry per span it emits, at least one, and leaves only old entries. */
  lemma {:induction false} RemoveChainShrinks(ix: Index, current: Span, monotonicTimestamp: int, timestamp: int)
    requires Find(ix, ById(current.id)).Some?
    ensures var r := RemoveChain(ix, current, monotonicTimestamp, timestamp);
      1 <= |r.emitted| && |r.emitted| == |ix| - |r.open| && SubIndex(r.open, ix)
    decreases |ix|
  {
    RemoveChainStep(ix, current, monotonicTimestamp, timestamp);
    var rest := EraseById(ix, current.id);
    EraseByIdKeeps(ix, current.id);
    match Find(rest, ByParentId(current.id))
    case None =>
    case Some(c) =>
      RemoveChainShrinks(rest, rest[c].span, monotonicTimestamp, timestamp);
      var more := RemoveChain(rest, rest[c].span, monotonicTimestamp, timestamp);
      var r := RemoveChain(ix, current, monotonicTimestamp, timestamp);
      forall k | 0 <= k < |r.open| ensures r.open[k] in ix {
        assert r.open[k] in rest;
      }
  }

  /** Under the container's invariant `remove_span` keeps it, and the initiating span is no longer open. */
  lemma {:induction false} RemoveChainUnique(ix: Index, current: Span, monotonicTimestamp: int, timestamp: int)
    requires UniqueKeys(ix) && Find(ix, ById(current.id)).Some?
    ensures var r := RemoveChain(ix, current, monotonicTimestamp, timestamp);
      UniqueKeys(r.open) && Find(r.open, ById(current.id)).None?
    decreases |ix|
  {
    var rest := EraseById(ix, current.id);
    EraseByIdUnique(ix, current.id);
    match Find(rest, ByParentId(current.id))
    case None =>
    case Some(c) =>
      RemoveChainUnique(rest, rest[c].span, monotonicTimestamp, timestamp);
      RemoveChainShrinks(rest, rest[c].span, monotonicTimestamp, timestamp);
      var r := RemoveChain(ix, current, monotonicTimestamp, timestamp);
      forall k | 0 <= k < |r.open| ensures r.open[k].span.id != current.id {
        assert r.open[k] in rest;
      }
  }

  /** Every span of `emitted` is an End stamped with the given time points. */
  ghost predicate StampedEnds(emitted: seq<Span>, monotonicTimestamp: int, timestamp: int)
  {
    forall k :: 0 <= k < |emitted| ==>
      emitted[k].lifetime == End && emitted[k].monotonicTimestamp == monotonicTimestamp && emitted[k].timestamp == timestamp
  }

  /** Each span of `emitted` after the first is a child of the one before it. */
  ghost predicate ParentChain(emitted: seq<Span>)
  {
    forall k :: 1 <= k < |emitted| ==> emitted[k].parentId == emitted[k - 1].id
  }

  /**
   * What `remove_span` emits: one End per erased entry, all stamped with
   * the initiating span's time points, the first for the initiating span
   * and each later one for a child of the span ended just before it.
   */
  lemma {:induction false} RemoveChainEmits(ix: Index, current: Span, monotonicTimestamp: int, timestamp: int)
    requires Find(ix, ById(current.id)).Some?
    ensures var r := RemoveChain(ix, current, monotonicTimestamp, timestamp);
      && |r.emitted| >= 1
      && r.emitted[0] == StampedEnd(current, monotonicTimestamp, timestamp)
      && StampedEnds(r.emitted, monotonicTimestamp, timestamp)
      && ParentChain(r.emitted)
    decreases |ix|
  {
    RemoveChainStep(ix, current, monotonicTimestamp, timestamp);
    var rest := EraseById(ix, current.id);
    var ended := StampedEnd(current, monotonicTimestamp, timestamp);
    match Find(rest, ByParentId(current.id))
    case None =>
      EndsChainCons(ended, [], monotonicTimestamp, timestamp);
      assert [ended] + [] == [ended];
    case Some(c) =>
      var child := rest[c].span;
      RemoveChainEmits(rest, child, monotonicTimestamp, timestamp);
      var more := RemoveChain(rest, child, monotonicTimestamp, timestamp);
      EndsChainCons(ended, more.emitted, monotonicTimestamp, timestamp);
  }

  /** Prefixing the End of the parent of the first span keeps a stamped chain of Ends. */
  lemma EndsChainCons(head: Span, more: seq<Span>, monotonicTimestamp: int, timestamp: int)
    requires head.lifetime == End && head.monotonicTimestamp == monotonicTimestamp && head.timestamp == timestamp
    requires more != [] ==> more[0].parentId == head.id
    requires StampedEnds(more, monotonicTimestamp, timestamp) && ParentChain(more)
    ensures StampedEnds([head] + more, monotonicTimestamp, timestamp) && ParentChain([head] + more)
  {
    var all := [head] + more;
    forall k | 1 <= k < |all| ensures all[k].parentId == all[k - 1].id {
      if k > 1 {
        assert all[k] == more[k - 1] && all[k - 1] == more[k - 2];
      }
    }
  }

  /** Every span of `emitted` from position `from` on is the stamped End of an entry of `ix`. */
  ghost predicate EndsOfEntries(emitted: seq<Span>, from: nat, ix: Index, monotonicTimestamp: int, timestamp: int)
  {
    forall k :: from <= k < |emitted| ==>
      exists e :: e in ix && emitted[k] == StampedEnd(e.span, monotonicTimestamp, timestamp)
  }

  /** Prefixing one span keeps the later spans Ends of entries, as long as the entries are kept. */
  lemma EndsOfEntriesCons(ix: Index, rest: Index, entry: OpenSpan, head: Span, more: seq<Span>, monotonicTimestamp: int, timestamp: int)
    requires SubIndex(rest, ix) && entry in rest
    requires more != [] && more[0] == StampedEnd(entry.span, monotonicTimestamp, timestamp)
    requires EndsOfEntries(more, 1, rest, monotonicTimestamp, timestamp)
    ensures EndsOfEntries([head] + more, 1, ix, monotonicTimestamp, timestamp)
  {
    forall k | 1 <= k < |[head] + more|
      ensures exists e :: e in ix && ([head] + more)[k] == StampedEnd(e.span, monotonicTimestamp, timestamp)
    {
      if k == 1 {
        assert entry in ix;
      } else {
        var e :| e in rest && more[k - 1] == StampedEnd(e.span, monotonicTimestamp, timestamp);
        assert e in ix;
      }
    }
  }

  /** Every span `remove_span` emits is the stamped End of an entry of the table it started from. */
  lemma {:induction false} RemoveChainEmitsEntries(ix: Index, current: Span, monotonicTimestamp: int, timestamp: int)
    requires Find(ix, ById(current.id)).Some?
    ensures EndsOfEntries(RemoveChain(ix, current, monotonicTimestamp, timestamp).emitted, 1, ix, monotonicTimestamp, timestamp)
    decreases |ix|
  {
    RemoveChainStep(ix, current, monotonicTimestamp, timestamp);
    var rest := EraseById(ix, current.id);
    EraseByIdKeeps(ix, current.id);
    match Find(rest, ByParentId(current.id))
    case None =>
    case Some(c) =>
      var child := rest[c].span;
      RemoveChainEmitsEntries(rest, child, monotonicTimestamp, timestamp);
      RemoveChainStep(rest, child, monotonicTimestamp, timestamp);
      var more := RemoveChain(rest, child, monotonicTimestamp, timestamp);
      EndsOfEntriesCons(ix, rest, rest[c], StampedEnd(current, monotonicTimestamp, timestamp), more.emitted, monotonicTimestamp, timestamp);
  }

  /**
   * Lines 242-256 of `add_span`: some open entry with the same parent id,
   * if it belongs to the same process and thread, is a sibling that the
   * new span displaces; it is closed together with its chain of children.
   */
  function CloseSibling(ix: Index, span: Span): Effect
  {
    match Find(ix, ByParentId(span.parentId))
    case None => Effect(ix, [])
    case Some(j) =>
      var sibling := ix[j].span;
      if sibling.processId == span.processId && sibling.threadId == span.threadId then
        RemoveSpan(ix, sibling)
      else Effect(ix, [])
  }

  /** Closing a sibling leaves only old entries, keeps the invariant, and emits only End events. */
  lemma CloseSiblingFacts(ix: Index, span: Span)
    ensures var r := CloseSibling(ix, span);
      && SubIndex(r.open, ix)
      && (UniqueKeys(ix) ==> UniqueKeys(r.open))
      && (forall k :: 0 <= k < |r.emitted| ==> r.emitted[k].lifetime == End)
  {
    match Find(ix, ByParentId(span.parentId))
    case None =>
    case Some(j) =>
      var sibling := ix[j].span;
      if sibling.processId == span.processId && sibling.threadId == span.threadId {
        RemoveChainShrinks(ix, sibling, sibling.monotonicTimestamp, sibling.timestamp);
        RemoveChainEmits(ix, sibling, sibling.monotonicTimestamp, sibling.timestamp);
        if UniqueKeys(ix) {
          RemoveChainUnique(ix, sibling, sibling.monotonicTimestamp, sibling.timestamp);
        }
      }
  }

  /**
   * `add_span(span, cookie, spans)`. A span whose id is already indexed
   * replaces that entry and emits nothing; otherwise a displaced sibling is
   * closed, the span is inserted, and it is emitted only if it is a Start.
   * The span itself is stored as given.
   */
  function AddSpan(ix: Index, span: Span, cookie: U64): Effect
  {
    match Find(ix, ById(span.id))
    case Some(i) => Effect(Replace(ix, i, OpenSpan(cookie, span)), [])
    case None =>
      var cleared := CloseSibling(ix, span);
      Effect(Emplace(cleared.open, OpenSpan(cookie, span)),
             cleared.emitted + (if span.lifetime == Start then [span] else []))
  }

  /**
   * `add_span` stores nothing but old entries and the new one; it keeps the
   * container's invariant; re-indexing an open id changes no size and emits nothing.
   */
  lemma AddSpanFacts(ix: Index, span: Span, cookie: U64)
    ensures var r := AddSpan(ix, span, cookie);
      && SubIndex(r.open, ix + [OpenSpan(cookie, span)])
      && (UniqueKeys(ix) ==> UniqueKeys(r.open))
      && (Find(ix, ById(span.id)).Some? ==> r.emitted == [] && |r.open| == |ix|)
  {
    var o := OpenSpan(cookie, span);
    var r := AddSpan(ix, span, cookie);
    match Find(ix, ById(span.id))
    case Some(i) =>
      ReplaceFacts(ix, i, o);
      forall k | 0 <= k < |r.open| ensures r.open[k] in ix + [o] {
        if r.open[k] in ix {
          assert r.open[k] in ix + [o];
        }
      }
    case None =>
      var cleared := CloseSibling(ix, span);
      CloseSiblingFacts(ix, span);
      EmplaceFacts(cleared.open, o);
      forall k | 0 <= k < |r.open| ensures r.open[k] in ix + [o] {
        if k < |cleared.open| {
          assert r.open[k] == cleared.open[k];
          assert r.open[k] in ix;
        }
      }
  }

  /**
   * Lines 233-240: re-indexing an open span's id with its own cookie
   * replaces that entry in place, and nothing is emitted.
   */
  lemma AddSpanReplaces(ix: Index, span: Span, cookie: U64, i: nat)
    requires UniqueKeys(ix) && i < |ix|
    requires ix[i].span.id == span.id && ix[i].cookie == cookie
    ensures AddSpan(ix, span, cookie) == Effect(ix[i := OpenSpan(cookie, span)], [])
  {
    FindUnique(ix, i);
    assert !Clashes(ix, i, OpenSpan(cookie, span));
  }

  /**
   * Lines 242-267: a span whose id and cookie are both new is closed-over
   * sibling first, then stored as the last entry, and it is the only Start
   * emitted, and only when it is a Start; everything else emitted is an End.
   */
  lemma AddSpanInserts(ix: Index, span: Span, cookie: U64)
    requires UniqueKeys(ix)
    requires Find(ix, ById(span.id)).None? && Find(ix, ByCookie(cookie)).None?
    ensures var r := AddSpan(ix, span, cookie);
      && |r.open| >= 1 && r.open[|r.open| - 1] == OpenSpan(cookie, span)
      && r.open[..|r.open| - 1] == CloseSibling(ix, span).open
      && Starts(r.emitted) == (if span.lifetime == Start then [span] else [])
  {
    var cleared := CloseSibling(ix, span);
    CloseSiblingFacts(ix, span);
    EmplaceFacts(cleared.open, OpenSpan(cookie, span));
    assert !Clashes(cleared.open, |cleared.open|, OpenSpan(cookie, span)) by {
      forall j | 0 <= j < |cleared.open|
        ensures cleared.open[j].cookie != cookie && cleared.open[j].span.id != span.id
      {
        var p :| 0 <= p < |ix| && ix[p] == cleared.open[j];
        assert !Matches(ix[p], ById(span.id)) && !Matches(ix[p], ByCookie(cookie));
      }
    }
    AddSpanStarts(ix, span, cookie);
  }

  /**
   * Only a span that was not indexed yet, and only a Start, reaches the
   * output as a Start event; every other span `add_span` emits is an End.
   */
  lemma AddSpanStarts(ix: Index, span: Span, cookie: U64)
    ensures Starts(AddSpan(ix, span, cookie).emitted)
         == (if Find(ix, ById(span.id)).None? && span.lifetime == Start then [span] else [])
  {
    if Find(ix, ById(span.id)).None? {
      var cleared := CloseSibling(ix, span);
      CloseSiblingFacts(ix, span);
      StartsOfEnds(cleared.emitted);
      StartsAppend(cleared.emitted, if span.lifetime == Start then [span] else []);
    }
  }

  /**
   * Lines 244-256: a sibling under the same parent, of the same process
   * and thread, found by the parent-id lookup, is no longer open afterwards.
   */
  lemma AddSpanClosesSibling(ix: Index, span: Span, cookie: U64, j: nat)
    requires UniqueKeys(ix)
    requires Find(ix, ById(span.id)).None?
    requires Find(ix, ByParentId(span.parentId)) == Some(j)
    requires ix[j].span.processId == span.processId && ix[j].span.threadId == span.threadId
    ensures Find(AddSpan(ix, span, cookie).open, ById(ix[j].span.id)).None?
  {
    var sibling := ix[j].span;
    var cleared := CloseSibling(ix, span);
    RemoveChainUnique(ix, sibling, sibling.monotonicTimestamp, sibling.timestamp);
    assert Find(cleared.open, ById(sibling.id)).None?;
    EmplaceFacts(cleared.open, OpenSpan(cookie, span));
    var r := AddSpan(ix, span, cookie);
    forall k | 0 <= k < |r.open| ensures r.open[k].span.id != ix[j].span.id {
      if r.open[k] !in cleared.open {
        assert r.open[k] == OpenSpan(cookie, span);
      }
    }
  }
}
