/**
 * `OpenTracingExporter` (src/py/gauge/exporters/opentracing_exporter.py):
 * the bookkeeping that turns the aggregator's Start/End spans into calls on
 * an OpenTracing tracer. The tracer is opaque; the model records every call
 * made to it, in order, and a tracer span is the position of the call that
 * started it.
 */
module TracingExport {
  import opened Wrappers
  import opened Base
  import opened Expiring

  /** The tags attached to every started tracer span. */
  datatype Tags = Tags(
    hostname: string,
    processId: U64,
    threadId: U64,
    fileName: string,
    lineNumber: int,
    isCoroutine: bool,
    isGenerator: bool)

  /**
   * A call on the tracer. `childOf` is the parent's tracer span, `None` for
   * a top span or a parent that was stripped; `handle` is the position of the
   * `StartSpanCall` that created the finished span.
   */
  datatype TracerCall =
    | StartSpanCall(operationName: string, startTime: int, ignoreActiveSpan: bool, childOf: Option<nat>, tags: Tags)
    | FinishCall(handle: nat, finishTime: int)

  /** One `__span_by_id` entry: the Start span, its tracer span, whether it was stripped. */
  datatype Record = Record(span: Span, otSpan: Option<nat>, stripped: bool)

  /** A `__strip_levels` key; `None` is the wildcard. */
  datatype StripKey = StripKey(processId: Option<U64>, threadId: Option<U64>)

  type SpanTable = map<Ident, Record>

  /** The exporter's state as a value: the two tables and the tracer's call log. */
  datatype Books = Books(spanById: SpanTable, stripLevels: map<StripKey, int>, calls: seq<TracerCall>)

  /**
   * Every entry is stored under its span's id; its tracer span is absent
   * exactly when it was stripped, and otherwise names a start call.
   */
  ghost predicate WellFormed(b: Books)
  {
    forall id | id in b.spanById ::
      && b.spanById[id].span.id == id
      && (b.spanById[id].otSpan.None? <==> b.spanById[id].stripped)
      && (b.spanById[id].otSpan.Some? ==>
            b.spanById[id].otSpan.value < |b.calls| && b.calls[b.spanById[id].otSpan.value].StartSpanCall?)
  }

  /** `strip_levels`: a zero count deletes the key if present, any other count sets it. */
  function LevelsAfter(levels: map<StripKey, int>, count: int, key: StripKey): map<StripKey, int>
  {
    if count == 0 then levels - {key} else levels[key := count]
  }

  /**
   * `__get_ancestor_spans`: the recorded parent, grandparent, ... of `span`,
   * stopping at a top span or at a parent id missing from the table. `fuel`
   * bounds the walk (the source has no bound).
   */
  function Ancestors(table: SpanTable, span: Span, fuel: nat): seq<Record>
    decreases fuel
  {
    if fuel == 0 || span.isTop || span.parentId !in table then []
    else [table[span.parentId]] + Ancestors(table, table[span.parentId].span, fuel - 1)
  }

  /** The walk with one step per recorded entry. */
  function KnownAncestors(table: SpanTable, span: Span): seq<Record>
  {
    Ancestors(table, span, |table|)
  }

  /** The span whose parent is looked up at step `k` of the walk. */
  function Child(span: Span, walk: seq<Record>, k: nat): Span
    requires k <= |walk|
  {
    if k == 0 then span else walk[k - 1].span
  }

  /** The walk never takes more steps than its fuel. */
  lemma {:induction false} AncestorsBounded(table: SpanTable, span: Span, fuel: nat)
    ensures |Ancestors(table, span, fuel)| <= fuel
    decreases fuel
  {
    if !(fuel == 0 || span.isTop || span.parentId !in table) {
      AncestorsBounded(table, table[span.parentId].span, fuel - 1);
    }
  }

  /** Each step of `walk` is the recorded entry of the previous span's parent id. */
  ghost predicate Linked(table: SpanTable, span: Span, walk: seq<Record>)
  {
    forall k | 0 <= k < |walk| ::
      && !Child(span, walk, k).isTop
      && Child(span, walk, k).parentId in table
      && walk[k] == table[Child(span, walk, k).parentId]
  }

  /** The walk follows the parent links of the table. */
  lemma {:induction false} AncestorsLinked(table: SpanTable, span: Span, fuel: nat)
    ensures Linked(table, span, Ancestors(table, span, fuel))
    decreases fuel
  {
    if !(fuel == 0 || span.isTop || span.parentId !in table) {
      var parent := table[span.parentId];
      var rest := Ancestors(table, parent.span, fuel - 1);
      AncestorsLinked(table, parent.span, fuel - 1);
      var walk := Ancestors(table, span, fuel);
      assert walk == [parent] + rest;
      forall k | 0 < k < |walk|
        ensures && !Child(span, walk, k).isTop
                && Child(span, walk, k).parentId in table
                && walk[k] == table[Child(span, walk, k).parentId]
      {
        assert Child(span, walk, k) == Child(parent.span, rest, k - 1);
        assert walk[k] == rest[k - 1];
      }
    }
  }

  /** Short of its fuel, the walk ends exactly at a top span or at an unrecorded parent id. */
  lemma {:induction false} AncestorsStop(table: SpanTable, span: Span, fuel: nat)
    ensures var walk := Ancestors(table, span, fuel);
      |walk| < fuel ==> Child(span, walk, |walk|).isTop || Child(span, walk, |walk|).parentId !in table
    decreases fuel
  {
    if !(fuel == 0 || span.isTop || span.parentId !in table) {
      var parent := table[span.parentId];
      var rest := Ancestors(table, parent.span, fuel - 1);
      AncestorsStop(table, parent.span, fuel - 1);
      var walk := Ancestors(table, span, fuel);
      assert walk == [parent] + rest;
      assert Child(span, walk, |walk|) == Child(parent.span, rest, |rest|);
    }
  }

  /** The parent ids looked up by the walk, from the span itself to the span after its last step. */
  function Lookups(span: Span, walk: seq<Record>): (ids: seq<Ident>)
    ensures |ids| == |walk| + 1
    ensures forall k :: 0 <= k <= |walk| ==> ids[k] == Child(span, walk, k).parentId
  {
    seq(|walk| + 1, k requires 0 <= k <= |walk| => Child(span, walk, k).parentId)
  }

  /** A sequence without repetitions has as many distinct elements as positions. */
  lemma {:induction false} DistinctCard(s: seq<Ident>)
    requires forall i, j :: 0 <= i < j < |s| ==> s[i] != s[j]
    ensures |set x | x in s| == |s|
  {
    if s != [] {
      var init := s[..|s| - 1];
      DistinctCard(init);
      assert (set x | x in s) == (set x | x in init) + {s[|s| - 1]};
      assert s[|s| - 1] !in (set x | x in init);
    }
  }

  /**
   * The bound on the walk only matters on a cyclic table: a walk that has
   * taken one step per recorded entry and could still take another has
   * looked up the same parent id twice. So on a table whose parent links
   * have no cycle, `KnownAncestors` is the whole unbounded walk.
   */
  lemma FullWalkRepeats(table: SpanTable, span: Span)
    ensures var walk := KnownAncestors(table, span);
      |walk| == |table| && !Child(span, walk, |walk|).isTop && Child(span, walk, |walk|).parentId in table
      ==> exists i, j :: 0 <= i < j < |Lookups(span, walk)| && Lookups(span, walk)[i] == Lookups(span, walk)[j]
  {
    var walk := KnownAncestors(table, span);
    if |walk| == |table| && !Child(span, walk, |walk|).isTop && Child(span, walk, |walk|).parentId in table {
      AncestorsLinked(table, span, |table|);
      var ids := Lookups(span, walk);
      var seen := set x | x in ids;
      assert seen <= table.Keys;
      SubsetCard(seen, table.Keys);
      if forall i, j :: 0 <= i < j < |ids| ==> ids[i] != ids[j] {
        DistinctCard(ids);
        assert false;
      }
    }
  }

  /** The four keys `__should_strip` tries, most specific first. */
  function StripKeys(span: Span): seq<StripKey>
  {
    [ StripKey(Some(span.processId), Some(span.threadId)),
      StripKey(Some(span.processId), None),
      StripKey(None, Some(span.threadId)),
      StripKey(None, None) ]
  }

  /** The loop of `__should_strip`: some present key asks for at least `depth` levels. */
  function Covers(levels: map<StripKey, int>, keys: seq<StripKey>, depth: int): (r: bool)
    ensures r <==> exists i :: 0 <= i < |keys| && keys[i] in levels && depth <= levels[keys[i]]
    decreases |keys|
  {
    if keys == [] then false
    else if keys[0] in levels && depth <= levels[keys[0]] then true
    else
      assert forall i :: 1 <= i < |keys| ==> keys[i] == keys[1..][i - 1];
      Covers(levels, keys[1..], depth)
  }

  /**
   * `__should_strip`: a span is stripped when one of its four keys asks for
   * at least as many levels as the span is deep (its known ancestors plus one).
   */
  function ShouldStrip(levels: map<StripKey, int>, table: SpanTable, span: Span): (r: bool)
    ensures r <==> exists key :: key in StripKeys(span) && key in levels && |KnownAncestors(table, span)| + 1 <= levels[key]
  {
    var keys := StripKeys(span);
    var r := Covers(levels, keys, |KnownAncestors(table, span)| + 1);
    assert forall key :: key in keys <==> exists i :: 0 <= i < |keys| && keys[i] == key;
    r
  }

  /** The loop of `__is_top`: true unless some record was not stripped. */
  function AllStripped(records: seq<Record>): (r: bool)
    ensures r <==> forall k :: 0 <= k < |records| ==> records[k].stripped
    decreases |records|
  {
    if records == [] then true
    else if !records[0].stripped then false
    else
      assert forall k :: 1 <= k < |records| ==> records[k] == records[1..][k - 1];
      AllStripped(records[1..])
  }

  /** `__is_top`: every known ancestor of the span is stripped. */
  function IsTop(table: SpanTable, span: Span): bool
  {
    AllStripped(KnownAncestors(table, span))
  }

  function TagsOf(span: Span): Tags
  {
    Tags(span.hostname, span.processId, span.threadId, span.fileName, span.lineNumber, span.isCoroutine, span.isGenerator)
  }

  /**
   * `__start_span`: a duplicate id and a non-top span with an unrecorded
   * parent change nothing; otherwise the span is recorded with its strip flag
   * and, unless stripped, started on the tracer as a child of its parent's
   * tracer span.
   */
  function StartOf(b: Books, ignoreActiveSpan: bool, span: Span): Books
  {
    if span.id in b.spanById then b
    else if !span.isTop && span.parentId !in b.spanById then b
    else
      var childOf := if span.isTop then None else b.spanById[span.parentId].otSpan;
      var strip := ShouldStrip(b.stripLevels, b.spanById, span);
      var call := StartSpanCall(span.symbolicName, span.timestamp, ignoreActiveSpan && IsTop(b.spanById, span), childOf, TagsOf(span));
      if strip then b.(spanById := b.spanById[span.id := Record(span, None, true)])
      else b.(spanById := b.spanById[span.id := Record(span, Some(|b.calls|), false)], calls := b.calls + [call])
  }

  /**
   * `__end_span`: an unrecorded id changes nothing; otherwise the entry is
   * removed and, unless it was stripped, its tracer span is finished at the
   * End span's timestamp.
   */
  function EndOf(b: Books, span: Span): Books
  {
    if span.id !in b.spanById then b
    else
      var r := b.spanById[span.id];
      var removed := b.(spanById := b.spanById - {span.id});
      if r.stripped || r.otSpan.None? then removed
      else removed.(calls := removed.calls + [FinishCall(r.otSpan.value, span.timestamp)])
  }

  /** One span of a batch, by its lifetime. */
  function ExportOne(b: Books, ignoreActiveSpan: bool, span: Span): Books
  {
    if span.lifetime == Start then StartOf(b, ignoreActiveSpan, span) else EndOf(b, span)
  }

  /** `__call__`: the spans of a batch in order. */
  function ExportAll(b: Books, ignoreActiveSpan: bool, spans: seq<Span>): Books
    decreases |spans|
  {
    if spans == [] then b else ExportAll(ExportOne(b, ignoreActiveSpan, spans[0]), ignoreActiveSpan, spans[1..])
  }

  /** Starting a span keeps the tables well formed, records its strip flag and only appends to the call log. */
  lemma StartKeepsWellFormed(b: Books, ignoreActiveSpan: bool, span: Span)
    requires WellFormed(b)
    ensures var a := StartOf(b, ignoreActiveSpan, span);
      && WellFormed(a)
      && b.calls <= a.calls
      && (span.id !in b.spanById && (span.isTop || span.parentId in b.spanById) ==>
            span.id in a.spanById && a.spanById[span.id].stripped == ShouldStrip(b.stripLevels, b.spanById, span))
  {
    var a := StartOf(b, ignoreActiveSpan, span);
    forall id | id in a.spanById
      ensures a.spanById[id].span.id == id
      ensures a.spanById[id].otSpan.None? <==> a.spanById[id].stripped
      ensures a.spanById[id].otSpan.Some? ==>
        a.spanById[id].otSpan.value < |a.calls| && a.calls[a.spanById[id].otSpan.value].StartSpanCall?
    {
      if id != span.id || id in b.spanById {
        assert a.spanById[id] == b.spanById[id];
        var r := b.spanById[id];
        if r.otSpan.Some? {
          assert a.calls[r.otSpan.value] == b.calls[r.otSpan.value];
        }
      }
    }
  }

  /** Ending a span keeps the tables well formed, forgets its id and only appends to the call log. */
  lemma EndKeepsWellFormed(b: Books, span: Span)
    requires WellFormed(b)
    ensures var a := EndOf(b, span);
      && WellFormed(a)
      && b.calls <= a.calls
      && span.id !in a.spanById
      && (forall id | id in a.spanById :: id in b.spanById && a.spanById[id] == b.spanById[id])
  {
    var a := EndOf(b, span);
    forall id | id in a.spanById
      ensures a.spanById[id].otSpan.Some? ==>
        a.spanById[id].otSpan.value < |a.calls| && a.calls[a.spanById[id].otSpan.value].StartSpanCall?
    {
      var r := a.spanById[id];
      if r.otSpan.Some? {
        assert a.calls[r.otSpan.value] == b.calls[r.otSpan.value];
      }
    }
  }

  /** A whole batch keeps the tables well formed and only appends to the call log. */
  lemma {:induction false} ExportKeepsWellFormed(b: Books, ignoreActiveSpan: bool, spans: seq<Span>)
    requires WellFormed(b)
    ensures WellFormed(ExportAll(b, ignoreActiveSpan, spans))
    ensures b.calls <= ExportAll(b, ignoreActiveSpan, spans).calls
    decreases |spans|
  {
    if spans != [] {
      var next := ExportOne(b, ignoreActiveSpan, spans[0]);
      if spans[0].lifetime == Start {
        StartKeepsWellFormed(b, ignoreActiveSpan, spans[0]);
      } else {
        EndKeepsWellFormed(b, spans[0]);
      }
      ExportKeepsWellFormed(next, ignoreActiveSpan, spans[1..]);
    }
  }

  /**
   * A span that is started and then ended leaves the span table as it was;
   * unless stripped, the tracer sees exactly its start and then a finish of
   * that very tracer span.
   */
  lemma StartThenEnd(b: Books, ignoreActiveSpan: bool, span: Span, end: Span)
    requires span.id !in b.spanById && (span.isTop || span.parentId in b.spanById)
    requires end.id == span.id
    ensures var a := EndOf(StartOf(b, ignoreActiveSpan, span), end);
      && a.spanById == b.spanById
      && a.stripLevels == b.stripLevels
      && (ShouldStrip(b.stripLevels, b.spanById, span) ==> a.calls == b.calls)
      && (!ShouldStrip(b.stripLevels, b.spanById, span) ==>
            |a.calls| == |b.calls| + 2 && a.calls[..|b.calls|] == b.calls
            && a.calls[|b.calls|].StartSpanCall? && a.calls[|b.calls|].operationName == span.symbolicName
            && a.calls[|b.calls| + 1] == FinishCall(|b.calls|, end.timestamp))
  {
    var s := StartOf(b, ignoreActiveSpan, span);
    assert s.spanById - {span.id} == b.spanById;
  }

  /**
   * A Start changes nothing exactly when its id is already recorded or it is
   * not top and its parent is not recorded.
   */
  lemma StartIgnored(b: Books, ignoreActiveSpan: bool, span: Span)
    ensures StartOf(b, ignoreActiveSpan, span) == b
        <==> span.id in b.spanById || (!span.isTop && span.parentId !in b.spanById)
  {
    if !(span.id in b.spanById || (!span.isTop && span.parentId !in b.spanById)) {
      assert span.id in StartOf(b, ignoreActiveSpan, span).spanById;
    }
  }

  /**
   * An End changes nothing exactly when its id is not recorded; a stripped
   * entry is forgotten without any call on the tracer.
   */
  lemma EndCases(b: Books, span: Span)
    ensures EndOf(b, span) == b <==> span.id !in b.spanById
    ensures span.id in b.spanById && b.spanById[span.id].stripped ==>
              EndOf(b, span) == b.(spanById := b.spanById - {span.id})
  {
    if span.id in b.spanById {
      assert span.id !in EndOf(b, span).spanById;
    }
  }

  /** A positive count on a span's own (pid, tid) key strips every span at most that deep. */
  lemma StripOwnKey(levels: map<StripKey, int>, table: SpanTable, span: Span, count: int)
    requires count != 0
    ensures var after := LevelsAfter(levels, count, StripKey(Some(span.processId), Some(span.threadId)));
      |KnownAncestors(table, span)| + 1 <= count ==> ShouldStrip(after, table, span)
  {
    var key := StripKey(Some(span.processId), Some(span.threadId));
    assert key in StripKeys(span);
  }

  /** With no strip levels nothing is stripped. */
  lemma NoLevelsNoStrip(table: SpanTable, span: Span)
    ensures !ShouldStrip(map[], table, span)
  {
  }

  class OpenTracingExporter {
    /** `__span_by_id`. */
    var spanById: SpanTable
    /** `__strip_levels`. */
    var stripLevels: map<StripKey, int>
    /** Every call made on the tracer, in order. */
    var calls: seq<TracerCall>
    /** `__ignore_active_span`. */
    const ignoreActiveSpan: bool

    constructor(ignoreActiveSpan: bool)
      ensures spanById == map[] && stripLevels == map[] && calls == []
      ensures this.ignoreActiveSpan == ignoreActiveSpan
    {
      spanById := map[];
      stripLevels := map[];
      calls := [];
      this.ignoreActiveSpan := ignoreActiveSpan;
    }

    function State(): Books
      reads this
    {
      Books(spanById, stripLevels, calls)
    }

    ghost predicate Valid()
      reads this
    {
      WellFormed(State())
    }

    /** `strip_levels`; a missing key under a zero count is ignored. */
    method StripLevels(count: int, processId: Option<U64>, threadId: Option<U64>)
      modifies this`stripLevels
      ensures stripLevels == LevelsAfter(old(stripLevels), count, StripKey(processId, threadId))
    {
      var key := StripKey(processId, threadId);
      if count == 0 {
        if key in stripLevels {
          stripLevels := stripLevels - {key};
        }
        return;
      }
      stripLevels := stripLevels[key := count];
    }

    /** `__start_span`. */
    method StartSpan(span: Span)
      modifies this`spanById, this`calls
      ensures State() == StartOf(old(State()), ignoreActiveSpan, span)
    {
      if span.id in spanById {
        return;
      }
      var ignore := ignoreActiveSpan && IsTop(spanById, span);
      var childOf: Option<nat> := None;
      if !span.isTop {
        if span.parentId !in spanById {
          return;
        }
        childOf := spanById[span.parentId].otSpan;
      }
      var strip := ShouldStrip(stripLevels, spanById, span);
      var otSpan: Option<nat> := None;
      if !strip {
        otSpan := Some(|calls|);
        calls := calls + [StartSpanCall(span.symbolicName, span.timestamp, ignore, childOf, TagsOf(span))];
      }
      spanById := spanById[span.id := Record(span, otSpan, strip)];
    }

    /** `__get_span_by_id`: the entry, removed when asked, or KeyError. */
    method GetSpanById(id: Ident, remove: bool) returns (r: Result<Record, KeyError>)
      modifies this`spanById
      ensures id in old(spanById) ==> r == Success(old(spanById)[id])
      ensures id !in old(spanById) ==> r == Failure(KeyError)
      ensures spanById == if remove then old(spanById) - {id} else old(spanById)
    {
      if id !in spanById {
        return Failure(KeyError);
      }
      r := Success(spanById[id]);
      if remove {
        spanById := spanById - {id};
      }
    }

    /** `__end_span`. */
    method EndSpan(span: Span)
      modifies this`spanById, this`calls
      ensures State() == EndOf(old(State()), span)
    {
      var found := GetSpanById(span.id, true);
      if found.Failure? {
        return;
      }
      var r := found.value;
      if r.stripped || r.otSpan.None? {
        return;
      }
      calls := calls + [FinishCall(r.otSpan.value, span.timestamp)];
    }

    /** `__call__`: each span of the batch in order, by its lifetime. */
    method Export(spans: seq<Span>)
      modifies this`spanById, this`calls
      ensures State() == ExportAll(old(State()), ignoreActiveSpan, spans)
      ensures old(Valid()) ==> Valid()
    {
      if Valid() {
        ExportKeepsWellFormed(State(), ignoreActiveSpan, spans);
      }
      for i := 0 to |spans|
        invariant ExportAll(State(), ignoreActiveSpan, spans[i..]) == ExportAll(old(State()), ignoreActiveSpan, spans)
      {
        assert spans[i..][0] == spans[i] && spans[i..][1..] == spans[i + 1..];
        if spans[i].lifetime == Start {
          StartSpan(spans[i]);
        } else {
          EndSpan(spans[i]);
        }
      }
    }
  }
}
