/**
 * Ordering of an emitted batch and its dispatch to subscribers:
 * `sort_spans`, `subscribe` and `execute_callbacks`
 * (src/cpp/gauge/span_aggregator.cpp:22-57, 156-196, 211-221).
 *
 * The comparator of `sort_spans` is not a strict weak order, so the
 * result of `std::stable_sort` is pinned down by nothing but being a
 * rearrangement of its input; the model sorts by stable insertion with the
 * same comparator.
 */
module SpanOrdering {
  import opened Base

  /** Lines 161-181: the comparator, branch by branch. */
  predicate Precedes(a: Span, b: Span)
  {
    if a.id == b.parentId && a.lifetime == Start && b.lifetime == Start then true
    else if a.parentId == b.id && a.lifetime == End && b.lifetime == End then true
    else if a.lifetime == Start && b.lifetime == End && a.id == b.id then true
    else a.monotonicTimestamp < b.monotonicTimestamp
  }

  /**
   * Insert `x` into `s` in front of the first element it precedes; an
   * element that precedes nothing in `s` goes last, after its equals.
   */
  function Insert(x: Span, s: seq<Span>): (r: seq<Span>)
    ensures multiset(r) == multiset(s) + multiset{x}
    ensures |r| == |s| + 1
  {
    if s == [] then [x]
    else if Precedes(x, s[0]) then [x] + s
    else
      assert s == [s[0]] + s[1..];
      [s[0]] + Insert(x, s[1..])
  }

  /** `sort_spans`: stable insertion sort by `Precedes`; the result is a permutation of the batch. */
  function SortSpans(s: seq<Span>): (r: seq<Span>)
    ensures multiset(r) == multiset(s)
    ensures |r| == |s|
  {
    if s == [] then []
    else
      assert s == s[..|s| - 1] + [s[|s| - 1]];
      Insert(s[|s| - 1], SortSpans(s[..|s| - 1]))
  }

  /** No element precedes one that comes before it. */
  ghost predicate InOrder(s: seq<Span>)
  {
    forall i, j :: 0 <= i < j < |s| ==> !Precedes(s[j], s[i])
  }

  /** An element that precedes nothing in `s` is appended. */
  lemma {:induction false} InsertLast(x: Span, s: seq<Span>)
    requires forall k :: 0 <= k < |s| ==> !Precedes(x, s[k])
    ensures Insert(x, s) == s + [x]
  {
    if s != [] {
      InsertLast(x, s[1..]);
      assert s == [s[0]] + s[1..];
    }
  }

  /** A batch already in order comes out unchanged, as a stable sort leaves it. */
  lemma {:induction false} SortKeepsOrdered(s: seq<Span>)
    requires InOrder(s)
    ensures SortSpans(s) == s
  {
    if s != [] {
      var prefix := s[..|s| - 1];
      assert InOrder(prefix);
      SortKeepsOrdered(prefix);
      InsertLast(s[|s| - 1], prefix);
      assert prefix + [s[|s| - 1]] == s;
    }
  }

  /** A subscriber: a native callback or a Python callable, told apart by the list it is kept in. */
  datatype Subscriber = Native(n: nat) | Python(n: nat)

  /** One invocation of a subscriber with a batch. */
  datatype Delivery = Delivery(to: Subscriber, batch: seq<Span>)

  /**
   * Lines 22-57: a non-empty batch goes to every native callback, then to
   * every Python callback, each list in its iteration order; an empty batch
   * goes nowhere.
   */
  function Deliveries(callbacks: seq<nat>, pyCallbacks: seq<nat>, batch: seq<Span>): (d: seq<Delivery>)
    ensures batch == [] ==> d == []
    ensures batch != [] ==> |d| == |callbacks| + |pyCallbacks|
    ensures forall k :: 0 <= k < |d| ==> d[k].batch == batch
    ensures forall k :: 0 <= k < |d| ==>
              d[k].to == if k < |callbacks| then Native(callbacks[k]) else Python(pyCallbacks[k - |callbacks|])
  {
    if batch == [] then []
    else
      seq(|callbacks|, k requires 0 <= k < |callbacks| => Delivery(Native(callbacks[k]), batch))
      + seq(|pyCallbacks|, k requires 0 <= k < |pyCallbacks| => Delivery(Python(pyCallbacks[k]), batch))
  }

  /** Lines 211-221: subscribing puts the new callback at the front of its list. */
  function Subscribe(callbacks: seq<nat>, callback: nat): (r: seq<nat>)
    ensures |r| == |callbacks| + 1 && r[0] == callback && r[1..] == callbacks
  {
    [callback] + callbacks
  }

  /**
   * Native callbacks are all served before any Python callback, and of two
   * callbacks of the same kind the one subscribed later is served first.
   */
  lemma DeliveryOrder(callbacks: seq<nat>, pyCallbacks: seq<nat>, first: nat, second: nat, batch: seq<Span>)
    requires batch != []
    ensures var d := Deliveries(Subscribe(Subscribe(callbacks, first), second), pyCallbacks, batch);
      && d[0] == Delivery(Native(second), batch) && d[1] == Delivery(Native(first), batch)
      && (forall i, j :: 0 <= i < j < |d| && d[j].to.Native? ==> d[i].to.Native?)
  {
  }
}
