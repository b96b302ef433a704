/**
 * `SamplingCollector` (src/cpp/gauge/sampling_collector.cpp): the part of
 * the collector that is not threads and timing. The processing step cuts
 * the buffer of raw frames into per-thread traces, skips the collector's own
 * threads and erases what it processed; the lifecycle methods flip the
 * stopped and paused flags or report the collector's errors.
 */
module Collector {
  import opened Wrappers
  import opened Base
  import Chrono

  /**
   * One sampled stack position as the sampling thread buffers it: what
   * `construct_frame` reads from the Python frame object, plus the sample's
   * clock reading, thread id and position flags.
   */
  datatype RawFrame = RawFrame(
    symbolicName: string,
    fileName: string,
    lineNumber: int,
    isCoroutine: bool,
    isGenerator: bool,
    cookie: U64,
    threadId: U64,
    monotonicTimestamp: int,
    isTopmost: bool,
    isBottommost: bool)

  /** The exceptions of include/gauge/collector.hpp that the lifecycle methods throw. */
  datatype CollectorError =
    | CollectorHasAlreadyStarted
    | CollectorIsStopped
    | CollectorIsNotPaused
    | CollectorIsAlreadyPaused

  /** `construct_frame`. */
  function FrameOf(raw: RawFrame): Frame
  {
    Frame(raw.symbolicName, raw.fileName, raw.lineNumber, raw.isCoroutine, raw.isGenerator, raw.cookie)
  }

  /** The frames of a trace, in the order of the raw frames. */
  function FramesOf(raws: seq<RawFrame>): (frames: seq<Frame>)
    ensures |frames| == |raws|
    ensures forall k :: 0 <= k < |raws| ==> frames[k] == FrameOf(raws[k])
    decreases |raws|
  {
    if raws == [] then []
    else
      var rest := FramesOf(raws[1..]);
      assert forall k :: 1 <= k < |raws| ==> raws[k] == raws[1..][k - 1];
      [FrameOf(raws[0])] + rest
  }

  /**
   * `construct_trace`: the clock readings and the thread id of the first raw
   * frame, the process id and host name of this process, and every frame in
   * order.
   */
  function TraceOf(raws: seq<RawFrame>, base: Chrono.Base, processId: U64, hostname: string): Trace
    requires raws != []
  {
    Trace(FramesOf(raws), raws[0].monotonicTimestamp, Chrono.Convert(raws[0].monotonicTimestamp, base),
          raws[0].threadId, processId, hostname)
  }

  /**
   * The end of the processed range as the backward search finds it: one
   * past the last topmost frame at a position from `i` down to 1; the whole
   * buffer when there is none (position 0 is never inspected).
   */
  function SearchFrom(raws: seq<RawFrame>, i: nat): (end: nat)
    requires i < |raws|
    ensures 1 <= end <= |raws|
    decreases i
  {
    if i == 0 then |raws|
    else if raws[i].isTopmost then i + 1
    else SearchFrom(raws, i - 1)
  }

  /**
   * The buffers the backward search handles: non-empty, and its end is just
   * after a topmost frame (the source asserts this; other buffers are
   * undefined behaviour there).
   */
  predicate Cuttable(raws: seq<RawFrame>)
  {
    raws != [] && raws[SearchFrom(raws, |raws| - 1) - 1].isTopmost
  }

  function Cut(raws: seq<RawFrame>): nat
    requires raws != []
  {
    SearchFrom(raws, |raws| - 1)
  }

  /** The cut ends just after the last topmost frame of the buffer. */
  lemma {:induction false} CutIsAfterLastTopmost(raws: seq<RawFrame>)
    requires Cuttable(raws)
    ensures 1 <= Cut(raws) <= |raws| && raws[Cut(raws) - 1].isTopmost
    ensures forall j :: Cut(raws) <= j < |raws| ==> !raws[j].isTopmost
  {
    SearchSkips(raws, |raws| - 1);
  }

  lemma {:induction false} SearchSkips(raws: seq<RawFrame>, i: nat)
    requires i < |raws|
    ensures 1 <= SearchFrom(raws, i) <= |raws|
    ensures SearchFrom(raws, i) <= i + 1 || SearchFrom(raws, i) == |raws|
    ensures forall j :: SearchFrom(raws, i) <= j <= i ==> !raws[j].isTopmost
    decreases i
  {
    if i > 0 && !raws[i].isTopmost {
      SearchSkips(raws, i - 1);
    }
  }

  /** Where a range ending at `end` may be grouped: `end` is just after a topmost frame. */
  predicate GroupableTo(raws: seq<RawFrame>, end: nat)
  {
    0 < end <= |raws| && raws[end - 1].isTopmost
  }

  /** Position of the first topmost frame at or after `i`. */
  function NextTopmost(raws: seq<RawFrame>, i: nat, end: nat): (r: nat)
    requires i < end && GroupableTo(raws, end)
    ensures i <= r < end && raws[r].isTopmost
    ensures forall j :: i <= j < r ==> !raws[j].isTopmost
    decreases end - i
  {
    if raws[i].isTopmost then i else NextTopmost(raws, i + 1, end)
  }

  /** The trace groups of `raws[i..end]`: runs, each ending at the first topmost frame reached. */
  function GroupsFrom(raws: seq<RawFrame>, i: nat, end: nat): (groups: seq<seq<RawFrame>>)
    requires i <= end && GroupableTo(raws, end)
    ensures forall g :: 0 <= g < |groups| ==> groups[g] != []
    decreases end - i
  {
    if i == end then []
    else
      var n := NextTopmost(raws, i, end);
      [raws[i..n + 1]] + GroupsFrom(raws, n + 1, end)
  }

  function Flatten(groups: seq<seq<RawFrame>>): seq<RawFrame>
    decreases |groups|
  {
    if groups == [] then [] else groups[0] + Flatten(groups[1..])
  }

  /** A trace group: non-empty, topmost at its end and nowhere else. */
  ghost predicate IsGroup(g: seq<RawFrame>)
  {
    g != [] && g[|g| - 1].isTopmost && forall j :: 0 <= j < |g| - 1 ==> !g[j].isTopmost
  }

  /** The groups cover the range, in order. */
  lemma {:induction false} GroupsCover(raws: seq<RawFrame>, i: nat, end: nat)
    requires i <= end && GroupableTo(raws, end)
    ensures Flatten(GroupsFrom(raws, i, end)) == raws[i..end]
    decreases end - i
  {
    if i < end {
      var n := NextTopmost(raws, i, end);
      GroupsCover(raws, n + 1, end);
      var gs := GroupsFrom(raws, i, end);
      assert gs[0] == raws[i..n + 1] && gs[1..] == GroupsFrom(raws, n + 1, end);
      assert Flatten(gs) == raws[i..n + 1] + raws[n + 1..end];
      SliceJoin(raws, i, n + 1, end);
    }
  }

  /** Each group is the frames of one stack: its only topmost frame is its last. */
  lemma {:induction false} GroupsAreStacks(raws: seq<RawFrame>, i: nat, end: nat)
    requires i <= end && GroupableTo(raws, end)
    ensures forall g :: 0 <= g < |GroupsFrom(raws, i, end)| ==> IsGroup(GroupsFrom(raws, i, end)[g])
    decreases end - i
  {
    if i < end {
      var n := NextTopmost(raws, i, end);
      GroupsAreStacks(raws, n + 1, end);
      var gs := GroupsFrom(raws, i, end);
      assert gs[0] == raws[i..n + 1];
      assert forall g :: 1 <= g < |gs| ==> gs[g] == GroupsFrom(raws, n + 1, end)[g - 1];
    }
  }

  /** The traces of the groups whose thread is not one of `own`, in order. */
  function TracesOf(groups: seq<seq<RawFrame>>, own: set<U64>, base: Chrono.Base, processId: U64, hostname: string): seq<Trace>
    requires forall g :: 0 <= g < |groups| ==> groups[g] != []
    decreases |groups|
  {
    if groups == [] then []
    else
      var t := TraceOf(groups[0], base, processId, hostname);
      (if t.threadId in own then [] else [t]) + TracesOf(groups[1..], own, base, processId, hostname)
  }

  /** No trace of the collector's own threads is passed on, and without own threads none is skipped. */
  lemma {:induction false} TracesSkipOwn(groups: seq<seq<RawFrame>>, own: set<U64>, base: Chrono.Base, processId: U64, hostname: string)
    requires forall g :: 0 <= g < |groups| ==> groups[g] != []
    ensures forall t :: t in TracesOf(groups, own, base, processId, hostname) ==> t.threadId !in own
    ensures |TracesOf(groups, own, base, processId, hostname)| <= |groups|
    ensures own == {} ==> |TracesOf(groups, own, base, processId, hostname)| == |groups|
    decreases |groups|
  {
    if groups != [] {
      TracesSkipOwn(groups[1..], own, base, processId, hostname);
    }
  }

  /** The traces of `raws[i..end]`: those of its groups, minus own threads. */
  function TracesFrom(raws: seq<RawFrame>, i: nat, end: nat, own: set<U64>, base: Chrono.Base, processId: U64, hostname: string): seq<Trace>
    requires i <= end && GroupableTo(raws, end)
  {
    TracesOf(GroupsFrom(raws, i, end), own, base, processId, hostname)
  }

  /**
   * Splitting off the group `raws[i..next]`: its trace, unless of an own
   * thread, then the traces of the rest.
   */
  lemma TracesStep(raws: seq<RawFrame>, i: nat, next: nat, end: nat, own: set<U64>, base: Chrono.Base, processId: U64, hostname: string)
    requires i < next <= end && GroupableTo(raws, end)
    requires raws[next - 1].isTopmost && forall j :: i <= j < next - 1 ==> !raws[j].isTopmost
    ensures var t := TraceOf(raws[i..next], base, processId, hostname);
      TracesFrom(raws, i, end, own, base, processId, hostname)
      == (if t.threadId in own then [] else [t]) + TracesFrom(raws, next, end, own, base, processId, hostname)
  {
    assert NextTopmost(raws, i, end) == next - 1;
    var gs := GroupsFrom(raws, i, end);
    assert gs[0] == raws[i..next] && gs[1..] == GroupsFrom(raws, next, end);
  }

  class SamplingCollector {
    var isStopped: bool
    var isPaused: bool
    var ownThreadIds: set<U64>
    /** `raw_frames`: sampled frames not yet processed. */
    var rawFrames: seq<RawFrame>
    /** `clocks_base_measurements`, taken at construction. */
    const base: Chrono.Base
    /** This process's id and host name. */
    const processId: U64
    const hostname: string

    /** A new collector is stopped, not paused, with no own threads and nothing buffered. */
    constructor(base: Chrono.Base, processId: U64, hostname: string)
      ensures isStopped && !isPaused && ownThreadIds == {} && rawFrames == []
      ensures this.base == base && this.processId == processId && this.hostname == hostname
    {
      isStopped := true;
      isPaused := false;
      ownThreadIds := {};
      rawFrames := [];
      this.base := base;
      this.processId := processId;
      this.hostname := hostname;
    }

    /** `start`: only a stopped collector starts. */
    method Start() returns (r: Outcome<CollectorError>)
      modifies this`isStopped
      ensures old(isStopped) ==> r == Pass && !isStopped
      ensures !old(isStopped) ==> r == Fail(CollectorHasAlreadyStarted) && !isStopped
    {
      if !isStopped {
        return Fail(CollectorHasAlreadyStarted);
      }
      isStopped := false;
      r := Pass;
    }

    /** `finalize` (and `stop`): a no-op when stopped; otherwise stops and forgets the own threads. */
    method Finalize()
      modifies this`isStopped, this`ownThreadIds
      ensures isStopped
      ensures old(isStopped) ==> ownThreadIds == old(ownThreadIds)
      ensures !old(isStopped) ==> ownThreadIds == {}
    {
      if isStopped {
        return;
      }
      isStopped := true;
      ClearOwnThreads();
    }

    /** `pause`. */
    method Pause() returns (r: Outcome<CollectorError>)
      modifies this`isPaused
      ensures old(isPaused) ==> r == Fail(CollectorIsAlreadyPaused)
      ensures !old(isPaused) ==> r == Pass
      ensures isPaused
    {
      if isPaused {
        return Fail(CollectorIsAlreadyPaused);
      }
      isPaused := true;
      r := Pass;
    }

    /** `resume`: the stopped check comes first. */
    method Resume() returns (r: Outcome<CollectorError>)
      modifies this`isPaused
      ensures isStopped ==> r == Fail(CollectorIsStopped) && isPaused == old(isPaused)
      ensures !isStopped && !old(isPaused) ==> r == Fail(CollectorIsNotPaused) && !isPaused
      ensures !isStopped && old(isPaused) ==> r == Pass && !isPaused
    {
      if isStopped {
        return Fail(CollectorIsStopped);
      }
      if !isPaused {
        return Fail(CollectorIsNotPaused);
      }
      isPaused := false;
      r := Pass;
    }

    /** `register_own_thread`, with the caller's thread id as a parameter. */
    method RegisterOwnThread(threadId: U64)
      modifies this`ownThreadIds
      ensures ownThreadIds == old(ownThreadIds) + {threadId}
    {
      ownThreadIds := ownThreadIds + {threadId};
    }

    /** `check_if_own_thread`. */
    method CheckIfOwnThread(threadId: U64) returns (own: bool)
      ensures own <==> threadId in ownThreadIds
    {
      own := threadId in ownThreadIds;
    }

    /** `clear_own_threads`. */
    method ClearOwnThreads()
      modifies this`ownThreadIds
      ensures ownThreadIds == {}
    {
      ownThreadIds := {};
    }

    /** `construct_trace`. */
    method ConstructTrace(raws: seq<RawFrame>) returns (trace: Trace)
      requires raws != []
      ensures trace == TraceOf(raws, base, processId, hostname)
    {
      var frames: seq<Frame> := [];
      for k := 0 to |raws|
        invariant frames == FramesOf(raws[..k])
      {
        FramesOfAppend(raws[..k], raws[k]);
        assert raws[..k + 1] == raws[..k] + [raws[k]];
        frames := frames + [FrameOf(raws[k])];
      }
      assert raws[..|raws|] == raws;
      trace := Trace(frames, raws[0].monotonicTimestamp, Chrono.Convert(raws[0].monotonicTimestamp, base),
                     raws[0].threadId, processId, hostname);
    }

    /**
     * One pass of `processor` over the buffer (lines 257-302): the backward
     * search for the last topmost frame, the grouping of the processed range,
     * the skipping of own threads and the erasure of the processed range.
     * An empty buffer (the sampler has produced nothing yet) is an idle
     * pass: nothing is grouped and nothing is erased.
     */
    method ProcessRawFrames() returns (traces: seq<Trace>)
      requires rawFrames == [] || Cuttable(rawFrames)
      modifies this`rawFrames
      ensures old(rawFrames) == [] ==> traces == [] && rawFrames == []
      ensures old(rawFrames) != [] ==>
        var cut := Cut(old(rawFrames));
        && GroupableTo(old(rawFrames), cut)
        && rawFrames == old(rawFrames)[cut..]
        && traces == TracesFrom(old(rawFrames), 0, cut, ownThreadIds, base, processId, hostname)
    {
      if rawFrames == [] {
        return [];
      }
      var end := SearchBack();
      traces := [];
      var it := 0;
      while it < end
        invariant rawFrames == old(rawFrames) && GroupableTo(rawFrames, end)
        invariant 0 <= it <= end
        invariant traces + TracesFrom(rawFrames, it, end, ownThreadIds, base, processId, hostname)
          == TracesFrom(rawFrames, 0, end, ownThreadIds, base, processId, hostname)
        decreases end - it
      {
        var start := it;
        var frames: seq<RawFrame>;
        frames, it := NextGroup(start, end);
        var trace := ConstructTrace(frames);
        TracesStep(rawFrames, start, it, end, ownThreadIds, base, processId, hostname);
        ghost var here := TracesFrom(rawFrames, start, end, ownThreadIds, base, processId, hostname);
        ghost var rest := TracesFrom(rawFrames, it, end, ownThreadIds, base, processId, hostname);
        var own := CheckIfOwnThread(trace.threadId);
        if own {
          assert here == rest;
          continue;
        }
        assert here == [trace] + rest;
        ConcatAssoc(traces, [trace], rest);
        traces := traces + [trace];
      }
      rawFrames := rawFrames[end..];
    }

    /** The backward search (lines 263-273); index 0 is never inspected. */
    method SearchBack() returns (end: nat)
      requires rawFrames != []
      ensures end == Cut(rawFrames)
    {
      end := |rawFrames|;
      var i := |rawFrames| - 1;
      var found := false;
      while i != 0 && !found
        invariant 0 <= i < |rawFrames|
        invariant !found ==> end == |rawFrames| && SearchFrom(rawFrames, i) == Cut(rawFrames)
        invariant found ==> end == Cut(rawFrames)
        decreases i, !found
      {
        if rawFrames[i].isTopmost {
          end := i + 1;
          found := true;
        } else {
          i := i - 1;
        }
      }
    }

    /** The inner loop of the grouping (lines 276-283): collect frames up to and including the first topmost one. */
    method NextGroup(start: nat, end: nat) returns (frames: seq<RawFrame>, next: nat)
      requires start < end <= |rawFrames| && rawFrames[end - 1].isTopmost
      ensures start < next <= end && frames == rawFrames[start..next]
      ensures rawFrames[next - 1].isTopmost && forall j :: start <= j < next - 1 ==> !rawFrames[j].isTopmost
    {
      frames := [];
      next := start;
      var done := false;
      while !done
        invariant start <= next <= end
        invariant frames == rawFrames[start..next]
        invariant !done ==> next < end && forall j :: start <= j < next ==> !rawFrames[j].isTopmost
        invariant done ==> start < next && rawFrames[next - 1].isTopmost
        invariant done ==> forall j :: start <= j < next - 1 ==> !rawFrames[j].isTopmost
        decreases end - next, !done
      {
        assert rawFrames[start..next + 1] == rawFrames[start..next] + [rawFrames[next]];
        frames := frames + [rawFrames[next]];
        if rawFrames[next].isTopmost {
          next := next + 1;
          done := true;
        } else {
          next := next + 1;
        }
      }
    }
  }

  lemma FramesOfAppend(raws: seq<RawFrame>, raw: RawFrame)
    ensures FramesOf(raws + [raw]) == FramesOf(raws) + [FrameOf(raw)]
  {
    var a := FramesOf(raws + [raw]);
    var b := FramesOf(raws) + [FrameOf(raw)];
    assert forall k :: 0 <= k < |a| ==> a[k] == b[k];
  }
}
