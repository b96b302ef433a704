/**
 * The value types shared by the collector, the span aggregator and the
 * exporters (include/gauge/base.hpp).
 *
 * Time points are integer nanosecond counts since the clock's epoch (the
 * default-constructed `time_point{}` is 0); `unsigned long long` fields are
 * integers in [0, 2^64).
 */
module Base {

  type U64 = x: int | 0 <= x < 0x1_0000_0000_0000_0000

  /**
   * A `std::string` identifier as the aggregator uses it: either the empty
   * string (the default value, and the `parent_id` of a top span) or the
   * text of the n-th UUID drawn from the aggregator's generator.
   */
  datatype Ident = Empty | Uuid(n: nat)

  /** `Span::SpanLifeTime`: exactly two values. */
  datatype LifeTime = Start | End

  /** One stack position at one instant; the cookie identifies the call-frame record. */
  datatype Frame = Frame(
    symbolicName: string,
    fileName: string,
    lineNumber: int,
    isCoroutine: bool,
    isGenerator: bool,
    cookie: U64)

  /**
   * One stack snapshot of one thread (`Trace` / `TraceSample`).
   * `frames[0]` is the frame the thread was executing (the source calls it
   * the bottommost); the last frame is the outermost caller.
   */
  datatype Trace = Trace(
    frames: seq<Frame>,
    monotonicTimestamp: int,
    timestamp: int,
    threadId: U64,
    processId: U64,
    hostname: string)

  /** A Start or End event of one call. */
  datatype Span = Span(
    lifetime: LifeTime,
    id: Ident,
    parentId: Ident,
    correlationId: Ident,
    isTop: bool,
    symbolicName: string,
    fileName: string,
    lineNumber: int,
    isCoroutine: bool,
    isGenerator: bool,
    monotonicTimestamp: int,
    timestamp: int,
    threadId: U64,
    processId: U64,
    hostname: string)

  /** `Trace()`: no frames, zero ids, an empty hostname, epoch time points. */
  function DefaultTrace(): (t: Trace)
    ensures t.frames == [] && t.hostname == []
    ensures t.threadId == 0 && t.processId == 0
    ensures t.monotonicTimestamp == 0 && t.timestamp == 0
  {
    Trace([], 0, 0, 0, 0, "")
  }

  /** `Span()`: a Start event, not top, with every identifier empty. */
  function DefaultSpan(): (s: Span)
    ensures s.lifetime == Start && !s.isTop
    ensures s.id == Empty && s.parentId == Empty && s.correlationId == Empty
    ensures s.symbolicName == [] && s.fileName == [] && s.hostname == []
    ensures s.lineNumber == 0 && !s.isCoroutine && !s.isGenerator
    ensures s.threadId == 0 && s.processId == 0
    ensures s.monotonicTimestamp == 0 && s.timestamp == 0
  {
    Span(Start, Empty, Empty, Empty, false, "", "", 0, false, false, 0, 0, 0, 0, "")
  }

  /** The span carries the name, location and kind of `frame`. */
  ghost predicate CarriesFrame(s: Span, frame: Frame)
  {
    && s.symbolicName == frame.symbolicName
    && s.fileName == frame.fileName
    && s.lineNumber == frame.lineNumber
    && s.isCoroutine == frame.isCoroutine
    && s.isGenerator == frame.isGenerator
  }

  /** The span carries the time points and the origin of `trace`. */
  ghost predicate CarriesTrace(s: Span, trace: Trace)
  {
    && s.monotonicTimestamp == trace.monotonicTimestamp
    && s.timestamp == trace.timestamp
    && s.threadId == trace.threadId
    && s.processId == trace.processId
    && s.hostname == trace.hostname
  }

  /**
   * `Span(trace, frame)`: frame attributes from the frame, time points and
   * origin from the trace, everything else as in `Span()`.
   */
  function SpanOf(trace: Trace, frame: Frame): (s: Span)
    ensures CarriesFrame(s, frame) && CarriesTrace(s, trace)
    ensures s.lifetime == Start && !s.isTop
    ensures s.id == Empty && s.parentId == Empty && s.correlationId == Empty
  {
    DefaultSpan().(
      symbolicName := frame.symbolicName,
      fileName := frame.fileName,
      lineNumber := frame.lineNumber,
      isCoroutine := frame.isCoroutine,
      isGenerator := frame.isGenerator,
      monotonicTimestamp := trace.monotonicTimestamp,
      timestamp := trace.timestamp,
      threadId := trace.threadId,
      processId := trace.processId,
      hostname := trace.hostname)
  }

  /**
   * Regrouping a concatenation. Dafny knows this on its own; stating it as a
   * call keeps the loops that append step by step from searching for it in
   * their whole context.
   */
  lemma ConcatAssoc<T>(a: seq<T>, b: seq<T>, c: seq<T>)
    ensures (a + b) + c == a + (b + c)
  {
  }

  /** Two adjacent slices join into one. */
  lemma SliceJoin<T>(s: seq<T>, a: nat, b: nat, c: nat)
    requires a <= b <= c <= |s|
    ensures s[a..b] + s[b..c] == s[a..c]
  {
  }
}
