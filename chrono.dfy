/**
 * `TimePointConversionUtil` (src/cpp/gauge/utils/chrono.hpp): converting a
 * time point of a source clock into a destination clock through one pair
 * of base measurements, and taking that pair with as small a gap as the
 * retries allow. Time points and durations are integer tick counts; each
 * clock read of the measurement loop is an element of the `readings` input.
 */
module Chrono {

  /** `std::numeric_limits<rep>::max()` of a 64-bit signed duration. */
  const MaxDuration: int := 0x7FFF_FFFF_FFFF_FFFF

  /** Default `tolerance` of `get_base_measurements`: 100 ns. */
  const DefaultTolerance: int := 100

  /** Default `limit` of `get_base_measurements`. */
  const DefaultLimit: int := 10

  /** A pair of base measurements: a source-clock point and the destination-clock point taken with it. */
  datatype Base = Base(src: int, dst: int)

  /** The three clock reads of one attempt: source, destination, source again. */
  datatype Reading = Reading(srcBefore: int, dstBetween: int, srcAfter: int)

  /** `convert_time_point(tp, base)`: the destination point as far from `dst` as `tp` is from `src`. */
  function Convert(tp: int, base: Base): int
  {
    base.dst + (tp - base.src)
  }

  /** The base source point itself converts to the base destination point. */
  lemma ConvertBase(base: Base)
    ensures Convert(base.src, base) == base.dst
  {
  }

  /** Conversion preserves the difference between two time points, hence their order. */
  lemma ConvertKeepsDifferences(a: int, b: int, base: Base)
    ensures Convert(a, base) - Convert(b, base) == a - b
    ensures a <= b <==> Convert(a, base) <= Convert(b, base)
  {
  }

  /** Converting back with the pair swapped returns the original point. */
  lemma ConvertRoundTrip(tp: int, base: Base)
    ensures Convert(Convert(tp, base), Base(base.dst, base.src)) == tp
  {
  }

  /** C++ integer division by 2, truncating toward zero. */
  function Half(x: int): (r: int)
    ensures x >= 0 ==> 0 <= r && r + r <= x < r + r + 2
    ensures x < 0 ==> r <= 0 && r + r - 2 < x <= r + r
  {
    if x >= 0 then x / 2 else -((-x) / 2)
  }

  function Abs(x: int): int
  {
    if x < 0 then -x else x
  }

  /** The absolute gap between the two source reads of an attempt. */
  function Gap(r: Reading): int
  {
    Abs(r.srcAfter - r.srcBefore)
  }

  /** The measurement an attempt yields: the midpoint of the source reads with the destination read. */
  function Midpoint(r: Reading): Base
  {
    Base(r.srcBefore + Half(r.srcAfter - r.srcBefore), r.dstBetween)
  }

  /**
   * `epsilon` after the attempts `rs`: the smallest gap seen, or the maximal
   * duration when no attempt beat it.
   */
  function Epsilon(rs: seq<Reading>): int
    decreases |rs|
  {
    if rs == [] then MaxDuration
    else
      var e := Epsilon(rs[..|rs| - 1]);
      if Gap(rs[|rs| - 1]) < e then Gap(rs[|rs| - 1]) else e
  }

  /** `epsilon` is the smallest gap of the attempts, or the maximal duration when every gap reaches it. */
  lemma {:induction false} EpsilonIsSmallest(rs: seq<Reading>)
    ensures Epsilon(rs) <= MaxDuration
    ensures forall k :: 0 <= k < |rs| ==> Epsilon(rs) <= Gap(rs[k])
    ensures Epsilon(rs) == MaxDuration || exists k :: 0 <= k < |rs| && Gap(rs[k]) == Epsilon(rs)
    decreases |rs|
  {
    if rs != [] {
      var init := rs[..|rs| - 1];
      EpsilonIsSmallest(init);
      assert forall k :: 0 <= k < |init| ==> init[k] == rs[k];
    }
  }

  /** The measurement kept after the attempts `rs`: that of the last attempt that lowered `epsilon`. */
  function Kept(rs: seq<Reading>): Base
    decreases |rs|
  {
    if rs == [] then Base(0, 0)
    else
      var init := rs[..|rs| - 1];
      if Gap(rs[|rs| - 1]) < Epsilon(init) then Midpoint(rs[|rs| - 1]) else Kept(init)
  }

  /** `epsilon` never increases from one attempt to the next. */
  lemma {:induction false} EpsilonNeverIncreases(rs: seq<Reading>, n: nat, m: nat)
    requires n <= m <= |rs|
    ensures Epsilon(rs[..m]) <= Epsilon(rs[..n])
    decreases m - n
  {
    if n < m {
      EpsilonNeverIncreases(rs, n, m - 1);
      assert rs[..m][..m - 1] == rs[..m - 1];
    }
  }

  /**
   * Once some gap is below the maximal duration, the kept measurement is the
   * midpoint of the FIRST attempt with the smallest gap.
   */
  lemma {:induction false} KeptIsFirstSmallest(rs: seq<Reading>)
    requires Epsilon(rs) < MaxDuration
    ensures exists k :: 0 <= k < |rs| && Gap(rs[k]) == Epsilon(rs) && Kept(rs) == Midpoint(rs[k])
                        && (forall j :: 0 <= j < k ==> Epsilon(rs) < Gap(rs[j]))
    decreases |rs|
  {
    var init := rs[..|rs| - 1];
    var last := |rs| - 1;
    assert forall j :: 0 <= j < |init| ==> init[j] == rs[j];
    EpsilonIsSmallest(init);
    if Gap(rs[last]) < Epsilon(init) {
      assert forall j :: 0 <= j < last ==> Epsilon(init) <= Gap(init[j]);
    } else {
      KeptIsFirstSmallest(init);
      var k :| 0 <= k < |init| && Gap(init[k]) == Epsilon(init) && Kept(init) == Midpoint(init[k])
               && (forall j :: 0 <= j < k ==> Epsilon(init) < Gap(init[j]));
      assert Gap(rs[k]) == Epsilon(rs) && Kept(rs) == Midpoint(rs[k]);
    }
  }

  /** The stored source point lies between the two source reads of its attempt. */
  lemma MidpointBetween(r: Reading)
    ensures r.srcBefore <= r.srcAfter ==> r.srcBefore <= Midpoint(r).src <= r.srcAfter
    ensures r.srcAfter <= r.srcBefore ==> r.srcAfter <= Midpoint(r).src <= r.srcBefore
  {
  }

  /**
   * `get_base_measurements`: attempts are made one reading at a time; an
   * attempt whose gap is below `epsilon` is kept. The loop stops after
   * `limit` attempts (at least one is always made) or, before that, once
   * `epsilon` is within `tolerance`. `used` is the number of attempts.
   */
  method GetBaseMeasurements(readings: seq<Reading>, tolerance: int, limit: int) returns (base: Base, used: nat)
    requires |readings| >= limit && |readings| >= 1
    ensures 1 <= used <= |readings|
    ensures used == 1 || used <= limit
    ensures used < limit ==> Epsilon(readings[..used]) <= tolerance
    ensures forall j :: 1 <= j < used ==> tolerance < Epsilon(readings[..j])
    ensures base == Kept(readings[..used])
  {
    used := 0;
    base := Base(0, 0);
    var epsilon := MaxDuration;
    var done := false;
    while !done
      invariant used <= |readings|
      invariant epsilon == Epsilon(readings[..used]) && base == Kept(readings[..used])
      invariant !done ==> used < limit || used == 0
      invariant !done ==> used == 0 || tolerance < epsilon
      invariant done ==> 1 <= used && (used >= limit || epsilon <= tolerance)
      invariant used <= 1 || used <= limit
      invariant forall j :: 1 <= j < used ==> tolerance < Epsilon(readings[..j])
      decreases |readings| - used, !done
    {
      assert readings[..used + 1][..used] == readings[..used];
      var r := readings[used];
      var srcDiff := r.srcAfter - r.srcBefore;
      var delta := Abs(srcDiff);
      if delta < epsilon {
        base := Base(r.srcBefore + Half(srcDiff), r.dstBetween);
        epsilon := delta;
      }
      used := used + 1;
      if used >= limit || epsilon <= tolerance {
        done := true;
      }
    }
  }

  /** `convert_time_point(tp, tolerance, limit)`: measure, then convert. */
  method ConvertNow(tp: int, readings: seq<Reading>, tolerance: int, limit: int) returns (r: int)
    requires |readings| >= limit && |readings| >= 1
    ensures exists used :: 1 <= used <= |readings| && r == Convert(tp, Kept(readings[..used]))
  {
    var base, used := GetBaseMeasurements(readings, tolerance, limit);
    r := Convert(tp, base);
  }
}
