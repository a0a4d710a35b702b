/** The percentile walk at the end of `main` in host.cpp.

    With `N` input values, the thresholds are `N/4`, `N/2` and `3N/4`
    (floor division). The walk runs over the histogram's bin counts keeping a
    running count; each of three one-shot flags records the first bin at
    which the running count reaches its threshold. Turning a bin index into a
    temperature (`i / 10.0 + minimum`) is not modelled. */
module Percentiles {
  import opened Options

  /** One value per marker: 25th percentile, median, 75th percentile. */
  datatype Quartiles<T> = Quartiles(q1: T, median: T, q3: T)

  /** The rank thresholds for `n` values, `n/4`, `n/2` and `(n*3)/4` with
      floor division: ordered, none above `n`, each the largest integer not
      exceeding its exact fraction of `n`. */
  function Thresholds(n: nat): (t: Quartiles<int>)
    ensures 0 <= t.q1 <= t.median <= t.q3 <= n
    ensures 4 * t.q1 <= n < 4 * t.q1 + 4
    ensures 2 * t.median <= n < 2 * t.median + 2
    ensures 4 * t.q3 <= 3 * n < 4 * t.q3 + 4
  {
    Quartiles(n / 4, n / 2, (n * 3) / 4)
  }

  /** The running count over the first `k` bins. */
  function Prefix(bins: seq<int>, k: nat): int
    requires k <= |bins|
  {
    if k == 0 then 0 else Prefix(bins, k - 1) + bins[k - 1]
  }

  /** The running count, once bin `i` has been added, has reached `t`. */
  predicate Reaches(bins: seq<int>, i: nat, t: int)
    requires i < |bins|
  {
    Prefix(bins, i + 1) >= t
  }

  /** The first of the first `k` bins at which the running count reaches
      `t`, if any: the bin reaches `t` and no earlier bin does; and when
      there is none, no bin among the first `k` reaches `t`. */
  function FirstReachWithin(bins: seq<int>, t: int, k: nat): (r: Option<nat>)
    requires k <= |bins|
    ensures r.Some? ==> r.value < k && Reaches(bins, r.value, t)
    ensures r.Some? ==> forall j :: 0 <= j < r.value ==> !Reaches(bins, j, t)
    ensures r.None? ==> forall j :: 0 <= j < k ==> !Reaches(bins, j, t)
  {
    if k == 0 then None
    else
      match FirstReachWithin(bins, t, k - 1)
      case Some(j) => Some(j)
      case None => if Prefix(bins, k) >= t then Some(k - 1) else None
  }

  /** The first bin of the whole histogram whose running count reaches `t`. */
  function FirstReach(bins: seq<int>, t: int): Option<nat>
  {
    FirstReachWithin(bins, t, |bins|)
  }

  /** The three markers for a histogram of `n` values. */
  function Markers(bins: seq<int>, n: nat): Quartiles<Option<nat>>
  {
    var t := Thresholds(n);
    Quartiles(FirstReach(bins, t.q1), FirstReach(bins, t.median), FirstReach(bins, t.q3))
  }

  /** The walk as the source writes it: one pass over the bins with a running
      count and three one-shot flags. Each marker is the first bin whose
      running count reaches its threshold, or absent when no bin does. */
  method PercentileWalk(bins: seq<int>, n: nat) returns (m: Quartiles<Option<nat>>)
    ensures m == Markers(bins, n)
  {
    var middle := n / 2;
    var quart1 := n / 4;
    var quart3 := (n * 3) / 4;
    var mid, q1, q3 := false, false, false;
    var midBin, q1Bin, q3Bin := 0, 0, 0;
    var count := 0;
    var i := 0;
    while i < |bins|
      invariant 0 <= i <= |bins|
      invariant count == Prefix(bins, i)
      invariant q1 == FirstReachWithin(bins, quart1, i).Some?
      invariant q1 ==> q1Bin == FirstReachWithin(bins, quart1, i).value
      invariant mid == FirstReachWithin(bins, middle, i).Some?
      invariant mid ==> midBin == FirstReachWithin(bins, middle, i).value
      invariant q3 == FirstReachWithin(bins, quart3, i).Some?
      invariant q3 ==> q3Bin == FirstReachWithin(bins, quart3, i).value
    {
      assert Prefix(bins, i + 1) == Prefix(bins, i) + bins[i];
      TrackStep(bins, quart1, i, q1, q1Bin);
      TrackStep(bins, middle, i, mid, midBin);
      TrackStep(bins, quart3, i, q3, q3Bin);
      count := count + bins[i];
      if !q1 && count >= quart1 {
        q1, q1Bin := true, i;
      }
      if !mid && count >= middle {
        mid, midBin := true, i;
      }
      if !q3 && count >= quart3 {
        q3, q3Bin := true, i;
      }
      i := i + 1;
    }
    m := Quartiles(if q1 then Some(q1Bin) else None,
                   if mid then Some(midBin) else None,
                   if q3 then Some(q3Bin) else None);
  }

  /** One bin of the walk for one threshold: a flag that is set stays set
      with its bin, and an unset flag is set, with the current bin, exactly
      when the running count reaches the threshold. Flag and bin keep
      describing the first reach among the bins seen so far. */
  lemma TrackStep(bins: seq<int>, t: int, i: nat, flag: bool, bin: nat)
    requires i < |bins|
    requires flag == FirstReachWithin(bins, t, i).Some?
    requires flag ==> bin == FirstReachWithin(bins, t, i).value
    ensures var fires := !flag && Prefix(bins, i + 1) >= t;
      && (flag || fires) == FirstReachWithin(bins, t, i + 1).Some?
      && ((flag || fires) ==> (if fires then i else bin) == FirstReachWithin(bins, t, i + 1).value)
  {
  }

  /** `a` comes no later than `b`, an absent marker counting as past the end. */
  predicate NoLater(a: Option<nat>, b: Option<nat>)
  {
    b.None? || (a.Some? && a.value <= b.value)
  }

  /** A bin that reaches `t` after no earlier bin did is the first reach:
      with the contract of `FirstReachWithin` this characterises the marker
      in both directions. */
  lemma FirstReachUnique(bins: seq<int>, t: int, i: nat)
    requires i < |bins| && Reaches(bins, i, t)
    requires forall j :: 0 <= j < i ==> !Reaches(bins, j, t)
    ensures FirstReach(bins, t) == Some(i)
  {
  }

  /** A lower threshold is reached no later than a higher one. */
  lemma FirstReachMonotone(bins: seq<int>, t1: int, t2: int)
    requires t1 <= t2
    ensures NoLater(FirstReach(bins, t1), FirstReach(bins, t2))
  {
    var r2 := FirstReach(bins, t2);
    if r2.Some? {
      assert Reaches(bins, r2.value, t1);
    }
  }

  /** The markers come in order: 25th percentile, then median, then 75th
      percentile; a later marker is absent whenever an earlier one is. */
  lemma MarkersOrdered(bins: seq<int>, n: nat)
    ensures NoLater(Markers(bins, n).q1, Markers(bins, n).median)
    ensures NoLater(Markers(bins, n).median, Markers(bins, n).q3)
  {
    var t := Thresholds(n);
    FirstReachMonotone(bins, t.q1, t.median);
    FirstReachMonotone(bins, t.median, t.q3);
  }

  /** A threshold of at most 0 fires at the first bin when its count is not
      negative; so with fewer than four values the 25th percentile is bin 0. */
  lemma ZeroThresholdFiresAtFirstBin(bins: seq<int>, n: nat)
    requires |bins| > 0 && bins[0] >= 0
    ensures forall t :: t <= 0 ==> FirstReach(bins, t) == Some(0)
    ensures n < 4 ==> Markers(bins, n).q1 == Some(0)
  {
    forall t | t <= 0
      ensures FirstReach(bins, t) == Some(0)
    {
      assert Prefix(bins, 1) == bins[0];
      FirstReachUnique(bins, t, 0);
    }
  }

  /** When the bins hold at least as many values as `n` (a histogram of all
      `n` values holds exactly `n`), every marker fires. */
  lemma AllMarkersFire(bins: seq<int>, n: nat)
    requires |bins| > 0 && Prefix(bins, |bins|) >= n
    ensures Markers(bins, n).q1.Some?
    ensures Markers(bins, n).median.Some?
    ensures Markers(bins, n).q3.Some?
  {
    assert Reaches(bins, |bins| - 1, n);
  }

  /** Five values in five adjacent bins: the thresholds are 1, 2 and 3, so
      the markers fall on the first, second and third bin. */
  lemma FiveSingleBins()
    ensures Thresholds(5) == Quartiles(1, 2, 3)
    ensures Markers([1, 1, 1, 1, 1], 5) == Quartiles(Some(0), Some(1), Some(2))
  {
    var bins := [1, 1, 1, 1, 1];
    assert Prefix(bins, 1) == 1;
    assert Prefix(bins, 2) == 2;
    assert Prefix(bins, 3) == 3;
    FirstReachUnique(bins, 1, 0);
    FirstReachUnique(bins, 2, 1);
    FirstReachUnique(bins, 3, 2);
  }
}
