/** Multi-pass reduction bookkeeping (`reduce` in host.cpp).

    Each pass dispatches the reduce kernel over `elements` work items in
    groups of `max_factor(elements, max_groups)`, then shrinks `elements`
    to the number of groups (rounding a partial group up) and multiplies
    `stride` by the group size. The kernel itself is not modelled; only the
    `elements` / `stride` state machine and the arguments of each dispatch.

    The module also models what the passes compute under the assumption that
    a reduce kernel combines every element of the buffer it is given, to
    state the effect of the zero padding on `reduce_min` and `reduce_max`. */
module Reduction {
  import opened WorkPartition
  import opened Padding

  /** `(elements % g) ? elements / g + 1 : elements / g`: the number of
      groups of size `g` needed to hold `e` elements, a partial last group
      counting as one. It is the least `r` with `r * g >= e`. */
  function CeilDiv(e: int, g: int): (r: int)
    requires e >= 0 && g >= 1
    ensures r >= 0 && r * g >= e && (r - 1) * g < e
  {
    var q := e / g;
    assert e == q * g + e % g;
    if e % g != 0 then q + 1 else q
  }

  /** Rounding up by a group size of at least 2 strictly shrinks any count
      of at least 2, and keeps a positive count positive. */
  lemma CeilDivShrinks(e: int, g: int)
    requires e >= 2 && g >= 2
    ensures 1 <= CeilDiv(e, g) < e
  {
  }

  /** Host-side state between passes. */
  datatype ReductionState = ReductionState(stride: int, elements: int)

  /** The arguments of one kernel dispatch: `global` work items in groups of
      `local`, reading with `stride`. */
  datatype Dispatch = Dispatch(global: int, local: int, stride: int)

  /** Every live partial result, at positions `k * stride` for
      `k < elements`, lies inside a buffer of `padded` elements, and together
      they cover all of it. */
  predicate Covers(s: ReductionState, padded: int)
  {
    && s.stride >= 1
    && s.elements >= 1
    && s.stride * s.elements >= padded
    && s.stride * (s.elements - 1) < padded
  }

  /** The dispatch issued from state `s`. */
  function DispatchFrom(s: ReductionState, maxGroups: int): Dispatch
  {
    Dispatch(s.elements, MaxFactor(s.elements, maxGroups), s.stride)
  }

  /** One pass of the loop: the element count strictly decreases (so the
      loop terminates) and the stride at least doubles. */
  function Pass(s: ReductionState, maxGroups: int): (t: ReductionState)
    requires s.elements > 1 && s.stride >= 1
    ensures 1 <= t.elements < s.elements
    ensures t.stride >= s.stride * 2
  {
    var g := MaxFactor(s.elements, maxGroups);
    CeilDivShrinks(s.elements, g);
    MulMonotone(s.stride, 2, g);
    ReductionState(s.stride * g, CeilDiv(s.elements, g))
  }

  /** A pass keeps every live position inside the buffer and keeps the
      buffer covered: rounding the group count up never drops a partial
      group, and never adds a group past the end. */
  lemma PassCovers(s: ReductionState, padded: int, maxGroups: int)
    requires s.elements > 1 && Covers(s, padded)
    ensures Covers(Pass(s, maxGroups), padded)
  {
    var g := MaxFactor(s.elements, maxGroups);
    var t := Pass(s, maxGroups);
    var r := t.elements;
    assert t.stride == s.stride * g;
    MulAssoc(s.stride, g, r);
    MulAssoc(s.stride, g, r - 1);
    MulMonotone(s.stride, s.elements, g * r);
    MulMonotone(s.stride, (r - 1) * g, s.elements - 1);
  }

  lemma MulMonotone(a: int, b: int, c: int)
    requires a >= 0 && b <= c
    ensures a * b <= a * c
  {
  }

  lemma MulAssoc(a: int, b: int, c: int)
    ensures (a * b) * c == a * (b * c) == a * (c * b)
  {
  }

  /** Product of the group sizes of a sequence of dispatches. */
  function GroupProduct(ds: seq<Dispatch>): int
  {
    if |ds| == 0 then 1 else GroupProduct(ds[..|ds| - 1]) * ds[|ds| - 1].local
  }

  /** The dispatches the loop issues from state `s` until one element is
      left: a reference definition of the loop, one pass per element. */
  function Schedule(s: ReductionState, maxGroups: int): seq<Dispatch>
    requires s.stride >= 1
    decreases s.elements
  {
    if s.elements <= 1 then []
    else [DispatchFrom(s, maxGroups)] + Schedule(Pass(s, maxGroups), maxGroups)
  }

  /** A dispatch over `padded` buffer elements is well formed when it has
      more than one work item, its group size is `max_factor` of its work
      item count, its live positions cover the buffer and none lies past it.
      It does not ask the group size to divide the work item count: the
      fallback group size 2 of `max_factor` need not (`NonUniformDispatch`). */
  predicate WellFormed(d: Dispatch, padded: int, maxGroups: int)
  {
    && d.global > 1
    && d.local == MaxFactor(d.global, maxGroups)
    && Covers(ReductionState(d.stride, d.global), padded)
  }

  /** The dispatch issued from a covering state with more than one element
      is well formed. */
  lemma DispatchFromWellFormed(s: ReductionState, padded: int, maxGroups: int)
    requires Covers(s, padded) && s.elements > 1
    ensures WellFormed(DispatchFrom(s, maxGroups), padded, maxGroups)
  {
    assert ReductionState(s.stride, s.elements) == s;
  }

  /** Every dispatch of a schedule started from a covering state is well
      formed, and the schedule has fewer passes than the starting element
      count. */
  lemma {:induction false} ScheduleCovers(s: ReductionState, padded: int, maxGroups: int)
    requires Covers(s, padded)
    ensures var ds := Schedule(s, maxGroups);
      && |ds| < s.elements
      && (forall i :: 0 <= i < |ds| ==> WellFormed(ds[i], padded, maxGroups))
    decreases s.elements
  {
    if s.elements > 1 {
      var t := Pass(s, maxGroups);
      PassCovers(s, padded, maxGroups);
      ScheduleCovers(t, padded, maxGroups);
      var ds := Schedule(s, maxGroups);
      var rest := Schedule(t, maxGroups);
      assert ds == [DispatchFrom(s, maxGroups)] + rest;
      assert ds[0] == DispatchFrom(s, maxGroups) && ds[1..] == rest;
      DispatchFromWellFormed(s, padded, maxGroups);
      forall i | 1 <= i < |ds|
        ensures WellFormed(ds[i], padded, maxGroups)
      {
        assert ds[i] == ds[1..][i - 1];
      }
    }
  }

  /** A schedule starts with the dispatch of its starting state, every
      dispatch has more than one work item in groups of at least 2, and each
      later dispatch continues from the previous one's rounded-up group
      count and multiplied stride. */
  lemma {:induction false} ScheduleChained(s: ReductionState, maxGroups: int)
    requires s.stride >= 1
    ensures var ds := Schedule(s, maxGroups);
      && (|ds| > 0 ==> ds[0] == DispatchFrom(s, maxGroups))
      && (forall i :: 0 <= i < |ds| ==> ds[i].global > 1 && ds[i].local >= 2)
    ensures var ds := Schedule(s, maxGroups);
      forall i :: 0 < i < |ds| ==>
        && ds[i].global == CeilDiv(ds[i - 1].global, ds[i - 1].local)
        && ds[i].stride == ds[i - 1].stride * ds[i - 1].local
    decreases s.elements
  {
    if s.elements > 1 {
      var t := Pass(s, maxGroups);
      ScheduleChained(t, maxGroups);
      var ds := Schedule(s, maxGroups);
      var rest := Schedule(t, maxGroups);
      assert ds == [DispatchFrom(s, maxGroups)] + rest;
      assert ds[0] == DispatchFrom(s, maxGroups) && ds[1..] == rest;
      forall i | 1 <= i < |ds|
        ensures ds[i].global > 1 && ds[i].local >= 2
      {
        assert ds[i] == ds[1..][i - 1];
      }
      forall i | 0 < i < |ds|
        ensures ds[i].global == CeilDiv(ds[i - 1].global, ds[i - 1].local)
        ensures ds[i].stride == ds[i - 1].stride * ds[i - 1].local
      {
        assert ds[i] == ds[1..][i - 1];
        if i > 1 {
          assert ds[i - 1] == ds[1..][i - 2];
        }
      }
    }
  }

  /** Every dispatch of a schedule started from a covering state is well
      formed, each pass starts where the previous one left off, and the
      schedule has fewer passes than the starting element count. */
  lemma ScheduleWellFormed(s: ReductionState, padded: int, maxGroups: int)
    requires Covers(s, padded)
    ensures var ds := Schedule(s, maxGroups);
      && |ds| < s.elements
      && (|ds| > 0 ==> ds[0] == DispatchFrom(s, maxGroups))
      && (forall i :: 0 <= i < |ds| ==> WellFormed(ds[i], padded, maxGroups))
      && (forall i :: 0 < i < |ds| ==>
            && ds[i].global == CeilDiv(ds[i - 1].global, ds[i - 1].local)
            && ds[i].stride == ds[i - 1].stride * ds[i - 1].local)
  {
    ScheduleCovers(s, padded, maxGroups);
    ScheduleChained(s, maxGroups);
  }

  /** The reduction loop as the source writes it, for a padded buffer of
      `padded` elements and a device limit `maxGroups`. It returns the
      dispatches issued and the final `stride` and `elements`: it stops with
      exactly one element left for every non-empty buffer, the final stride
      is the product of all group sizes, at least the buffer length and less
      than twice it, and it issues no dispatch at all for a buffer of at most
      one element. */
  method ReducePasses(padded: int, maxGroups: int)
    returns (dispatches: seq<Dispatch>, stride: int, elements: int)
    ensures dispatches == Schedule(ReductionState(1, padded), maxGroups)
    ensures padded >= 1 ==> elements == 1
    ensures padded <= 1 ==> dispatches == [] && stride == 1 && elements == padded
    ensures stride == GroupProduct(dispatches)
    ensures padded >= 1 ==> padded <= stride < 2 * padded
  {
    dispatches := [];
    var s := ReductionState(1, padded);
    ghost var whole := Schedule(s, maxGroups);
    ProgressStart(padded, maxGroups);
    while s.elements > 1
      invariant Progress(dispatches, s, padded, maxGroups, whole)
      decreases s.elements
    {
      ProgressStep(dispatches, s, padded, maxGroups, whole);
      dispatches := dispatches + [DispatchFrom(s, maxGroups)];
      s := Pass(s, maxGroups);
    }
    ProgressDone(dispatches, s, padded, maxGroups, whole);
    stride := s.stride;
    elements := s.elements;
  }

  /** What the reduction loop keeps between passes, on its way to issuing
      the schedule `whole`: the stride is the product of the group sizes so
      far and, for a non-empty buffer, covers it and stays below twice its
      length; a buffer of at most one element is never touched; and the
      dispatches issued followed by the schedule still to come are `whole`. */
  predicate Progress(issued: seq<Dispatch>, s: ReductionState, padded: int, maxGroups: int,
                     whole: seq<Dispatch>)
  {
    && s.stride >= 1
    && (padded >= 1 ==> Covers(s, padded) && s.stride < 2 * padded)
    && (padded <= 1 ==> issued == [] && s == ReductionState(1, padded))
    && s.stride == GroupProduct(issued)
    && issued + Schedule(s, maxGroups) == whole
  }

  /** Before the first pass nothing is issued, the stride is 1, and the whole
      reference schedule is still to come. */
  lemma ProgressStart(padded: int, maxGroups: int)
    ensures var init := ReductionState(1, padded);
      Progress([], init, padded, maxGroups, Schedule(init, maxGroups))
  {
    var init := ReductionState(1, padded);
    assert [] + Schedule(init, maxGroups) == Schedule(init, maxGroups);
  }

  /** When at most one element is left, the dispatches issued are all of
      `whole`; for a non-empty buffer exactly one element is left and the
      stride lies between the buffer length and twice it. */
  lemma ProgressDone(issued: seq<Dispatch>, s: ReductionState, padded: int, maxGroups: int,
                     whole: seq<Dispatch>)
    requires Progress(issued, s, padded, maxGroups, whole) && s.elements <= 1
    ensures issued == whole
    ensures padded >= 1 ==> s.elements == 1 && padded <= s.stride < 2 * padded
    ensures padded <= 1 ==> issued == [] && s.stride == 1 && s.elements == padded
    ensures s.stride == GroupProduct(issued)
  {
    assert Schedule(s, maxGroups) == [];
    assert issued + [] == issued;
    if padded >= 1 {
      assert s.elements == 1;
      assert s.stride * s.elements == s.stride;
    }
  }

  /** One pass of the loop keeps `Progress`. */
  lemma ProgressStep(issued: seq<Dispatch>, s: ReductionState, padded: int, maxGroups: int,
                     whole: seq<Dispatch>)
    requires Progress(issued, s, padded, maxGroups, whole) && s.elements > 1
    ensures Progress(issued + [DispatchFrom(s, maxGroups)], Pass(s, maxGroups), padded, maxGroups, whole)
  {
    var d := DispatchFrom(s, maxGroups);
    GroupProductSnoc(issued, d);
    StrideBound(s, d.local, padded);
    PassCovers(s, padded, maxGroups);
    ScheduleStep(issued, s, maxGroups);
  }

  /** Appending a dispatch multiplies the product of group sizes by its
      group size. */
  lemma GroupProductSnoc(ds: seq<Dispatch>, d: Dispatch)
    ensures GroupProduct(ds + [d]) == GroupProduct(ds) * d.local
  {
    assert (ds + [d])[..|ds|] == ds;
  }

  /** Issuing the dispatch of state `s` moves it from the schedule still to
      come to the dispatches already issued. */
  lemma ScheduleStep(issued: seq<Dispatch>, s: ReductionState, maxGroups: int)
    requires s.elements > 1 && s.stride >= 1
    ensures issued + Schedule(s, maxGroups)
         == (issued + [DispatchFrom(s, maxGroups)]) + Schedule(Pass(s, maxGroups), maxGroups)
  {
    var d := DispatchFrom(s, maxGroups);
    var rest := Schedule(Pass(s, maxGroups), maxGroups);
    assert Schedule(s, maxGroups) == [d] + rest;
    assert (issued + [d]) + rest == issued + ([d] + rest);
  }

  /** A group size never exceeds the element count it is chosen for, so one
      pass at most doubles the stride beyond the buffer length. */
  lemma StrideBound(s: ReductionState, g: int, padded: int)
    requires Covers(s, padded) && s.elements > 1
    requires 2 <= g <= s.elements
    ensures s.stride * g < 2 * padded
  {
    assert s.stride * g <= s.stride * s.elements;
    assert s.stride <= s.stride * (s.elements - 1);
  }

  /** The combining operations of the reduce kernels the host runs:
      `reduce_add`, `reduce_min` and `reduce_max`. */
  datatype Combine = Add | Min | Max

  function Apply(op: Combine, a: int, b: int): int
  {
    match op
    case Add => a + b
    case Min => if a <= b then a else b
    case Max => if a >= b then a else b
  }

  /** Combining every element of a non-empty buffer, left to right. For the
      commutative and associative operations above this is the value a
      tree reduction over the whole buffer produces, whatever its shape. */
  function Fold(op: Combine, s: seq<int>): int
    requires |s| > 0
    decreases |s|
  {
    if |s| == 1 then s[0] else Apply(op, Fold(op, s[..|s| - 1]), s[|s| - 1])
  }

  /** Minimum and maximum absorb every element they were taken over. */
  lemma {:induction false} FoldAbsorbsElement(op: Combine, s: seq<int>, i: int)
    requires op != Add && 0 <= i < |s|
    ensures Apply(op, Fold(op, s), s[i]) == Fold(op, s)
    decreases |s|
  {
    if |s| > 1 && i < |s| - 1 {
      FoldAbsorbsElement(op, s[..|s| - 1], i);
    }
  }

  /** The minimum of elements that are all at least `lo` is at least `lo`;
      the maximum of elements that are all at most `hi` is at most `hi`. */
  lemma {:induction false} FoldWithinBounds(s: seq<int>, lo: int, hi: int)
    requires |s| > 0
    requires forall i :: 0 <= i < |s| ==> lo <= s[i] <= hi
    ensures lo <= Fold(Min, s) <= hi
    ensures lo <= Fold(Max, s) <= hi
    decreases |s|
  {
    if |s| > 1 {
      FoldWithinBounds(s[..|s| - 1], lo, hi);
    }
  }

  /** Appending elements that the running result absorbs leaves the result
      unchanged. */
  lemma {:induction false} FoldIgnoresAbsorbed(op: Combine, s: seq<int>, t: seq<int>)
    requires |s| > 0
    requires forall j :: 0 <= j < |t| ==> Apply(op, Fold(op, s), t[j]) == Fold(op, s)
    ensures Fold(op, s + t) == Fold(op, s)
    decreases |t|
  {
    if |t| > 0 {
      var u := t[..|t| - 1];
      assert (s + t)[..|s + t| - 1] == s + u;
      assert (s + t)[|s + t| - 1] == t[|t| - 1];
      FoldIgnoresAbsorbed(op, s, u);
      assert Fold(op, s + t) == Apply(op, Fold(op, s + u), t[|t| - 1]);
    } else {
      assert s + t == s;
    }
  }

  /** The padding value the source uses for every reduction: 0. */
  const SourceFiller := 0

  /** Zero padding leaves a sum unchanged. */
  lemma ZeroPaddingKeepsSum(values: seq<int>)
    requires |values| > 0
    ensures Fold(Add, Pad(values, SourceFiller)) == Fold(Add, values)
  {
    var padded := Pad(values, SourceFiller);
    assert padded == values + padded[|values|..];
    FoldIgnoresAbsorbed(Add, values, padded[|values|..]);
  }

  /** What the reduction computes as the source writes it, assuming each
      reduce kernel combines every element of the padded buffer: the input is
      padded with 0 whatever the operation. Padding with 0 is harmless for a
      sum. */
  function ZeroPaddedReduce(op: Combine, values: seq<int>): (r: int)
    requires |values| > 0
    ensures op == Add ==> r == Fold(Add, values)
  {
    ZeroPaddingKeepsSum(values);
    Fold(op, Pad(values, SourceFiller))
  }

  /** With zero padding, `reduce_min` over strictly positive values whose
      count is not a multiple of 16 yields 0 instead of their minimum. */
  lemma ZeroPaddingCorruptsMin(values: seq<int>)
    requires |values| > 0 && |values| % BlockSize != 0
    requires forall i :: 0 <= i < |values| ==> values[i] > 0
    ensures ZeroPaddedReduce(Min, values) == 0 < Fold(Min, values)
  {
    var padded := Pad(values, SourceFiller);
    var hi := Fold(Max, values);
    forall i | 0 <= i < |values| ensures values[i] <= hi {
      FoldAbsorbsElement(Max, values, i);
    }
    FoldWithinBounds(values, 1, hi);
    FoldWithinBounds(padded, 0, hi);
    FoldAbsorbsElement(Min, padded, |values|);
  }

  /** With zero padding, `reduce_max` over strictly negative values whose
      count is not a multiple of 16 yields 0 instead of their maximum. */
  lemma ZeroPaddingCorruptsMax(values: seq<int>)
    requires |values| > 0 && |values| % BlockSize != 0
    requires forall i :: 0 <= i < |values| ==> values[i] < 0
    ensures ZeroPaddedReduce(Max, values) == 0 > Fold(Max, values)
  {
    var padded := Pad(values, SourceFiller);
    var lo := Fold(Min, values);
    forall i | 0 <= i < |values| ensures lo <= values[i] {
      FoldAbsorbsElement(Min, values, i);
    }
    FoldWithinBounds(values, lo, -1);
    FoldWithinBounds(padded, lo, 0);
    FoldAbsorbsElement(Max, padded, |values|);
  }

  /** A single reading of 5 is padded with fifteen zeros; its minimum as the
      source computes it is 0. */
  lemma ZeroPaddedMinOfOneReading()
    ensures ZeroPaddedReduce(Min, [5]) == 0
    ensures Fold(Min, [5]) == 5
  {
    ZeroPaddingCorruptsMin([5]);
  }

  /** A padding value that every operation absorbs: 0 for a sum, and for a
      minimum or maximum an element already in the buffer, since taking the
      minimum or maximum again with one of its own elements changes nothing. */
  function Filler(op: Combine, values: seq<int>): int
  {
    if op == Add || |values| == 0 then 0 else values[0]
  }

  /** The reduction with an absorbed padding value: padding to a multiple of
      16 does not change the result of any of the three operations. */
  function PaddedReduce(op: Combine, values: seq<int>): (r: int)
    requires |values| > 0
    ensures r == Fold(op, values)
  {
    var padded := Pad(values, Filler(op, values));
    var tail := padded[|values|..];
    assert padded == values + tail;
    forall j | 0 <= j < |tail|
      ensures Apply(op, Fold(op, values), tail[j]) == Fold(op, values)
    {
      if op != Add {
        FoldAbsorbsElement(op, values, 0);
      }
    }
    FoldIgnoresAbsorbed(op, values, tail);
    Fold(op, padded)
  }

  /** The host side of one reduction as the source writes it: the input is
      padded with 0 up to a multiple of 16, then passes run until one element
      is left. The padded buffer combines to `ZeroPaddedReduce`, which is the
      input's own value for a sum (for a minimum or maximum it need not be:
      `ZeroPaddingCorruptsMin`), and the dispatches are those of the
      reference schedule over its length. */
  method Reduce(op: Combine, values: seq<int>, maxGroups: int)
    returns (padded: seq<int>, dispatches: seq<Dispatch>)
    ensures |padded| == PaddedLength(|values|) && padded[..|values|] == values
    ensures forall i :: |values| <= i < |padded| ==> padded[i] == 0
    ensures |values| > 0 ==> Fold(op, padded) == ZeroPaddedReduce(op, values)
    ensures |values| > 0 && op == Add ==> Fold(op, padded) == Fold(op, values)
    ensures dispatches == Schedule(ReductionState(1, |padded|), maxGroups)
  {
    padded := Pad(values, SourceFiller);
    if |values| > 0 {
      ZeroPaddingKeepsSum(values);
    }
    var stride, elements;
    dispatches, stride, elements := ReducePasses(|padded|, maxGroups);
  }

  /** The chains of 272, 136, 68, 34 and 17 have no entry of at most 16, so
      `max_factor` falls back to 2 for each of them. */
  lemma FallbackGroupsOf272(maxGroups: int)
    requires maxGroups == 16
    ensures MaxFactor(272, maxGroups) == 2 && MaxFactor(136, maxGroups) == 2
    ensures MaxFactor(68, maxGroups) == 2 && MaxFactor(34, maxGroups) == 2
    ensures MaxFactor(17, maxGroups) == 2
  {
    assert SmallestFactor(17) == 17;
    assert QuotientChain(17) == [17] + QuotientChain(1) == [17];
    assert SmallestFactor(34) == 2;
    assert QuotientChain(34) == [34] + QuotientChain(17);
    assert SmallestFactor(68) == 2;
    assert QuotientChain(68) == [68] + QuotientChain(34);
    assert SmallestFactor(136) == 2;
    assert QuotientChain(136) == [136] + QuotientChain(68);
    assert SmallestFactor(272) == 2;
    assert QuotientChain(272) == [272] + QuotientChain(136);
  }

  /** A pass whose group size is the fallback 2 halves the element count,
      rounding up, and doubles the stride. */
  lemma FallbackPass(s: ReductionState, maxGroups: int)
    requires s.elements > 1 && s.stride >= 1 && MaxFactor(s.elements, maxGroups) == 2
    ensures Schedule(s, maxGroups)
         == [Dispatch(s.elements, 2, s.stride)]
          + Schedule(ReductionState(s.stride * 2, CeilDiv(s.elements, 2)), maxGroups)
  {
  }

  /** The group size of `max_factor` need not divide the work item count it
      is chosen for. Over a padded buffer of 272 = 16 * 17 elements with at
      most 16 work items per group, every group size up to the fifth pass is
      the fallback 2 (`FallbackGroupsOf272`). The fifth dispatch then has 17
      work items in groups of 2. */
  lemma NonUniformDispatch(padded: int, maxGroups: int)
    requires padded == 272 && maxGroups == 16
    ensures var ds := Schedule(ReductionState(1, padded), maxGroups);
      && |ds| > 4
      && ds[4] == Dispatch(17, 2, 16)
      && ds[4].global % ds[4].local != 0
  {
    FallbackGroupsOf272(maxGroups);
    var s0 := ReductionState(1, padded);
    FallbackPass(s0, maxGroups);
    var s1 := ReductionState(s0.stride * 2, CeilDiv(s0.elements, 2));
    assert s1.elements == 136;
    FallbackPass(s1, maxGroups);
    var s2 := ReductionState(s1.stride * 2, CeilDiv(s1.elements, 2));
    assert s2.elements == 68;
    FallbackPass(s2, maxGroups);
    var s3 := ReductionState(s2.stride * 2, CeilDiv(s2.elements, 2));
    assert s3.elements == 34;
    FallbackPass(s3, maxGroups);
    var s4 := ReductionState(s3.stride * 2, CeilDiv(s3.elements, 2));
    assert s4 == ReductionState(16, 17);
    FallbackPass(s4, maxGroups);
    var fifth := Schedule(s4, maxGroups)[0];
    assert Schedule(s3, maxGroups)[1..] == Schedule(s4, maxGroups);
    assert Schedule(s3, maxGroups)[1] == fifth;
    assert Schedule(s2, maxGroups)[1..] == Schedule(s3, maxGroups);
    assert Schedule(s2, maxGroups)[2] == fifth;
    assert Schedule(s1, maxGroups)[1..] == Schedule(s2, maxGroups);
    assert Schedule(s1, maxGroups)[3] == fifth;
    assert Schedule(s0, maxGroups)[1..] == Schedule(s1, maxGroups);
    assert Schedule(s0, maxGroups)[4] == fifth;
  }
}
