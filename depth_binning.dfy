/** Depth-bin boundaries and the grouping of samples by depth bin, used by
    the data-range report and the depth-profile outlier envelope. The
    boundaries are `range(int(round(min(y) - size)), int(round(max(y) + size)), size)`. */
module DepthBinning {
  import opened Collections
  import opened QualityFilter

  /** Python `round(x)` on a float: the nearest integer, ties to the even one. */
  function RoundHalfEven(x: real): (r: int)
    ensures r as real - 0.5 <= x <= r as real + 0.5
    ensures (x == r as real - 0.5 || x == r as real + 0.5) ==> r % 2 == 0
  {
    var f := x.Floor;
    var d := x - f as real;
    if d < 0.5 then f
    else if d > 0.5 then f + 1
    else if f % 2 == 0 then f else f + 1
  }

  /** The elements of `range(start, stop, step)` for a non-zero step. */
  function RangeSeq(start: int, stop: int, step: int): seq<int>
    requires step != 0
    decreases if step > 0 then stop - start else start - stop
  {
    if (step > 0 && start < stop) || (step < 0 && start > stop) then
      [start] + RangeSeq(start + step, stop, step)
    else []
  }

  /** The `i`-th element is `start + i * step`; an ascending range stays below
      `stop` and one more step would reach it, a descending one stays above. */
  lemma {:induction false} RangeSeqElements(start: int, stop: int, step: int)
    requires step != 0
    ensures var r := RangeSeq(start, stop, step);
      && (forall i :: 0 <= i < |r| ==> r[i] == start + i * step)
      && (step > 0 ==> (forall i :: 0 <= i < |r| ==> r[i] < stop) && start + |r| * step >= stop)
      && (step < 0 ==> (forall i :: 0 <= i < |r| ==> r[i] > stop) && start + |r| * step <= stop)
    decreases if step > 0 then stop - start else start - stop
  {
    var r := RangeSeq(start, stop, step);
    if (step > 0 && start < stop) || (step < 0 && start > stop) {
      var rest := RangeSeq(start + step, stop, step);
      RangeSeqElements(start + step, stop, step);
      assert r == [start] + rest;
      forall i | 0 < i < |r| ensures r[i] == start + i * step {
        assert r[i] == rest[i - 1];
        MulSucc(i - 1, step);
      }
      MulSucc(|rest|, step);
    }
  }

  lemma MulSucc(n: int, step: int)
    ensures (n + 1) * step == n * step + step
  {
  }

  /** Python `range(start, stop, step)`; a ValueError when the step is zero. */
  function PyRange(start: int, stop: int, step: int): (r: Option<seq<int>>)
    ensures r.None? <==> step == 0
    ensures r.Some? ==> var q := r.value;
      && (forall i :: 0 <= i < |q| ==> q[i] == start + i * step)
      && (step > 0 ==> (forall i :: 0 <= i < |q| ==> q[i] < stop) && start + |q| * step >= stop)
      && (step < 0 ==> (forall i :: 0 <= i < |q| ==> q[i] > stop) && start + |q| * step <= stop)
  {
    if step == 0 then None
    else
      RangeSeqElements(start, stop, step);
      Some(RangeSeq(start, stop, step))
  }

  /** Every element of an ascending range is at least its start. */
  lemma {:induction false} RangeAbove(start: int, stop: int, step: int)
    requires step > 0
    ensures forall x :: x in RangeSeq(start, stop, step) ==> x >= start
    decreases stop - start
  {
    if start < stop {
      RangeAbove(start + step, stop, step);
    }
  }

  /** An ascending range is strictly increasing. */
  lemma {:induction false} RangeIncreasing(start: int, stop: int, step: int)
    requires step > 0
    ensures Increasing(RangeSeq(start, stop, step))
    decreases stop - start
  {
    if start < stop {
      var rest := RangeSeq(start + step, stop, step);
      RangeIncreasing(start + step, stop, step);
      RangeAbove(start + step, stop, step);
      var r := [start] + rest;
      forall i, j | 0 <= i < j < |r| ensures r[i] < r[j] {
        if i == 0 {
          assert r[j] == rest[j - 1] && rest[j - 1] in rest;
        } else {
          assert r[i] == rest[i - 1] && r[j] == rest[j - 1];
        }
      }
    }
  }

  predicate Increasing(r: seq<int>) {
    forall i, j :: 0 <= i < j < |r| ==> r[i] < r[j]
  }

  predicate Ascending(r: seq<int>) {
    forall i, j :: 0 <= i < j < |r| ==> r[i] <= r[j]
  }

  function MinReal(ys: seq<real>): (m: real)
    requires |ys| > 0
    ensures (forall i :: 0 <= i < |ys| ==> m <= ys[i]) && m in ys
  {
    if |ys| == 1 then ys[0]
    else var rest := MinReal(ys[1..]); if ys[0] <= rest then ys[0] else rest
  }

  function MaxReal(ys: seq<real>): (m: real)
    requires |ys| > 0
    ensures (forall i :: 0 <= i < |ys| ==> ys[i] <= m) && m in ys
  {
    if |ys| == 1 then ys[0]
    else var rest := MaxReal(ys[1..]); if ys[0] >= rest then ys[0] else rest
  }

  /** `int(round(min(y) - size))`, the first boundary. */
  function LowBoundary(ys: seq<real>, size: int): int
    requires |ys| > 0
  {
    RoundHalfEven(MinReal(ys) - size as real)
  }

  /** `int(round(max(y) + size))`, the stop of the range as written. */
  function HighBoundary(ys: seq<real>, size: int): int
    requires |ys| > 0
  {
    RoundHalfEven(MaxReal(ys) + size as real)
  }

  /** The boundaries as written. `min` of no pressures and a zero step are ValueErrors. */
  function DepthRangesAsWritten(ys: seq<real>, size: int): (r: Option<seq<int>>)
    ensures r.Some? <==> |ys| > 0 && size != 0
  {
    if |ys| == 0 then None else PyRange(LowBoundary(ys, size), HighBoundary(ys, size), size)
  }

  /** The boundaries as written begin at the rounded `min(y) - size`, step by `size`,
      and stay below the rounded `max(y) + size`; one more step would reach it. */
  lemma DepthRangesShape(ys: seq<real>, size: int)
    requires |ys| > 0 && size > 0
    ensures var r := DepthRangesAsWritten(ys, size).value;
      && (forall i :: 0 <= i < |r| ==> r[i] == LowBoundary(ys, size) + i * size && r[i] < HighBoundary(ys, size))
      && (forall i :: 0 <= i < |r| - 1 ==> r[i + 1] - r[i] == size)
      && LowBoundary(ys, size) + |r| * size >= HighBoundary(ys, size)
  {
    var r := DepthRangesAsWritten(ys, size).value;
    forall i | 0 <= i < |r| - 1 ensures r[i + 1] - r[i] == size {
      assert r[i + 1] == LowBoundary(ys, size) + i * size + size;
    }
  }

  /** The boundaries with the stop moved up by one step, so that the last bin
      reaches past the deepest sample. */
  function DepthRanges(ys: seq<real>, size: int): (r: Option<seq<int>>)
    ensures r.Some? <==> |ys| > 0 && size != 0
  {
    if |ys| == 0 then None else PyRange(LowBoundary(ys, size), HighBoundary(ys, size) + size, size)
  }

  /** With the corrected stop and a step of at least one, there are at least two
      boundaries and every pressure lies in `[first, last)`. */
  lemma DepthRangesCover(ys: seq<real>, size: int)
    requires |ys| > 0 && size >= 1
    ensures var r := DepthRanges(ys, size).value;
      |r| >= 2 && forall i :: 0 <= i < |ys| ==> r[0] as real <= ys[i] < r[|r| - 1] as real
  {
    var r := DepthRanges(ys, size).value;
    var lo := LowBoundary(ys, size);
    var hi := HighBoundary(ys, size);
    BoundariesAround(ys, size);
    LastBoundary(lo, hi, size, |r|);
    assert r[0] == lo && r[|r| - 1] == lo + (|r| - 1) * size;
  }

  /** The rounded boundaries lie at least half a step outside the pressures. */
  lemma BoundariesAround(ys: seq<real>, size: int)
    requires |ys| > 0 && size >= 1
    ensures forall i :: 0 <= i < |ys| ==> LowBoundary(ys, size) as real < ys[i] < HighBoundary(ys, size) as real
    ensures LowBoundary(ys, size) < HighBoundary(ys, size)
  {
    var sz := size as real;
    var mn, mx := MinReal(ys), MaxReal(ys);
    assert LowBoundary(ys, size) as real <= mn - sz + 0.5;
    assert HighBoundary(ys, size) as real >= mx + sz - 0.5;
  }

  /** A range from `lo` that reaches `hi + size` has at least two entries, the
      last of them at least `hi`. */
  lemma LastBoundary(lo: int, hi: int, size: int, n: nat)
    requires lo < hi && size >= 1 && lo + n * size >= hi + size
    ensures n >= 2 && lo + (n - 1) * size >= hi
  {
    assert n * size > size;
    MoreThanOneStep(n, size);
    assert (n - 1) * size == n * size - size;
  }

  lemma MoreThanOneStep(n: nat, size: int)
    requires size >= 1 && n * size > size
    ensures n >= 2
  {
  }

  /** Group `i` holds the samples with `r[i] <= y < r[i + 1]`. */
  function GroupByDepth(xs: seq<Sample>, r: seq<int>): (gs: seq<seq<Sample>>)
    ensures |gs| == if |r| == 0 then 0 else |r| - 1
    ensures forall i :: 0 <= i < |gs| ==> gs[i] == Filter(xs, InDepthBin(r[i], r[i + 1]))
  {
    if |r| == 0 then [] else seq(|r| - 1, i requires 0 <= i < |r| - 1 => Filter(xs, InDepthBin(r[i], r[i + 1])))
  }

  function TotalSize(gs: seq<seq<Sample>>): nat
  {
    if |gs| == 0 then 0 else TotalSize(gs[..|gs| - 1]) + |gs[|gs| - 1]|
  }

  /** Adjacent bins split the samples of their union. */
  lemma {:induction false} BinSplit(xs: seq<Sample>, a: int, b: int, c: int)
    requires a <= b <= c
    ensures |Filter(xs, InDepthBin(a, c))| == |Filter(xs, InDepthBin(a, b))| + |Filter(xs, InDepthBin(b, c))|
    decreases |xs|
  {
    if |xs| > 0 {
      BinSplit(xs[1..], a, b, c);
    }
  }

  /** Dropping the last boundary drops the last group. */
  lemma GroupByDepthPrefix(xs: seq<Sample>, r: seq<int>)
    requires |r| >= 2
    ensures GroupByDepth(xs, r[..|r| - 1]) == GroupByDepth(xs, r)[..|r| - 2]
  {
    var a := GroupByDepth(xs, r[..|r| - 1]);
    var b := GroupByDepth(xs, r)[..|r| - 2];
    assert |a| == |b|;
    forall i | 0 <= i < |a| ensures a[i] == b[i] {
      assert r[..|r| - 1][i] == r[i] && r[..|r| - 1][i + 1] == r[i + 1];
    }
  }

  /** Samples are counted once over all groups: the group sizes add up to the
      number of samples between the first and the last boundary. */
  lemma {:induction false} GroupsCount(xs: seq<Sample>, r: seq<int>)
    requires |r| >= 1 && Ascending(r)
    ensures TotalSize(GroupByDepth(xs, r)) == |Filter(xs, InDepthBin(r[0], r[|r| - 1]))|
    decreases |r|
  {
    var n := |r|;
    if n == 1 {
      FilterNone(xs, InDepthBin(r[0], r[0]));
    } else {
      var p := r[..n - 1];
      AscendingPrefix(r);
      GroupsCount(xs, p);
      assert p[0] == r[0] && p[n - 2] == r[n - 2];
      GroupsCountStep(xs, r);
    }
  }

  lemma AscendingPrefix(r: seq<int>)
    requires |r| >= 1 && Ascending(r)
    ensures Ascending(r[..|r| - 1])
  {
    var p := r[..|r| - 1];
    forall i, j | 0 <= i < j < |p| ensures p[i] <= p[j] {
      assert p[i] == r[i] && p[j] == r[j];
    }
  }

  /** One more boundary adds the samples of the last group. */
  lemma GroupsCountStep(xs: seq<Sample>, r: seq<int>)
    requires |r| >= 2 && Ascending(r)
    requires TotalSize(GroupByDepth(xs, r[..|r| - 1])) == |Filter(xs, InDepthBin(r[0], r[|r| - 2]))|
    ensures TotalSize(GroupByDepth(xs, r)) == |Filter(xs, InDepthBin(r[0], r[|r| - 1]))|
  {
    var n := |r|;
    GroupByDepthPrefix(xs, r);
    var gs := GroupByDepth(xs, r);
    assert TotalSize(gs) == TotalSize(gs[..n - 2]) + |gs[n - 2]|;
    assert gs[n - 2] == Filter(xs, InDepthBin(r[n - 2], r[n - 1]));
    assert r[0] <= r[n - 2] <= r[n - 1];
    BinSplit(xs, r[0], r[n - 2], r[n - 1]);
  }

  /** No sample lies in two groups. */
  lemma GroupsDisjoint(xs: seq<Sample>, r: seq<int>, i: nat, j: nat, x: Sample)
    requires Ascending(r)
    requires i < j < |GroupByDepth(xs, r)|
    ensures !(x in GroupByDepth(xs, r)[i] && x in GroupByDepth(xs, r)[j])
  {
    var gs := GroupByDepth(xs, r);
    var a := InDepthBin(r[i], r[i + 1]);
    var b := InDepthBin(r[j], r[j + 1]);
    assert gs[i] == Filter(xs, a) && gs[j] == Filter(xs, b);
    FilterMembers(xs, a);
    FilterMembers(xs, b);
    assert r[i + 1] <= r[j];
  }

  function Depths(xs: seq<Sample>): (ys: seq<real>)
    ensures |ys| == |xs| && forall i :: 0 <= i < |xs| ==> ys[i] == xs[i].y
  {
    seq(|xs|, i requires 0 <= i < |xs| => xs[i].y)
  }

  /** With the corrected boundaries every sample falls in exactly one group. */
  lemma CorrectedGroupsKeepAll(xs: seq<Sample>, size: int)
    requires |xs| > 0 && size >= 1
    ensures var r := DepthRanges(Depths(xs), size).value;
      TotalSize(GroupByDepth(xs, r)) == |xs|
  {
    var ys := Depths(xs);
    var r := DepthRanges(ys, size).value;
    CorrectedRangesAscending(ys, size);
    GroupsCount(xs, r);
    DepthRangesCover(ys, size);
    var c := InDepthBin(r[0], r[|r| - 1]);
    forall i | 0 <= i < |xs| ensures Passes(c, xs[i]) {
      assert ys[i] == xs[i].y;
    }
    FilterIdentity(xs, c);
  }

  lemma CorrectedRangesAscending(ys: seq<real>, size: int)
    requires |ys| > 0 && size >= 1
    ensures |DepthRanges(ys, size).value| >= 1 && Ascending(DepthRanges(ys, size).value)
  {
    DepthRangesCover(ys, size);
    RangeIncreasing(LowBoundary(ys, size), HighBoundary(ys, size) + size, size);
  }

  /** As written, a single sample at 10.4 dbar with 10 dbar bins gets the boundaries
      0 and 10, so it lies in no group and drops out of the report. */
  lemma AsWrittenLosesDeepestSample()
    ensures DepthRangesAsWritten([10.4], 10) == Some([0, 10])
    ensures TotalSize(GroupByDepth([Sample(0, 10.4, Num(1.0))], [0, 10])) == 0
  {
    assert RoundHalfEven(10.4 - 10.0) == 0;
    assert RoundHalfEven(10.4 + 10.0) == 20;
    assert RangeSeq(20, 20, 10) == [];
    assert RangeSeq(10, 20, 10) == [10];
    assert RangeSeq(0, 20, 10) == [0, 10];
    var xs := [Sample(0, 10.4, Num(1.0))];
    var gs := GroupByDepth(xs, [0, 10]);
    assert gs[..0] == [];
    FilterNone(xs, InDepthBin(0, 10));
  }

  /** The corrected boundaries for the same sample are 0, 10 and 20, and the sample is
      in the second group. */
  lemma CorrectedKeepsDeepestSample()
    ensures DepthRanges([10.4], 10) == Some([0, 10, 20])
  {
    assert RoundHalfEven(10.4 - 10.0) == 0;
    assert RoundHalfEven(10.4 + 10.0) == 20;
    assert RangeSeq(30, 30, 10) == [];
    assert RangeSeq(20, 30, 10) == [20];
    assert RangeSeq(10, 30, 10) == [10, 20];
    assert RangeSeq(0, 30, 10) == [0, 10, 20];
  }
}
