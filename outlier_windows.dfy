/** The per-depth-bin 3-sigma envelope of the depth-profile script: for every
    group of samples it records the count, the mean pressure, the mean, minimum
    and maximum value, mean + 3 std and mean - 3 std, and the first and last
    day of the values outside that envelope as exclusion date pairs. */
module OutlierWindows {
  import opened Collections
  import opened QualityFilter
  import opened DepthBinning

  /** The standard deviation is taken as given: any non-negative function of the values. */
  type NonNeg = r: real | r >= 0.0

  const SecondsPerDay: int := 86400

  /** `strftime('%Y-%m-%d')` of a timestamp in seconds: its day number. */
  function Day(t: int): int {
    t / SecondsPerDay
  }

  lemma DayMonotone(a: int, b: int)
    requires a <= b
    ensures Day(a) <= Day(b)
  {
  }

  /** The value of a sample that passed `notnull()`. */
  function ValueOf(x: Sample): real {
    match x.z
    case Num(v) => v
    case NaN => 0.0
  }

  /** `d_groups[...][nan_ind]`: the samples of the group whose value is not null. */
  function Kept(g: seq<Sample>): seq<Sample> {
    Filter(g, NotNaN)
  }

  function Vals(xs: seq<Sample>): (vs: seq<real>)
    ensures |vs| == |xs| && forall i :: 0 <= i < |xs| ==> vs[i] == ValueOf(xs[i])
  {
    seq(|xs|, i requires 0 <= i < |xs| => ValueOf(xs[i]))
  }

  function Sum(vs: seq<real>): real
    decreases |vs|
  {
    if |vs| == 0 then 0.0 else vs[0] + Sum(vs[1..])
  }

  lemma {:induction false} SumBounds(vs: seq<real>, lo: real, hi: real)
    requires forall i :: 0 <= i < |vs| ==> lo <= vs[i] <= hi
    ensures |vs| as real * lo <= Sum(vs) <= |vs| as real * hi
    decreases |vs|
  {
    if |vs| > 0 {
      SumBounds(vs[1..], lo, hi);
      var n := |vs| as real;
      assert n * lo == lo + (n - 1.0) * lo;
      assert n * hi == hi + (n - 1.0) * hi;
    }
  }

  /** pandas `mean()`; NaN for no values. */
  function MeanValue(vs: seq<real>): (m: Value)
    ensures m.Num? <==> |vs| > 0
  {
    if |vs| == 0 then NaN else Num(Sum(vs) / |vs| as real)
  }

  /** The mean lies between the smallest and the largest value. */
  lemma MeanBetweenMinAndMax(vs: seq<real>)
    requires |vs| > 0
    ensures MinReal(vs) <= MeanValue(vs).v <= MaxReal(vs)
  {
    AverageBounds(vs, MinReal(vs), MaxReal(vs));
  }

  lemma AverageBounds(vs: seq<real>, lo: real, hi: real)
    requires |vs| > 0 && forall i :: 0 <= i < |vs| ==> lo <= vs[i] <= hi
    ensures lo <= Sum(vs) / |vs| as real <= hi
  {
    SumBounds(vs, lo, hi);
    DivBounds(Sum(vs), |vs| as real, lo, hi);
  }

  lemma DivBounds(s: real, n: real, lo: real, hi: real)
    requires n > 0.0 && n * lo <= s <= n * hi
    ensures lo <= s / n <= hi
  {
    var q := s / n;
    assert q * n == s;
  }

  /** pandas `min()` and `max()`; NaN for no values. */
  function MinValue(vs: seq<real>): (m: Value)
    ensures m.Num? <==> |vs| > 0
    ensures m.Num? ==> m.v in vs && forall i :: 0 <= i < |vs| ==> m.v <= vs[i]
  {
    if |vs| == 0 then NaN else Num(MinReal(vs))
  }

  function MaxValue(vs: seq<real>): (m: Value)
    ensures m.Num? <==> |vs| > 0
    ensures m.Num? ==> m.v in vs && forall i :: 0 <= i < |vs| ==> vs[i] <= m.v
  {
    if |vs| == 0 then NaN else Num(MaxReal(vs))
  }

  /** pandas `std()` with one degree of freedom: NaN for fewer than two values. */
  function StdValue(vs: seq<real>, sd: seq<real> -> NonNeg): (s: Value)
    ensures s.Num? <==> |vs| >= 2
    ensures s.Num? ==> s.v >= 0.0
  {
    if |vs| < 2 then NaN else Num(sd(vs))
  }

  const Sigmas: real := 3.0

  /** `mean + 3 * std` and `mean - 3 * std`; NaN propagates. */
  function UpperLimit(vs: seq<real>, sd: seq<real> -> NonNeg): (u: Value)
    ensures u.Num? <==> |vs| >= 2
  {
    match (MeanValue(vs), StdValue(vs, sd))
    case (Num(m), Num(s)) => Num(m + Sigmas * s)
    case _ => NaN
  }

  function LowerLimit(vs: seq<real>, sd: seq<real> -> NonNeg): (l: Value)
    ensures l.Num? <==> |vs| >= 2
  {
    match (MeanValue(vs), StdValue(vs, sd))
    case (Num(m), Num(s)) => Num(m - Sigmas * s)
    case _ => NaN
  }

  /** The statistics appended for one group. */
  datatype Envelope = Envelope(count: nat, yAvg: Value, nAvg: Value, nMin: Value, nMax: Value, n0: Value, n1: Value)

  function GroupEnvelope(g: seq<Sample>, sd: seq<real> -> NonNeg): Envelope {
    var k := Kept(g);
    var vs := Vals(k);
    Envelope(|k|, MeanValue(Depths(k)), MeanValue(vs), MinValue(vs), MaxValue(vs),
      UpperLimit(vs, sd), LowerLimit(vs, sd))
  }

  /** The envelope is ordered: min <= mean <= max when the group has values, and
      mean - 3 std <= mean <= mean + 3 std when it has at least two. */
  lemma EnvelopeOrdered(g: seq<Sample>, sd: seq<real> -> NonNeg)
    ensures var e := GroupEnvelope(g, sd);
      && (e.nAvg.Num? <==> e.count > 0)
      && (e.nAvg.Num? ==> e.nMin.Num? && e.nMax.Num? && e.nMin.v <= e.nAvg.v <= e.nMax.v)
      && (e.n0.Num? <==> e.count >= 2)
      && (e.n0.Num? ==> e.n1.Num? && e.nAvg.Num? && e.n1.v <= e.nAvg.v <= e.n0.v)
  {
    var vs := Vals(Kept(g));
    if |vs| > 0 {
      MeanBetweenMinAndMax(vs);
    }
  }

  /** The times of the kept samples whose value compares true against `lim` under
      `above` (greater) or not (less); a NaN limit compares false with everything. */
  function OutlierTimes(k: seq<Sample>, lim: Value, above: bool): seq<int>
    decreases |k|
  {
    if |k| == 0 then []
    else (if Outside(k[0], lim, above) then [k[0].t] else []) + OutlierTimes(k[1..], lim, above)
  }

  /** The outlier times are exactly the times of the samples outside the limit. */
  lemma {:induction false} OutlierTimesMembers(k: seq<Sample>, lim: Value, above: bool)
    ensures forall t :: t in OutlierTimes(k, lim, above) <==> exists x :: x in k && x.t == t && Outside(x, lim, above)
    decreases |k|
  {
    if |k| > 0 {
      OutlierTimesMembers(k[1..], lim, above);
      assert forall x :: x in k <==> x == k[0] || x in k[1..];
    }
  }

  predicate Outside(x: Sample, lim: Value, above: bool) {
    x.z.Num? && lim.Num? && (if above then x.z.v > lim.v else x.z.v < lim.v)
  }

  /** `[day(min(times)), day(max(times))]`, or nothing when there are no times. */
  function DayPair(ts: seq<int>): (p: seq<int>)
    ensures |p| == if |ts| == 0 then 0 else 2
  {
    if |ts| == 0 then [] else [Day(MinOf(ts)), Day(MaxOf(ts))]
  }

  /** The pair is ordered and every time's day lies within it. */
  lemma DayPairBounds(ts: seq<int>)
    requires |ts| > 0
    ensures var p := DayPair(ts); p[0] <= p[1] && forall i :: 0 <= i < |ts| ==> p[0] <= Day(ts[i]) <= p[1]
  {
    forall i | 0 <= i < |ts| ensures Day(MinOf(ts)) <= Day(ts[i]) <= Day(MaxOf(ts)) {
      DayMonotone(MinOf(ts), ts[i]);
      DayMonotone(ts[i], MaxOf(ts));
    }
  }

  /** What one group adds to `time_exclude`: the pair for the values above the
      envelope, then the pair for the values below it. */
  function GroupWindows(g: seq<Sample>, sd: seq<real> -> NonNeg): seq<int> {
    var k := Kept(g);
    var vs := Vals(k);
    DayPair(OutlierTimes(k, UpperLimit(vs, sd), true)) + DayPair(OutlierTimes(k, LowerLimit(vs, sd), false))
  }

  /** `time_exclude` after the loop over all groups. */
  function WindowsOf(sd: seq<real> -> NonNeg): seq<Sample> -> seq<int> {
    g => GroupWindows(g, sd)
  }

  function EnvelopeOf(sd: seq<real> -> NonNeg): seq<Sample> -> Envelope {
    g => GroupEnvelope(g, sd)
  }

  function TimeExclude(gs: seq<seq<Sample>>, sd: seq<real> -> NonNeg): seq<int> {
    ConcatPrefix(WindowsOf(sd), gs, |gs|)
  }

  /** `time_exclude` is a list of pairs, each ordered. */
  predicate OrderedPairs(p: seq<int>) {
    |p| % 2 == 0 && forall k :: 0 <= k < |p| / 2 ==> p[2 * k] <= p[2 * k + 1]
  }

  lemma OrderedPairsConcat(a: seq<int>, b: seq<int>)
    requires OrderedPairs(a) && OrderedPairs(b)
    ensures OrderedPairs(a + b)
  {
    var c := a + b;
    forall k | 0 <= k < |c| / 2 ensures c[2 * k] <= c[2 * k + 1] {
      if 2 * k < |a| {
        assert c[2 * k] == a[2 * k] && c[2 * k + 1] == a[2 * k + 1];
      } else {
        var j := k - |a| / 2;
        assert c[2 * k] == b[2 * j] && c[2 * k + 1] == b[2 * j + 1];
      }
    }
  }

  /** `time_exclude` is a list of ordered pairs. */
  lemma TimeExcludePairs(gs: seq<seq<Sample>>, sd: seq<real> -> NonNeg)
    ensures OrderedPairs(TimeExclude(gs, sd))
  {
    forall g: seq<Sample> ensures OrderedPairs(GroupWindows(g, sd)) {
      GroupWindowsPairs(g, sd);
    }
    ConcatPrefixPairs(WindowsOf(sd), gs, |gs|);
  }

  lemma {:induction false} ConcatPrefixPairs(f: seq<Sample> -> seq<int>, gs: seq<seq<Sample>>, n: nat)
    requires n <= |gs|
    requires forall g :: OrderedPairs(f(g))
    ensures OrderedPairs(ConcatPrefix(f, gs, n))
    decreases n
  {
    if n > 0 {
      ConcatPrefixPairs(f, gs, n - 1);
      OrderedPairsConcat(ConcatPrefix(f, gs, n - 1), f(gs[n - 1]));
    }
  }

  lemma GroupWindowsPairs(g: seq<Sample>, sd: seq<real> -> NonNeg)
    ensures OrderedPairs(GroupWindows(g, sd))
  {
    var k := Kept(g);
    var vs := Vals(k);
    var ut := OutlierTimes(k, UpperLimit(vs, sd), true);
    var lt := OutlierTimes(k, LowerLimit(vs, sd), false);
    var up := DayPair(ut);
    var lo := DayPair(lt);
    if |ut| > 0 {
      DayPairBounds(ut);
    }
    if |lt| > 0 {
      DayPairBounds(lt);
    }
    assert OrderedPairs(up) && OrderedPairs(lo);
    OrderedPairsConcat(up, lo);
  }


  /** Every value above mean + 3 std has its day inside the first pair the group
      adds; a group with fewer than two values adds nothing. */
  lemma GroupWindowsCoverOutliers(g: seq<Sample>, sd: seq<real> -> NonNeg, x: Sample)
    requires x in g && x.z.Num?
    ensures var u := UpperLimit(Vals(Kept(g)), sd);
      var w := GroupWindows(g, sd);
      u.Num? && x.z.v > u.v ==> |w| >= 2 && w[0] <= Day(x.t) <= w[1]
  {
    var k := Kept(g);
    var u := UpperLimit(Vals(k), sd);
    var ts := OutlierTimes(k, u, true);
    FilterMembers(g, NotNaN);
    OutlierTimesMembers(k, u, true);
    if Outside(x, u, true) {
      assert x.t in ts;
      var i :| 0 <= i < |ts| && ts[i] == x.t;
      DayPairBounds(ts);
    }
  }

  /** Every value below mean - 3 std has its day inside the last pair the
      group adds. */
  lemma GroupWindowsCoverLowOutliers(g: seq<Sample>, sd: seq<real> -> NonNeg, x: Sample)
    requires x in g && x.z.Num?
    ensures var l := LowerLimit(Vals(Kept(g)), sd);
      var w := GroupWindows(g, sd);
      l.Num? && x.z.v < l.v ==> |w| >= 2 && w[|w| - 2] <= Day(x.t) <= w[|w| - 1]
  {
    var k := Kept(g);
    var l := LowerLimit(Vals(k), sd);
    var ts := OutlierTimes(k, l, false);
    FilterMembers(g, NotNaN);
    OutlierTimesMembers(k, l, false);
    if Outside(x, l, false) {
      assert x.t in ts;
      var i :| 0 <= i < |ts| && ts[i] == x.t;
      DayPairBounds(ts);
      var up := DayPair(OutlierTimes(k, UpperLimit(Vals(k), sd), true));
      var w := up + DayPair(ts);
      assert w[|w| - 2] == DayPair(ts)[0] && w[|w| - 1] == DayPair(ts)[1];
    }
  }

  lemma SmallGroupNoWindows(g: seq<Sample>, sd: seq<real> -> NonNeg)
    requires |Kept(g)| < 2
    ensures GroupWindows(g, sd) == []
  {
    var k := Kept(g);
    var vs := Vals(k);
    OutliersNeedLimit(k, UpperLimit(vs, sd), true);
    OutliersNeedLimit(k, LowerLimit(vs, sd), false);
  }

  lemma {:induction false} OutliersNeedLimit(k: seq<Sample>, lim: Value, above: bool)
    requires lim == NaN
    ensures OutlierTimes(k, lim, above) == []
    decreases |k|
  {
    if |k| > 0 {
      OutliersNeedLimit(k[1..], lim, above);
    }
  }

  /** `if len(times) != 0:` append the day of the earliest and of the latest time. */
  method AppendDayPair(te: seq<int>, times: seq<int>) returns (r: seq<int>)
    ensures r == te + DayPair(times)
  {
    r := te;
    if |times| != 0 {
      r := r + [Day(MinOf(times)), Day(MaxOf(times))];
    }
  }

  /** The outlier part of the loop body: the pair for the values above mean + 3 std,
      then the pair for the values below mean - 3 std. */
  method AppendGroupWindows(te: seq<int>, g: seq<Sample>, sd: seq<real> -> NonNeg) returns (r: seq<int>)
    ensures r == te + GroupWindows(g, sd)
  {
    var k := Kept(g);
    var nval := Vals(k);
    var gtime := OutlierTimes(k, UpperLimit(nval, sd), true);
    r := AppendDayPair(te, gtime);
    var ltime := OutlierTimes(k, LowerLimit(nval, sd), false);
    r := AppendDayPair(r, ltime);
  }

  /** The group loop: one envelope per group (the seven parallel lists `l_arr`,
      `y_avg`, `n_avg`, `n_min`, `n_max`, `n0_std` and `n1_std` are kept as one
      list of per-group records), and `time_exclude` as the concatenation of
      every group's date pairs. */
  method Envelopes(gs: seq<seq<Sample>>, sd: seq<real> -> NonNeg)
    returns (envs: seq<Envelope>, timeExclude: seq<int>)
    ensures |envs| == |gs| && forall i :: 0 <= i < |gs| ==> envs[i] == GroupEnvelope(gs[i], sd)
    ensures timeExclude == TimeExclude(gs, sd) && OrderedPairs(timeExclude)
  {
    envs, timeExclude := [], [];
    var ii := 0;
    while ii < |gs|
      invariant 0 <= ii <= |gs|
      invariant envs == MapPrefix(EnvelopeOf(sd), gs, ii)
      invariant timeExclude == ConcatPrefix(WindowsOf(sd), gs, ii)
    {
      ghost var te0 := timeExclude;
      envs := envs + [GroupEnvelope(gs[ii], sd)];
      timeExclude := AppendGroupWindows(timeExclude, gs[ii], sd);
      EnvelopesStep(gs, sd, ii, te0);
      ii := ii + 1;
    }
    MapPrefixElements(EnvelopeOf(sd), gs, |gs|);
    TimeExcludePairs(gs, sd);
  }

  lemma EnvelopesStep(gs: seq<seq<Sample>>, sd: seq<real> -> NonNeg, i: nat, te: seq<int>)
    requires i < |gs|
    ensures MapPrefix(EnvelopeOf(sd), gs, i + 1) == MapPrefix(EnvelopeOf(sd), gs, i) + [GroupEnvelope(gs[i], sd)]
    ensures te == ConcatPrefix(WindowsOf(sd), gs, i) ==>
      te + GroupWindows(gs[i], sd) == ConcatPrefix(WindowsOf(sd), gs, i + 1)
  {
    assert EnvelopeOf(sd)(gs[i]) == GroupEnvelope(gs[i], sd);
    assert WindowsOf(sd)(gs[i]) == GroupWindows(gs[i], sd);
  }
}
