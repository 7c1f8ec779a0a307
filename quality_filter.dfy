/** The sample-rejection chain shared by the plotting and data-range
    scripts. A variable's data are three parallel numpy arrays: timestamps
    `t`, pressures `y` and values `z`. Every stage computes one boolean
    mask and indexes all three arrays with it, so the arrays stay aligned
    and every stage keeps an order-preserving selection of the samples. */
module QualityFilter {
  import opened Collections

  /** A floating-point value of a science variable: a number or NaN. */
  datatype Value = Num(v: real) | NaN

  /** IEEE `a != b`: NaN differs from everything, itself included. */
  predicate Differs(a: Value, b: Value) {
    a.NaN? || b.NaN? || a.v != b.v
  }

  /** Magnitude above which a value is an extreme value. */
  const ExtremeLimit: real := 10000000.0

  /** Parallel arrays of one variable. */
  datatype Series = Series(t: seq<int>, y: seq<real>, z: seq<Value>)

  predicate Aligned(s: Series) {
    |s.t| == |s.y| == |s.z|
  }

  /** One row of the parallel arrays. */
  datatype Sample = Sample(t: int, y: real, z: Value)

  /** The rows of aligned parallel arrays. */
  function Samples(s: Series): (r: seq<Sample>)
    requires Aligned(s)
    ensures |r| == |s.t|
    ensures forall i :: 0 <= i < |r| ==> r[i] == Sample(s.t[i], s.y[i], s.z[i])
  {
    seq(|s.t|, i requires 0 <= i < |s.t| => Sample(s.t[i], s.y[i], s.z[i]))
  }

  /** The same boolean mask applied to all three arrays. */
  function Mask(s: Series, m: seq<bool>): (r: Series)
    requires Aligned(s) && |m| == |s.t|
    ensures Aligned(r) && |r.t| == CountTrue(m)
    ensures Samples(r) == Keep(Samples(s), m)
  {
    MaskRows(s, m);
    Series(Keep(s.t, m), Keep(s.y, m), Keep(s.z, m))
  }

  lemma {:induction false} MaskRows(s: Series, m: seq<bool>)
    requires Aligned(s) && |m| == |s.t|
    ensures var r := Series(Keep(s.t, m), Keep(s.y, m), Keep(s.z, m));
      Aligned(r) && Samples(r) == Keep(Samples(s), m)
    decreases |m|
  {
    if |m| > 0 {
      var tail := Series(s.t[1..], s.y[1..], s.z[1..]);
      MaskRows(tail, m[1..]);
      SamplesCons(s);
      var rt := Series(Keep(tail.t, m[1..]), Keep(tail.y, m[1..]), Keep(tail.z, m[1..]));
      if m[0] {
        var r := Series([s.t[0]] + rt.t, [s.y[0]] + rt.y, [s.z[0]] + rt.z);
        SamplesCons(r);
        assert r.t[1..] == rt.t && r.y[1..] == rt.y && r.z[1..] == rt.z;
      }
    }
  }

  /** The rows of non-empty arrays: the first row, then the rows of the tails. */
  lemma SamplesCons(s: Series)
    requires Aligned(s) && |s.t| > 0
    ensures Samples(s) == [Sample(s.t[0], s.y[0], s.z[0])] + Samples(Series(s.t[1..], s.y[1..], s.z[1..]))
  {
  }

  /** What decides whether a sample survives a stage. */
  datatype Criterion =
    | NotFill(fv: Value)              // z != fill value
    | NotNaN                          // ~isnan(z)
    | NotExtreme                      // -1e7 <= z <= 1e7
    | WithinRange(lo: real, hi: real) // lo <= z <= hi
    | OutsideWindow(ts: int, te: int) // t < ts or t > te
    | NotAt(time: int)                // t != time
    | ShallowerThan(zdbar: real)      // y < zdbar
    | InDepthBin(top: int, bottom: int)    // top <= y < bottom

  predicate Passes(c: Criterion, x: Sample) {
    match c
    case NotFill(fv) => Differs(x.z, fv)
    case NotNaN => x.z.Num?
    case NotExtreme => x.z.Num? && -ExtremeLimit <= x.z.v <= ExtremeLimit
    case WithinRange(lo, hi) => x.z.Num? && lo <= x.z.v <= hi
    case OutsideWindow(ts, te) => x.t < ts || x.t > te
    case NotAt(time) => x.t != time
    case ShallowerThan(zdbar) => x.y < zdbar
    case InDepthBin(top, bottom) => top as real <= x.y < bottom as real
  }

  /** The reference meaning of a stage: the samples passing `c`, in order. */
  function Filter(xs: seq<Sample>, c: Criterion): seq<Sample>
    decreases |xs|
  {
    if |xs| == 0 then []
    else (if Passes(c, xs[0]) then [xs[0]] else []) + Filter(xs[1..], c)
  }

  /** Several stages in a row. */
  function FilterAll(xs: seq<Sample>, cs: seq<Criterion>): seq<Sample>
    decreases |cs|
  {
    if |cs| == 0 then xs else FilterAll(Filter(xs, cs[0]), cs[1..])
  }

  /** A sample survives exactly when it was there and passes. */
  lemma {:induction false} FilterMembers(xs: seq<Sample>, c: Criterion)
    ensures forall x :: x in Filter(xs, c) <==> x in xs && Passes(c, x)
    ensures |Filter(xs, c)| <= |xs|
    decreases |xs|
  {
    if |xs| > 0 {
      FilterMembers(xs[1..], c);
      assert xs == [xs[0]] + xs[1..];
    }
  }

  /** A stage changes nothing exactly when every sample passes it. */
  lemma {:induction false} FilterIdentity(xs: seq<Sample>, c: Criterion)
    ensures Filter(xs, c) == xs <==> forall i :: 0 <= i < |xs| ==> Passes(c, xs[i])
    decreases |xs|
  {
    if |xs| > 0 {
      FilterIdentity(xs[1..], c);
      FilterMembers(xs[1..], c);
      assert xs == [xs[0]] + xs[1..];
      if !Passes(c, xs[0]) {
        assert |Filter(xs, c)| < |xs|;
      }
      if forall i :: 0 <= i < |xs| ==> Passes(c, xs[i]) {
        assert forall i :: 0 <= i < |xs[1..]| ==> Passes(c, xs[1..][i]) by {
          forall i | 0 <= i < |xs[1..]| ensures Passes(c, xs[1..][i]) {
            assert xs[1..][i] == xs[i + 1];
          }
        }
      }
      if Filter(xs, c) == xs {
        assert Filter(xs[1..], c) == xs[1..];
        forall i | 0 <= i < |xs| ensures Passes(c, xs[i]) {
          if i > 0 { assert xs[i] == xs[1..][i - 1]; }
        }
      }
    }
  }

  /** A stage applied twice is the stage applied once. */
  lemma {:induction false} FilterIdempotent(xs: seq<Sample>, c: Criterion)
    ensures Filter(Filter(xs, c), c) == Filter(xs, c)
  {
    var f := Filter(xs, c);
    FilterMembers(xs, c);
    assert forall i :: 0 <= i < |f| ==> f[i] in f;
    FilterIdentity(f, c);
  }

  lemma {:induction false} FilterConcat(a: seq<Sample>, b: seq<Sample>, c: Criterion)
    ensures Filter(a + b, c) == Filter(a, c) + Filter(b, c)
    decreases |a|
  {
    if |a| > 0 {
      assert (a + b)[1..] == a[1..] + b;
      FilterConcat(a[1..], b, c);
    } else {
      assert a + b == b;
    }
  }

  /** Stages commute: the order in which two filters run does not matter. */
  lemma {:induction false} FilterCommute(xs: seq<Sample>, a: Criterion, b: Criterion)
    ensures Filter(Filter(xs, a), b) == Filter(Filter(xs, b), a)
    decreases |xs|
  {
    if |xs| > 0 {
      var x := [xs[0]];
      assert xs == x + xs[1..];
      FilterConcat(x, xs[1..], a);
      FilterConcat(x, xs[1..], b);
      FilterConcat(Filter(x, a), Filter(xs[1..], a), b);
      FilterConcat(Filter(x, b), Filter(xs[1..], b), a);
      FilterCommute(xs[1..], a, b);
      assert Filter(Filter(x, a), b) == Filter(Filter(x, b), a);
    }
  }

  /** A sample survives a run of stages exactly when it passes every one. */
  lemma {:induction false} FilterAllMembers(xs: seq<Sample>, cs: seq<Criterion>)
    ensures forall x :: x in FilterAll(xs, cs) <==> x in xs && forall i :: 0 <= i < |cs| ==> Passes(cs[i], x)
    ensures |FilterAll(xs, cs)| <= |xs|
    decreases |cs|
  {
    if |cs| > 0 {
      FilterMembers(xs, cs[0]);
      FilterAllMembers(Filter(xs, cs[0]), cs[1..]);
      forall x ensures x in FilterAll(xs, cs) <==> x in xs && forall i :: 0 <= i < |cs| ==> Passes(cs[i], x) {
        if x in xs && forall i :: 0 <= i < |cs| ==> Passes(cs[i], x) {
          assert forall i :: 0 <= i < |cs[1..]| ==> Passes(cs[1..][i], x) by {
            forall i | 0 <= i < |cs[1..]| ensures Passes(cs[1..][i], x) {
              assert cs[1..][i] == cs[i + 1];
            }
          }
        }
        if x in FilterAll(xs, cs) {
          forall i | 0 <= i < |cs| ensures Passes(cs[i], x) {
            if i > 0 { assert cs[i] == cs[1..][i - 1]; }
          }
        }
      }
    }
  }

  /** Running two lists of stages one after the other is running their concatenation. */
  lemma {:induction false} FilterAllAppend(xs: seq<Sample>, a: seq<Criterion>, b: seq<Criterion>)
    ensures FilterAll(FilterAll(xs, a), b) == FilterAll(xs, a + b)
    decreases |a|
  {
    if |a| == 0 {
      assert a + b == b;
    } else {
      assert (a + b)[0] == a[0] && (a + b)[1..] == a[1..] + b;
      FilterAllAppend(Filter(xs, a[0]), a[1..], b);
    }
  }

  /** The mask `c` computes over the rows of `s`. */
  function PassMask(xs: seq<Sample>, c: Criterion): (m: seq<bool>)
    ensures |m| == |xs| && forall i :: 0 <= i < |xs| ==> m[i] == Passes(c, xs[i])
  {
    seq(|xs|, i requires 0 <= i < |xs| => Passes(c, xs[i]))
  }

  lemma {:induction false} KeepPassMask(xs: seq<Sample>, c: Criterion)
    ensures Keep(xs, PassMask(xs, c)) == Filter(xs, c)
    decreases |xs|
  {
    if |xs| > 0 {
      assert PassMask(xs, c)[1..] == PassMask(xs[1..], c);
      KeepPassMask(xs[1..], c);
    }
  }

  /** One stage on the parallel arrays: compute the mask of `c` and index all arrays with it. */
  function Stage(s: Series, c: Criterion): (r: Series)
    requires Aligned(s)
    ensures Aligned(r) && Samples(r) == Filter(Samples(s), c)
  {
    KeepPassMask(Samples(s), c);
    Mask(s, PassMask(Samples(s), c))
  }

  /** `fv_ind = z != fv`. */
  function RejectFill(s: Series, fv: Value): (r: Series)
    requires Aligned(s)
    ensures Aligned(r) && Samples(r) == Filter(Samples(s), NotFill(fv))
  {
    Stage(s, NotFill(fv))
  }

  /** `nan_ind = ~np.isnan(z)`, computed on the already fill-free values. */
  function RejectNaN(s: Series): (r: Series)
    requires Aligned(s)
    ensures Aligned(r) && Samples(r) == Filter(Samples(s), NotNaN)
  {
    Stage(s, NotNaN)
  }

  /** `ev_ind = reject_extreme_values(z)`: values within [-1e7, 1e7]. */
  function RejectExtreme(s: Series): (r: Series)
    requires Aligned(s)
    ensures Aligned(r) && Samples(r) == Filter(Samples(s), NotExtreme)
  {
    Stage(s, NotExtreme)
  }

  /** The global-range stage runs only when both bounds are numbers. */
  function GlobalRangeCriteria(lo: Option<real>, hi: Option<real>): (cs: seq<Criterion>)
    ensures |cs| <= 1
    ensures |cs| == 1 <==> lo.Some? && hi.Some?
    ensures |cs| == 1 ==> cs[0] == WithinRange(lo.value, hi.value)
  {
    if lo.Some? && hi.Some? then [WithinRange(lo.value, hi.value)] else []
  }

  /** `gr_ind = reject_global_ranges(z, global_min, global_max)` when both bounds are
      numbers; otherwise the arrays pass through unchanged. */
  function RejectOutsideGlobalRange(s: Series, lo: Option<real>, hi: Option<real>): (r: Series)
    requires Aligned(s)
    ensures Aligned(r) && Samples(r) == FilterAll(Samples(s), GlobalRangeCriteria(lo, hi))
    ensures !(lo.Some? && hi.Some?) ==> r == s
  {
    if lo.Some? && hi.Some? then Stage(s, WithinRange(lo.value, hi.value)) else s
  }

  /** The stages of the erroneous-data chain, in order. */
  function ErroneousCriteria(fv: Value, lo: Option<real>, hi: Option<real>): seq<Criterion>
  {
    [NotFill(fv), NotNaN, NotExtreme] + GlobalRangeCriteria(lo, hi)
  }

  lemma FilterAllThree(xs: seq<Sample>, a: Criterion, b: Criterion, c: Criterion)
    ensures FilterAll(xs, [a, b, c]) == Filter(Filter(Filter(xs, a), b), c)
  {
    assert [a, b, c][0] == a && [a, b, c][1..] == [b, c];
    assert [b, c][0] == b && [b, c][1..] == [c];
    assert FilterAll(xs, [a, b, c]) == FilterAll(Filter(xs, a), [b, c]);
    assert FilterAll(Filter(xs, a), [b, c]) == FilterAll(Filter(Filter(xs, a), b), [c]);
    assert [c][0] == c && [c][1..] == [];
    assert FilterAll(Filter(Filter(xs, a), b), [c]) == Filter(Filter(Filter(xs, a), b), c);
  }

  /** Fill values, then NaNs, then extreme values, then the optional global range. */
  function RejectErroneous(s: Series, fv: Value, lo: Option<real>, hi: Option<real>): (r: Series)
    requires Aligned(s)
    ensures Aligned(r) && Samples(r) == FilterAll(Samples(s), ErroneousCriteria(fv, lo, hi))
  {
    var c := RejectExtreme(RejectNaN(RejectFill(s, fv)));
    FilterAllThree(Samples(s), NotFill(fv), NotNaN, NotExtreme);
    FilterAllAppend(Samples(s), [NotFill(fv), NotNaN, NotExtreme], GlobalRangeCriteria(lo, hi));
    RejectOutsideGlobalRange(c, lo, hi)
  }

  /** What survives the erroneous-data chain: every remaining value is a number, differs
      from the fill value, is not extreme and lies in the global range when one is known;
      every sample with those properties survives. */
  lemma ErroneousChainMeaning(s: Series, fv: Value, lo: Option<real>, hi: Option<real>)
    requires Aligned(s)
    ensures var r := RejectErroneous(s, fv, lo, hi);
      forall x :: x in Samples(r) <==>
        && x in Samples(s) && x.z.Num? && Differs(x.z, fv)
        && -ExtremeLimit <= x.z.v <= ExtremeLimit
        && (lo.Some? && hi.Some? ==> lo.value <= x.z.v <= hi.value)
  {
    var c := RejectExtreme(RejectNaN(RejectFill(s, fv)));
    assert RejectErroneous(s, fv, lo, hi) == RejectOutsideGlobalRange(c, lo, hi);
    ThreeStageMembers(s, fv);
    GlobalRangeMembers(c, lo, hi);
  }

  /** What survives the global-range stage. */
  lemma GlobalRangeMembers(c: Series, lo: Option<real>, hi: Option<real>)
    requires Aligned(c)
    ensures forall x :: x in Samples(RejectOutsideGlobalRange(c, lo, hi)) <==>
      x in Samples(c) && (lo.Some? && hi.Some? ==> x.z.Num? && lo.value <= x.z.v <= hi.value)
  {
    if lo.Some? && hi.Some? {
      FilterMembers(Samples(c), WithinRange(lo.value, hi.value));
    }
  }

  /** What survives the first three stages. */
  lemma ThreeStageMembers(s: Series, fv: Value)
    requires Aligned(s)
    ensures forall x :: x in Samples(RejectExtreme(RejectNaN(RejectFill(s, fv)))) <==>
      x in Samples(s) && x.z.Num? && Differs(x.z, fv) && -ExtremeLimit <= x.z.v <= ExtremeLimit
  {
    var a := RejectFill(s, fv);
    var b := RejectNaN(a);
    FilterMembers(Samples(s), NotFill(fv));
    FilterMembers(Samples(a), NotNaN);
    FilterMembers(Samples(b), NotExtreme);
  }

  /** `y_ind = y < zdbar` when a depth cutoff is given; the identity otherwise. */
  function RejectDeeper(s: Series, zdbar: Option<real>): (r: Series)
    requires Aligned(s)
    ensures Aligned(r)
    ensures zdbar.None? ==> r == s
    ensures zdbar.Some? ==> Samples(r) == Filter(Samples(s), ShallowerThan(zdbar.value))
  {
    if zdbar.None? then s else Stage(s, ShallowerThan(zdbar.value))
  }

  /** The depth cutoff keeps exactly the samples shallower than the cutoff. */
  lemma DepthCutoffMeaning(s: Series, zdbar: real)
    requires Aligned(s)
    ensures forall x :: x in Samples(RejectDeeper(s, Some(zdbar))) <==> x in Samples(s) && x.y < zdbar
  {
    FilterMembers(Samples(s), ShallowerThan(zdbar));
  }

  // ---------------------------------------------------------------
  // Skip rules

  datatype SkipReason = NoData | AllNaN | AllFill

  function CountNaN(z: seq<Value>): (n: nat)
    ensures n <= |z|
    ensures n == |z| <==> forall i :: 0 <= i < |z| ==> z[i].NaN?
  {
    if |z| == 0 then 0 else (if z[0].NaN? then 1 else 0) + CountNaN(z[1..])
  }

  /** `len(z[z != fv])`. */
  function CountDiffering(z: seq<Value>, fv: Value): (n: nat)
    ensures n <= |z|
    ensures n == 0 <==> forall i :: 0 <= i < |z| ==> !Differs(z[i], fv)
  {
    if |z| == 0 then 0 else (if Differs(z[0], fv) then 1 else 0) + CountDiffering(z[1..], fv)
  }

  /** The checks before the chain: no timestamps at all, `sum(isnan(z)) == len(z)`,
      then `len(z[z != fv]) == 0`, in this order. */
  function SkipCheck(s: Series, fv: Value): (r: Option<SkipReason>)
    ensures r == Some(NoData) <==> |s.t| == 0
    ensures r == Some(AllNaN) <==> |s.t| > 0 && forall i :: 0 <= i < |s.z| ==> s.z[i].NaN?
    ensures r == Some(AllFill) <==>
      && |s.t| > 0 && (exists i :: 0 <= i < |s.z| && s.z[i].Num?)
      && forall i :: 0 <= i < |s.z| ==> !Differs(s.z[i], fv)
    ensures r.None? <==>
      && |s.t| > 0 && (exists i :: 0 <= i < |s.z| && s.z[i].Num?)
      && (exists i :: 0 <= i < |s.z| && Differs(s.z[i], fv))
  {
    if |s.t| < 1 then Some(NoData)
    else if CountNaN(s.z) == |s.z| then Some(AllNaN)
    else if CountDiffering(s.z, fv) == 0 then Some(AllFill)
    else None
  }

  /** A stage that no sample passes leaves nothing. */
  lemma {:induction false} FilterNone(xs: seq<Sample>, c: Criterion)
    requires forall i :: 0 <= i < |xs| ==> !Passes(c, xs[i])
    ensures Filter(xs, c) == []
    decreases |xs|
  {
    if |xs| > 0 {
      assert forall i :: 0 <= i < |xs[1..]| ==> xs[1..][i] == xs[i + 1];
      FilterNone(xs[1..], c);
    }
  }

  /** Values that are all NaN or fill leave nothing after the chain: the fill stage
      keeps only NaNs, which the NaN stage then removes. */
  lemma NaNOrFillLeavesNothing(s: Series, fv: Value, lo: Option<real>, hi: Option<real>)
    requires Aligned(s)
    requires forall i :: 0 <= i < |s.z| ==> s.z[i].NaN? || !Differs(s.z[i], fv)
    ensures |RejectErroneous(s, fv, lo, hi).t| == 0
  {
    var xs := Samples(s);
    var a := Filter(xs, NotFill(fv));
    FilterMembers(xs, NotFill(fv));
    forall i | 0 <= i < |a| ensures !Passes(NotNaN, a[i]) {
      assert a[i] in a;
      var j :| 0 <= j < |xs| && xs[j] == a[i];
      assert a[i].z == s.z[j];
    }
    FilterNone(a, NotNaN);
    FilterAllThree(xs, NotFill(fv), NotNaN, NotExtreme);
    FilterAllAppend(xs, [NotFill(fv), NotNaN, NotExtreme], GlobalRangeCriteria(lo, hi));
    assert Filter([], NotExtreme) == [];
    if lo.Some? && hi.Some? {
      assert Filter([], WithinRange(lo.value, hi.value)) == [];
    }
  }

  /** A variable that passes the skip checks can still lose every sample in the chain:
      values that are all NaN or fill, with at least one of each, pass the checks and
      leave nothing. */
  lemma SkipCheckDoesNotPromiseData(s: Series, fv: Value, lo: Option<real>, hi: Option<real>)
    requires Aligned(s)
    requires exists i :: 0 <= i < |s.z| && s.z[i].NaN?
    requires exists i :: 0 <= i < |s.z| && s.z[i].Num?
    requires forall i :: 0 <= i < |s.z| ==> s.z[i].NaN? || !Differs(s.z[i], fv)
    ensures SkipCheck(s, fv).None?
    ensures |RejectErroneous(s, fv, lo, hi).t| == 0
  {
    var k :| 0 <= k < |s.z| && s.z[k].NaN?;
    assert Differs(s.z[k], fv);
    NaNOrFillLeavesNothing(s, fv, lo, hi);
  }

  // ---------------------------------------------------------------
  // NaN mask built from the unfiltered array

  /** As written in two scripts: `nan_ind = ~np.isnan(x)` is computed on the values
      before the fill stage and then used to index the fill-free arrays; numpy raises
      an IndexError when the lengths differ. */
  function RejectNaNUnfilteredMask(nofv: Series, original: seq<Value>): (r: Option<Series>)
    requires Aligned(nofv)
    ensures r.Some? <==> |original| == |nofv.t|
  {
    if |original| != |nofv.t| then None
    else Some(Mask(nofv, seq(|original|, i requires 0 <= i < |original| => original[i].Num?)))
  }

  /** A stage that rejects some sample shortens the arrays. */
  lemma {:induction false} FilterStrict(xs: seq<Sample>, c: Criterion, k: nat)
    requires k < |xs| && !Passes(c, xs[k])
    ensures |Filter(xs, c)| < |xs|
    decreases |xs|
  {
    FilterMembers(xs, c);
    if k > 0 {
      FilterStrict(xs[1..], c, k - 1);
    } else {
      FilterMembers(xs[1..], c);
    }
  }

  /** One fill value among the values is enough to make the as-written NaN stage fail;
      the aligned NaN stage is defined on every input. */
  lemma UnfilteredNaNMaskFails(s: Series, fv: Value, k: nat)
    requires Aligned(s) && k < |s.z| && !Differs(s.z[k], fv)
    ensures RejectNaNUnfilteredMask(RejectFill(s, fv), s.z).None?
  {
    FilterStrict(Samples(s), NotFill(fv), k);
  }

  // ---------------------------------------------------------------
  // Exclusion windows from the review database

  function MaxOf(t: seq<int>): (m: int)
    requires |t| > 0
    ensures (forall i :: 0 <= i < |t| ==> t[i] <= m) && m in t
  {
    if |t| == 1 then t[0]
    else var rest := MaxOf(t[1..]); if t[0] >= rest then t[0] else rest
  }

  function MinOf(t: seq<int>): (m: int)
    requires |t| > 0
    ensures (forall i :: 0 <= i < |t| ==> m <= t[i]) && m in t
  {
    if |t| == 1 then t[0]
    else var rest := MinOf(t[1..]); if t[0] <= rest then t[0] else rest
  }

  /** An exclusion row: the closed window `[ts, te]` of suspect times. */
  datatype Window = Window(ts: int, te: int)

  function WindowCriteria(rows: seq<Window>): (cs: seq<Criterion>)
    ensures |cs| == |rows| && forall i :: 0 <= i < |rows| ==> cs[i] == OutsideWindow(rows[i].ts, rows[i].te)
  {
    if |rows| == 0 then [] else [OutsideWindow(rows[0].ts, rows[0].te)] + WindowCriteria(rows[1..])
  }

  /** One step of the exclusion loop: a window that lies wholly after or before the
      data is skipped, otherwise `(t < ts) | (t > te)` is applied. `t.max()` on an
      empty array is a ValueError, modelled as None. */
  function ExcludeOne(s: Series, w: Window): (r: Option<Series>)
    requires Aligned(s)
    ensures r.Some? <==> |s.t| > 0
    ensures r.Some? ==> Aligned(r.value) && Samples(r.value) == Filter(Samples(s), OutsideWindow(w.ts, w.te))
  {
    if |s.t| == 0 then None
    else if MaxOf(s.t) < w.ts || MinOf(s.t) > w.te then
      FilterIdentity(Samples(s), OutsideWindow(w.ts, w.te));
      Some(s)
    else Some(Stage(s, OutsideWindow(w.ts, w.te)))
  }

  /** The exclusion loop over all rows, in order. */
  function ExcludeRows(s: Series, rows: seq<Window>): (r: Option<Series>)
    requires Aligned(s)
    ensures r.Some? ==> Aligned(r.value)
    decreases |rows|
  {
    if |rows| == 0 then Some(s)
    else match ExcludeOne(s, rows[0])
      case None => None
      case Some(s1) => ExcludeRows(s1, rows[1..])
  }

  /** When the loop completes, it has removed exactly the union of the windows. */
  lemma {:induction false} ExcludeRowsRemovesUnion(s: Series, rows: seq<Window>)
    requires Aligned(s) && ExcludeRows(s, rows).Some?
    ensures Samples(ExcludeRows(s, rows).value) == FilterAll(Samples(s), WindowCriteria(rows))
    decreases |rows|
  {
    if |rows| > 0 {
      var s1 := ExcludeOne(s, rows[0]).value;
      ExcludeRowsRemovesUnion(s1, rows[1..]);
      assert WindowCriteria(rows)[1..] == WindowCriteria(rows[1..]);
    }
  }

  /** Removing the first `k` windows is removing the first and then the `k - 1` after it. */
  lemma WindowPrefixStep(xs: seq<Sample>, rows: seq<Window>, k: nat)
    requires 1 <= k <= |rows|
    ensures FilterAll(xs, WindowCriteria(rows[..k]))
      == FilterAll(Filter(xs, OutsideWindow(rows[0].ts, rows[0].te)), WindowCriteria(rows[1..][..k - 1]))
  {
    assert rows[..k][0] == rows[0] && rows[..k][1..] == rows[1..][..k - 1];
  }

  /** The loop fails exactly when some prefix of the rows has already removed every sample
      before another row is read. */
  lemma {:induction false} ExcludeRowsDefined(s: Series, rows: seq<Window>)
    requires Aligned(s)
    ensures ExcludeRows(s, rows).None? <==> EmptiedBefore(s, rows)
    decreases |rows|
  {
    if |rows| > 0 {
      if |s.t| == 0 {
        EmptyAtStart(s, rows);
      } else {
        var s1 := ExcludeOne(s, rows[0]).value;
        ExcludeRowsDefined(s1, rows[1..]);
        EmptiedStep(s, rows);
      }
    }
  }

  /** Some row is read after the earlier rows have removed every sample. */
  predicate EmptiedBefore(s: Series, rows: seq<Window>)
    requires Aligned(s)
  {
    exists k :: 0 <= k < |rows| && |FilterAll(Samples(s), WindowCriteria(rows[..k]))| == 0
  }

  lemma EmptyAtStart(s: Series, rows: seq<Window>)
    requires Aligned(s) && |rows| > 0 && |s.t| == 0
    ensures EmptiedBefore(s, rows)
  {
    assert WindowCriteria(rows[..0]) == [];
    assert |FilterAll(Samples(s), WindowCriteria(rows[..0]))| == 0;
  }

  /** Emptied before some row of `rows` exactly when the first window leaves
      data emptied before some later row. */
  lemma EmptiedStep(s: Series, rows: seq<Window>)
    requires Aligned(s) && |rows| > 0 && |s.t| > 0
    ensures EmptiedBefore(s, rows) <==> EmptiedBefore(ExcludeOne(s, rows[0]).value, rows[1..])
  {
    var xs := Samples(s);
    var s1 := ExcludeOne(s, rows[0]).value;
    assert Samples(s1) == Filter(xs, OutsideWindow(rows[0].ts, rows[0].te));
    if EmptiedBefore(s1, rows[1..]) {
      var k :| 0 <= k < |rows[1..]| && |FilterAll(Samples(s1), WindowCriteria(rows[1..][..k]))| == 0;
      WindowPrefixStep(xs, rows, k + 1);
      assert |FilterAll(xs, WindowCriteria(rows[..k + 1]))| == 0;
    }
    if EmptiedBefore(s, rows) {
      var k :| 0 <= k < |rows| && |FilterAll(xs, WindowCriteria(rows[..k]))| == 0;
      assert WindowCriteria(rows[..0]) == [];
      assert k != 0;
      WindowPrefixStep(xs, rows, k);
      assert |FilterAll(Samples(s1), WindowCriteria(rows[1..][..k - 1]))| == 0;
    }
  }

  /** A window that lies wholly outside the data's time span leaves the arrays unchanged. */
  lemma DisjointWindowUnchanged(s: Series, w: Window)
    requires Aligned(s) && |s.t| > 0
    requires forall i :: 0 <= i < |s.t| ==> s.t[i] < w.ts || s.t[i] > w.te
    ensures ExcludeOne(s, w) == Some(s)
  {
    FilterIdentity(Samples(s), OutsideWindow(w.ts, w.te));
    if !(MaxOf(s.t) < w.ts || MinOf(s.t) > w.te) {
      assert Samples(Stage(s, OutsideWindow(w.ts, w.te))) == Samples(s);
      SamplesInjective(Stage(s, OutsideWindow(w.ts, w.te)), s);
    }
  }

  lemma SamplesInjective(a: Series, b: Series)
    requires Aligned(a) && Aligned(b) && Samples(a) == Samples(b)
    ensures a == b
  {
    assert forall i :: 0 <= i < |a.t| ==> Samples(a)[i] == Samples(b)[i];
    assert a.t == b.t && a.y == b.y && a.z == b.z;
  }

  /** The exclusion loop of the depth-profile script, row by row. */
  method ApplyExclusionRows(s: Series, rows: seq<Window>) returns (r: Option<Series>)
    requires Aligned(s)
    ensures r == ExcludeRows(s, rows)
  {
    var tEx, yEx, zEx := s.t, s.y, s.z;
    var i := 0;
    while i < |rows|
      invariant 0 <= i <= |rows|
      invariant Aligned(Series(tEx, yEx, zEx))
      invariant ExcludeRows(Series(tEx, yEx, zEx), rows[i..]) == ExcludeRows(s, rows)
    {
      var cur := Series(tEx, yEx, zEx);
      assert rows[i..][0] == rows[i] && rows[i..][1..] == rows[i + 1..];
      if |tEx| == 0 {
        return None;
      }
      var ts, te := rows[i].ts, rows[i].te;
      if MaxOf(tEx) < ts {
      } else if MinOf(tEx) > te {
      } else {
        var ind := PassMask(Samples(cur), OutsideWindow(ts, te));
        tEx, yEx, zEx := Keep(tEx, ind), Keep(yEx, ind), Keep(zEx, ind);
        assert Series(tEx, yEx, zEx) == Stage(cur, OutsideWindow(ts, te));
      }
      assert ExcludeOne(cur, rows[i]) == Some(Series(tEx, yEx, zEx));
      assert ExcludeRows(cur, rows[i..]) == ExcludeRows(Series(tEx, yEx, zEx), rows[i + 1..]);
      i := i + 1;
    }
    return Some(Series(tEx, yEx, zEx));
  }

  // ---------------------------------------------------------------
  // Removal of individual excluded timestamps

  /** One excluded timestamp: `ind = t != ne`; when no sample would remain
      (`not ind.any()`) the arrays are kept as they are. */
  function RemoveTime(s: Series, ne: int): (r: Series)
    requires Aligned(s)
    ensures Aligned(r)
    ensures |Filter(Samples(s), NotAt(ne))| == 0 ==> r == s
    ensures |Filter(Samples(s), NotAt(ne))| > 0 ==> Samples(r) == Filter(Samples(s), NotAt(ne))
  {
    var r := Stage(s, NotAt(ne));
    if |r.t| == 0 then s else r
  }

  function TimeCriteria(times: seq<int>): (cs: seq<Criterion>)
    ensures |cs| == |times| && forall i :: 0 <= i < |times| ==> cs[i] == NotAt(times[i])
  {
    if |times| == 0 then [] else [NotAt(times[0])] + TimeCriteria(times[1..])
  }

  function RemoveTimes(s: Series, times: seq<int>): (r: Series)
    requires Aligned(s)
    ensures Aligned(r)
    decreases |times|
  {
    if |times| == 0 then s else RemoveTimes(RemoveTime(s, times[0]), times[1..])
  }

  /** The guard never empties a non-empty variable. */
  lemma {:induction false} RemoveTimesKeepsData(s: Series, times: seq<int>)
    requires Aligned(s) && |s.t| > 0
    ensures |RemoveTimes(s, times).t| > 0
    decreases |times|
  {
    if |times| > 0 {
      RemoveTimesKeepsData(RemoveTime(s, times[0]), times[1..]);
    }
  }

  /** When some sample lies at none of the excluded times, every excluded timestamp is
      removed exactly. */
  lemma {:induction false} RemoveTimesExact(s: Series, times: seq<int>)
    requires Aligned(s) && |FilterAll(Samples(s), TimeCriteria(times))| > 0
    ensures Samples(RemoveTimes(s, times)) == FilterAll(Samples(s), TimeCriteria(times))
    decreases |times|
  {
    if |times| > 0 {
      var xs := Samples(s);
      var c := NotAt(times[0]);
      assert TimeCriteria(times)[1..] == TimeCriteria(times[1..]);
      FilterAllMembers(Filter(xs, c), TimeCriteria(times[1..]));
      FilterMembers(xs, c);
      assert |Filter(xs, c)| > 0;
      var s1 := RemoveTime(s, times[0]);
      RemoveTimesExact(s1, times[1..]);
    }
  }
}
