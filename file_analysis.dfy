/** The per-file checks of the file-analysis script: comparing variable
    lists, dropping the common variables, looking up a deployment, the
    days-deployed count, the sampling-rate classification, the unique and
    ascending timestamp tests, and the NaN and fill-value counts of a
    science variable. Timestamps are whole seconds. */
module FileAnalysis {
  import opened Collections
  import opened Strings
  import opened QualityFilter
  import DepthBinning

  // ---------------------------------------------------------------
  // compare_lists

  /** The variable names of `xs` that occur in `ys`, in their order in `xs`. */
  function Matching(xs: seq<string>, ys: seq<string>): seq<string>
    decreases |xs|
  {
    if |xs| == 0 then []
    else Matching(xs[..|xs| - 1], ys) + (if xs[|xs| - 1] in ys then [xs[|xs| - 1]] else [])
  }

  /** The variable names of `xs` that do not occur in `ys`, in their order in `xs`. */
  function Unmatching(xs: seq<string>, ys: seq<string>): seq<string>
    decreases |xs|
  {
    if |xs| == 0 then []
    else Unmatching(xs[..|xs| - 1], ys) + (if xs[|xs| - 1] in ys then [] else [xs[|xs| - 1]])
  }

  /** A name is matched exactly when it is in both lists, and unmatched
      exactly when it is only in the first. */
  lemma {:induction false} CompareListsMembers(xs: seq<string>, ys: seq<string>)
    ensures forall x :: x in Matching(xs, ys) <==> x in xs && x in ys
    ensures forall x :: x in Unmatching(xs, ys) <==> x in xs && x !in ys
    decreases |xs|
  {
    if |xs| > 0 {
      var init := xs[..|xs| - 1];
      CompareListsMembers(init, ys);
      assert xs == init + [xs[|xs| - 1]];
    }
  }

  /** The two lists split `xs`: together they hold every entry of `xs` exactly
      as often as `xs` does, so their lengths add up to that of `xs`. */
  lemma CompareListsPartition(xs: seq<string>, ys: seq<string>)
    ensures multiset(Matching(xs, ys)) + multiset(Unmatching(xs, ys)) == multiset(xs)
    ensures |Matching(xs, ys)| + |Unmatching(xs, ys)| == |xs|
  {
    MatchingMultiset(xs, ys);
    assert |multiset(Matching(xs, ys)) + multiset(Unmatching(xs, ys))| == |multiset(xs)|;
  }

  lemma {:induction false} MatchingMultiset(xs: seq<string>, ys: seq<string>)
    ensures multiset(Matching(xs, ys)) + multiset(Unmatching(xs, ys)) == multiset(xs)
    decreases |xs|
  {
    if |xs| > 0 {
      MatchingMultiset(xs[..|xs| - 1], ys);
      SnocStep(xs, ys);
      MultisetSnoc(xs);
    }
  }

  lemma MultisetSnoc(xs: seq<string>)
    requires |xs| > 0
    ensures multiset(xs) == multiset(xs[..|xs| - 1]) + multiset{xs[|xs| - 1]}
  {
    assert xs == xs[..|xs| - 1] + [xs[|xs| - 1]];
  }

  lemma SnocStep(xs: seq<string>, ys: seq<string>)
    requires |xs| > 0
    ensures multiset(Matching(xs, ys)) + multiset(Unmatching(xs, ys))
      == multiset(Matching(xs[..|xs| - 1], ys)) + multiset(Unmatching(xs[..|xs| - 1], ys)) + multiset{xs[|xs| - 1]}
  {
    var init, x := xs[..|xs| - 1], xs[|xs| - 1];
    if x in ys {
      assert Matching(xs, ys) == Matching(init, ys) + [x];
      assert Unmatching(xs, ys) == Unmatching(init, ys);
    } else {
      assert Matching(xs, ys) == Matching(init, ys);
      assert Unmatching(xs, ys) == Unmatching(init, ys) + [x];
    }
  }

  /** `compare_lists(list1, list2)`: one pass over `list1`, appending each entry
      to `matched` or to `unmatched`. */
  method CompareLists(list1: seq<string>, list2: seq<string>) returns (matched: seq<string>, unmatched: seq<string>)
    ensures matched == Matching(list1, list2)
    ensures unmatched == Unmatching(list1, list2)
  {
    matched, unmatched := [], [];
    var i := 0;
    while i < |list1|
      invariant 0 <= i <= |list1|
      invariant matched == Matching(list1[..i], list2)
      invariant unmatched == Unmatching(list1[..i], list2)
    {
      assert list1[..i + 1][..i] == list1[..i];
      if list1[i] in list2 {
        matched := matched + [list1[i]];
      } else {
        unmatched := unmatched + [list1[i]];
      }
      i := i + 1;
    }
    assert list1[..|list1|] == list1;
  }

  // ---------------------------------------------------------------
  // eliminate_common_variables

  /** A character that `\w` matches (ASCII letters, digits and the underscore). */
  predicate IsWordChar(c: char) {
    ('a' <= c <= 'z') || ('A' <= c <= 'Z') || ('0' <= c <= '9') || c == '_'
  }

  /** `\bw\b` matches at index `i`, for a word `w` that begins and ends with
      word characters: `w` occurs there with no word character on either side. */
  predicate WholeWordAt(s: string, w: string, i: nat) {
    && OccursAt(s, w, i)
    && (i == 0 || !IsWordChar(s[i - 1]))
    && (i + |w| == |s| || !IsWordChar(s[i + |w|]))
  }

  /** The variable names dropped from the comparison. */
  const CommonWords: seq<string> := ["quality_flag", "provenance", "id", "deployment", "obs", "lat", "lon"]

  /** The regular expression `\b(?:quality_flag|...|lon)\b` finds a match in `s`. */
  predicate MentionsCommonWord(s: string) {
    exists w, i :: w in CommonWords && 0 <= i <= |s| && WholeWordAt(s, w, i)
  }

  /** The names that do not mention a common word as a whole word, in order. */
  function EliminateCommonVariables(names: seq<string>): (r: seq<string>)
    ensures forall x :: x in r <==> x in names && !MentionsCommonWord(x)
    ensures |r| <= |names|
  {
    SelectMembers(x => !MentionsCommonWord(x), names);
    Select(x => !MentionsCommonWord(x), names)
  }

  /** The kept names stay in their order: the comparison of two lists of
      names is the filter applied piece by piece. */
  lemma EliminateCommonKeepsOrder(a: seq<string>, b: seq<string>, x: string)
    ensures EliminateCommonVariables(a + b) == EliminateCommonVariables(a) + EliminateCommonVariables(b)
    ensures EliminateCommonVariables([x]) == if MentionsCommonWord(x) then [] else [x]
  {
    SelectAppend(x => !MentionsCommonWord(x), a, b);
    SelectOne(x => !MentionsCommonWord(x), x);
  }

  /** A common word framed by non-word characters (or the ends of the name) is found. */
  lemma CommonWordFramed(pre: string, w: string, post: string)
    requires w in CommonWords
    requires |pre| == 0 || !IsWordChar(pre[|pre| - 1])
    requires |post| == 0 || !IsWordChar(post[0])
    ensures MentionsCommonWord(pre + w + post)
  {
    var s := pre + w + post;
    assert s[|pre|..|pre| + |w|] == w;
    assert |pre| > 0 ==> s[|pre| - 1] == pre[|pre| - 1];
    assert |post| > 0 ==> s[|pre| + |w|] == post[0];
    assert WholeWordAt(s, w, |pre|);
  }

  /** A common word glued to a word character is not a whole word there. */
  lemma GluedWordIgnored(s: string, w: string, i: nat)
    requires OccursAt(s, w, i) && i > 0 && IsWordChar(s[i - 1])
    ensures !WholeWordAt(s, w, i)
  {
  }

  /** `[x for x in names if 'qc' not in x]`. */
  function DropQc(names: seq<string>): (r: seq<string>)
    ensures forall x :: x in r <==> x in names && !Contains(x, "qc")
    ensures |r| <= |names|
  {
    SelectMembers(x => !Contains(x, "qc"), names);
    Select(x => !Contains(x, "qc"), names)
  }

  /** The names without 'qc' stay in their order. */
  lemma DropQcKeepsOrder(a: seq<string>, b: seq<string>, x: string)
    ensures DropQc(a + b) == DropQc(a) + DropQc(b)
    ensures DropQc([x]) == if Contains(x, "qc") then [] else [x]
  {
    SelectAppend(x => !Contains(x, "qc"), a, b);
    SelectOne(x => !Contains(x, "qc"), x);
  }

  // ---------------------------------------------------------------
  // Choosing the files of one deployment

  /** `url.split('/')[-1].split('_20')[0]`: the file name up to its first `_20`
      (the start of the time stamp). */
  function FileStem(url: string): string {
    var segs := SplitOn(url, "/");
    SplitOn(segs[|segs| - 1], "_20")[0]
  }

  /** The files that belong to deployment `revDep`, without the collocated
      files of other streams: a url is kept when it mentions the deployment
      and its file stem mentions `catalogRms`, the reference designator,
      delivery method and stream joined by dashes. */
  function ReviewFiles(urls: seq<string>, revDep: string, catalogRms: string): (r: seq<string>)
    ensures forall u :: u in r <==> u in urls && Contains(u, revDep) && Contains(FileStem(u), catalogRms)
    ensures |r| <= |urls|
  {
    SelectMembers(u => Contains(u, revDep) && Contains(FileStem(u), catalogRms), urls);
    Select(u => Contains(u, revDep) && Contains(FileStem(u), catalogRms), urls)
  }

  /** The chosen files stay in catalog order. */
  lemma ReviewFilesKeepsOrder(a: seq<string>, b: seq<string>, u: string, revDep: string, catalogRms: string)
    ensures ReviewFiles(a + b, revDep, catalogRms) == ReviewFiles(a, revDep, catalogRms) + ReviewFiles(b, revDep, catalogRms)
    ensures ReviewFiles([u], revDep, catalogRms) ==
      if Contains(u, revDep) && Contains(FileStem(u), catalogRms) then [u] else []
  {
    var keep := u => Contains(u, revDep) && Contains(FileStem(u), catalogRms);
    SelectAppend(keep, a, b);
    SelectOne(keep, u);
  }

  // ---------------------------------------------------------------
  // get_deployment_information and days deployed

  /** One entry of the deployments listed by the data review database; times
      in seconds, and no stop time while the deployment is ongoing. */
  datatype Deployment = Deployment(number: int, start: int, stop: Option<int>)

  /** The first deployment with the given number, or None. */
  function GetDeploymentInformation(ds: seq<Deployment>, n: int): (r: Option<Deployment>)
    ensures r.None? <==> forall k :: 0 <= k < |ds| ==> ds[k].number != n
    ensures r.Some? ==> r.value.number == n
    ensures r.Some? ==> exists k :: 0 <= k < |ds| && ds[k] == r.value && (forall j :: 0 <= j < k ==> ds[j].number != n)
    decreases |ds|
  {
    if |ds| == 0 then None
    else if ds[0].number == n then Some(ds[0])
    else
      var r := GetDeploymentInformation(ds[1..], n);
      assert forall k :: 1 <= k < |ds| ==> ds[k] == ds[1..][k - 1];
      r
  }

  const SecondsPerDay: int := 86400

  /** `.replace(hour=0, minute=0, second=0)`: the midnight at or before `t`. */
  function Midnight(t: int): (m: int)
    ensures m <= t < m + SecondsPerDay && m % SecondsPerDay == 0
  {
    (t / SecondsPerDay) * SecondsPerDay
  }

  /** The stop kept when it is a midnight, else the next midnight. */
  function StopMidnight(t: int): (m: int)
    ensures t <= m < t + SecondsPerDay && m % SecondsPerDay == 0
  {
    if t % SecondsPerDay == 0 then t else Midnight(t) + SecondsPerDay
  }

  /** `n_days_deployed`: whole days from the start's midnight to the stop's
      midnight, None when the deployment has no stop. */
  function DaysDeployed(d: Deployment): (r: Option<int>)
    ensures r.None? <==> d.stop.None?
    ensures r.Some? ==>
      (r.value - 1) * SecondsPerDay < d.stop.value - Midnight(d.start) <= r.value * SecondsPerDay
  {
    match d.stop
    case None => None
    case Some(stop) =>
      var a := Midnight(d.start);
      var b := StopMidnight(stop);
      DivExact(b - a);
      Some((b - a) / SecondsPerDay)
  }

  lemma DivExact(x: int)
    requires x % SecondsPerDay == 0
    ensures (x / SecondsPerDay) * SecondsPerDay == x
  {
  }

  // ---------------------------------------------------------------
  // Sampling rate

  /** `time.diff()` without its leading NaT: the gaps between consecutive timestamps. */
  function Diffs(ts: seq<int>): (d: seq<int>)
    ensures |d| == if |ts| == 0 then 0 else |ts| - 1
    ensures forall k :: 0 <= k < |d| ==> d[k] == ts[k + 1] - ts[k]
  {
    if |ts| == 0 then [] else seq(|ts| - 1, k requires 0 <= k < |ts| - 1 => ts[k + 1] - ts[k])
  }

  function Count(xs: seq<int>, v: int): (n: nat)
    ensures n <= |xs|
    ensures n > 0 <==> v in xs
    decreases |xs|
  {
    if |xs| == 0 then 0
    else
      assert forall x :: x in xs <==> x == xs[0] || x in xs[1..];
      (if xs[0] == v then 1 else 0) + Count(xs[1..], v)
  }

  /** Two different gaps together occur at most as often as there are gaps. */
  lemma {:induction false} CountTwo(xs: seq<int>, a: int, b: int)
    requires a != b
    ensures Count(xs, a) + Count(xs, b) <= |xs|
    decreases |xs|
  {
    if |xs| > 0 {
      CountTwo(xs[1..], a, b);
    }
  }

  /** A gap is recorded when it makes up more than 10% of the gaps. */
  predicate Common(diffs: seq<int>, g: int) {
    10 * Count(diffs, g) > |diffs|
  }

  /** The recorded entries among `keys`, in order: each gap with its share. */
  function RateShares(diffs: seq<int>, keys: seq<int>): seq<(int, real)>
    decreases |keys|
  {
    if |keys| == 0 then []
    else
      var init := keys[..|keys| - 1];
      var g := keys[|keys| - 1];
      RateShares(diffs, init)
        + (if Common(diffs, g) then [(g, Count(diffs, g) as real / |diffs| as real)] else [])
  }

  lemma {:induction false} RateSharesMembers(diffs: seq<int>, keys: seq<int>)
    ensures forall e :: e in RateShares(diffs, keys) <==>
      e.0 in keys && Common(diffs, e.0) && e.1 == Count(diffs, e.0) as real / |diffs| as real
    decreases |keys|
  {
    if |keys| > 0 {
      var init := keys[..|keys| - 1];
      RateSharesMembers(diffs, init);
      assert forall x :: x in keys <==> x in init || x == keys[|keys| - 1];
    }
  }

  /** The `rates['common_sampling_rates']` loop: one pass over the distinct
      gaps, recording those that make up more than 10% of the gaps. */
  method CommonRates(ts: seq<int>) returns (rates: seq<(int, real)>)
    ensures rates == RateShares(Diffs(ts), Dedup(Diffs(ts)))
  {
    var diffs := Diffs(ts);
    var keys := Dedup(diffs);
    rates := [];
    var i := 0;
    while i < |keys|
      invariant 0 <= i <= |keys|
      invariant rates == RateShares(diffs, keys[..i])
    {
      RateSharesStep(diffs, keys, i);
      var c := Count(diffs, keys[i]);
      if 10 * c > |diffs| {
        rates := rates + [(keys[i], c as real / |diffs| as real)];
      }
      i := i + 1;
    }
    assert keys[..|keys|] == keys;
  }

  lemma RateSharesStep(diffs: seq<int>, keys: seq<int>, i: nat)
    requires i < |keys|
    ensures RateShares(diffs, keys[..i + 1]) == RateShares(diffs, keys[..i])
      + (if 10 * Count(diffs, keys[i]) > |diffs| then [(keys[i], Count(diffs, keys[i]) as real / |diffs| as real)] else [])
  {
    assert keys[..i + 1][..i] == keys[..i];
    assert keys[..i + 1][i] == keys[i];
  }

  datatype SamplingRate = RateSeconds(seconds: int) | NoConsistentRate(rates: seq<(int, real)>)

  /** `'{:.2%}'.format(p)` read back as a number exceeds 75.00. */
  predicate ShownAbove75(p: real) {
    DepthBinning.RoundHalfEven(p * 10000.0) > 7500
  }

  /** `sampling_rt_sec`: the one recorded gap when it is the only one and more
      than 75% of the gaps; otherwise the recorded rates are reported. */
  function ChooseRate(rates: seq<(int, real)>): (r: SamplingRate)
    ensures r.RateSeconds? <==> |rates| == 1 && ShownAbove75(rates[0].1)
    ensures r.RateSeconds? ==> r.seconds == rates[0].0
    ensures r.NoConsistentRate? ==> r.rates == rates
  {
    if |rates| == 1 && ShownAbove75(rates[0].1) then RateSeconds(rates[0].0)
    else NoConsistentRate(rates)
  }

  /** A chosen rate makes up more than three quarters of the gaps. */
  lemma ChosenRateDominates(ts: seq<int>)
    requires ChooseRate(RateShares(Diffs(ts), Dedup(Diffs(ts)))).RateSeconds?
    ensures var d := Diffs(ts); var g := ChooseRate(RateShares(d, Dedup(d))).seconds;
      g in d && 4 * Count(d, g) > 3 * |d|
  {
    var d := Diffs(ts);
    var rs := RateShares(d, Dedup(d));
    RateSharesMembers(d, Dedup(d));
    DedupMembers(d);
    assert rs[0] in rs;
    var g := rs[0].0;
    var p := rs[0].1;
    assert p == Count(d, g) as real / |d| as real;
    ShareAbove(Count(d, g), |d|, p);
  }

  lemma ShareAbove(c: nat, n: nat, p: real)
    requires n > 0 && p == c as real / n as real && ShownAbove75(p)
    ensures 4 * c > 3 * n
  {
    assert p * 10000.0 > 7500.0;
    ShareTimes(c, n, p);
    ScaleStrict(p, 0.75, n as real);
  }

  /** `c / n * n == c`. */
  lemma ShareTimes(c: nat, n: nat, p: real)
    requires n > 0 && p == c as real / n as real
    ensures p * n as real == c as real
  {
  }

  /** Multiplying a strict inequality by a positive factor keeps it. */
  lemma ScaleStrict(a: real, b: real, k: real)
    requires a > b && k > 0.0
    ensures a * k > b * k
  {
  }

  /** A gap that makes up more than 90% of the gaps is the sampling rate. */
  lemma DominantGapIsRate(ts: seq<int>, g: int)
    requires 10 * Count(Diffs(ts), g) > 9 * |Diffs(ts)|
    ensures ChooseRate(RateShares(Diffs(ts), Dedup(Diffs(ts)))) == RateSeconds(g)
  {
    var d := Diffs(ts);
    var keys := Dedup(d);
    forall h | h != g ensures !Common(d, h) {
      CountTwo(d, g, h);
    }
    DedupMembers(d);
    DedupNoDuplicates(d);
    var p := Count(d, g) as real / |d| as real;
    OnlyEntry(d, keys, g);
    ShareShown(Count(d, g), |d|, p);
  }

  /** With one common gap among distinct keys, the recorded list is that gap
      and its share, or nothing when the gap is not among the keys. */
  lemma {:induction false} OnlyEntry(d: seq<int>, keys: seq<int>, g: int)
    requires NoDuplicates(keys) && |d| > 0
    requires forall h :: h != g ==> !Common(d, h)
    ensures RateShares(d, keys) ==
      if g in keys && Common(d, g) then [(g, Count(d, g) as real / |d| as real)] else []
    decreases |keys|
  {
    if |keys| > 0 {
      var init := keys[..|keys| - 1];
      assert NoDuplicates(init);
      OnlyEntry(d, init, g);
      assert forall x :: x in keys <==> x in init || x == keys[|keys| - 1];
    }
  }

  lemma ShareShown(c: nat, n: nat, p: real)
    requires n > 0 && 10 * c > 9 * n && p == c as real / n as real
    ensures ShownAbove75(p)
  {
    ShareTimes(c, n, p);
    var cr, nr := c as real, n as real;
    assert 10.0 * cr > 9.0 * nr;
    if p <= 0.9 {
      ScaleWeak(p, 0.9, nr);
      assert false;
    }
    assert p * 10000.0 > 9000.0;
  }

  lemma ScaleWeak(a: real, b: real, k: real)
    requires a <= b && k > 0.0
    ensures a * k <= b * k
  {
  }

  // ---------------------------------------------------------------
  // Timestamp tests

  /** `len(time) == len(np.unique(time))`. */
  function UniqueTimestampTest(ts: seq<int>): (pass: bool)
    ensures pass <==> NoDuplicates(ts)
  {
    DedupLength(ts);
    |ts| == |Dedup(ts)|
  }

  datatype AscendingResult = NotTested | Pass | Fail(indices: seq<int>)

  /** `[(t[k + 1] - t[k]) > 0 for k in range(len(t) - 1)]`. */
  function Increases(ts: seq<int>): (m: seq<bool>)
    ensures |m| == if |ts| == 0 then 0 else |ts| - 1
    ensures forall k :: 0 <= k < |m| ==> (m[k] <==> ts[k] < ts[k + 1])
  {
    if |ts| == 0 then [] else seq(|ts| - 1, k requires 0 <= k < |ts| - 1 => ts[k + 1] - ts[k] > 0)
  }

  /** The indices of the false entries of `m`, ascending. */
  function FalseIndices(m: seq<bool>): (r: seq<int>)
    ensures forall i :: 0 <= i < |r| ==> 0 <= r[i] < |m|
    ensures forall i, j :: 0 <= i < j < |r| ==> r[i] < r[j]
    ensures forall k :: k in r <==> 0 <= k < |m| && !m[k]
    decreases |m|
  {
    if |m| == 0 then []
    else
      var init := m[..|m| - 1];
      var r0 := FalseIndices(init);
      assert forall k :: 0 <= k < |init| ==> init[k] == m[k];
      r0 + (if m[|m| - 1] then [] else [|m| - 1])
  }

  lemma {:induction false} CountTrueAll(m: seq<bool>)
    ensures CountTrue(m) == |m| <==> forall k :: 0 <= k < |m| ==> m[k]
    decreases |m|
  {
    if |m| > 0 {
      CountTrueAll(m[1..]);
      assert forall k :: 1 <= k < |m| ==> m[k] == m[1..][k - 1];
    }
  }

  /** `time_ascending`: `not_tested` when several files make up the deployment; otherwise a pass when
      every step increases, else the failing indices. */
  function AscendingTest(ts: seq<int>, severalFiles: bool): (r: AscendingResult)
    ensures r == NotTested <==> severalFiles
    ensures !severalFiles && |ts| > 0 ==>
      (r == Pass <==> forall k :: 0 <= k < |ts| - 1 ==> ts[k] < ts[k + 1])
    ensures r.Fail? ==> forall k :: k in r.indices <==> 0 <= k < |ts| - 1 && ts[k + 1] <= ts[k]
    ensures !severalFiles && |ts| == 0 ==> r == Fail([])
  {
    if severalFiles then NotTested
    else
      var m := Increases(ts);
      CountTrueAll(m);
      if CountTrue(m) == |ts| - 1 then Pass else Fail(FalseIndices(m))
  }

  /** The report the script produces. The failing indices are collected with
      `v is False` over the step list, whose entries are numpy booleans (the
      differences come from a numpy array); a numpy boolean is never the
      object `False`, so a failing file reports no index at all. */
  function AscendingTestAsWritten(ts: seq<int>, severalFiles: bool): (r: AscendingResult)
    ensures r.Fail? <==> AscendingTest(ts, severalFiles).Fail?
    ensures !r.Fail? ==> r == AscendingTest(ts, severalFiles)
    ensures r.Fail? ==> r.indices == []
  {
    match AscendingTest(ts, severalFiles)
    case Fail(_) => Fail([])
    case other => other
  }

  /** Two timestamps out of order: the corrected test names step 0, the
      script as written names none. */
  lemma AscendingReportLosesIndex()
    ensures AscendingTest([2, 1], false) == Fail([0])
    ensures AscendingTestAsWritten([2, 1], false) == Fail([])
  {
    var m := Increases([2, 1]);
    assert m == [false];
    assert m[..0] == [];
  }

  /** `len(np.unique(time.astype('datetime64[D]')))`. */
  function DaysWithData(ts: seq<int>): (n: nat)
    ensures n <= |ts|
    ensures |ts| > 0 ==> n > 0
    ensures n == |set k | 0 <= k < |ts| :: ts[k] / SecondsPerDay|
  {
    var days := seq(|ts|, k requires 0 <= k < |ts| => ts[k] / SecondsPerDay);
    DedupLength(days);
    DedupMembers(days);
    DedupNoDuplicates(days);
    DistinctCard(Dedup(days));
    assert |ts| > 0 ==> days[0] in Dedup(days);
    assert (set x | x in Dedup(days)) == set k | 0 <= k < |ts| :: ts[k] / SecondsPerDay by {
      forall x | x in Dedup(days) ensures exists k :: 0 <= k < |ts| && ts[k] / SecondsPerDay == x {
        var k :| 0 <= k < |days| && days[k] == x;
      }
      forall k | 0 <= k < |ts| ensures ts[k] / SecondsPerDay in Dedup(days) {
        assert days[k] == ts[k] / SecondsPerDay;
      }
    }
    |Dedup(days)|
  }

  // ---------------------------------------------------------------
  // NaN and fill counts of a one-dimensional science variable

  datatype VarCounts = VarCounts(nNaN: nat, nFill: nat, kept: seq<Value>)

  /** `var[~np.isnan(var)]`. */
  function NonNaN(vs: seq<Value>): (r: seq<Value>)
    ensures |r| + CountNaN(vs) == |vs|
    ensures forall x :: x in r <==> x in vs && x.Num?
    decreases |vs|
  {
    if |vs| == 0 then []
    else
      assert forall x :: x in vs <==> x == vs[0] || x in vs[1..];
      (if vs[0].NaN? then [] else [vs[0]]) + NonNaN(vs[1..])
  }

  /** `v[v != fv]`. */
  function NotFill(vs: seq<Value>, fv: Value): (r: seq<Value>)
    ensures |r| == CountDiffering(vs, fv)
    ensures forall x :: x in r <==> x in vs && Differs(x, fv)
    decreases |vs|
  {
    if |vs| == 0 then []
    else
      assert forall x :: x in vs <==> x == vs[0] || x in vs[1..];
      (if Differs(vs[0], fv) then [vs[0]] else []) + NotFill(vs[1..], fv)
  }

  /** Number of numeric entries equal to the fill value. */
  function CountFill(vs: seq<Value>, fv: Value): nat
    decreases |vs|
  {
    if |vs| == 0 then 0 else (if vs[0].Num? && !Differs(vs[0], fv) then 1 else 0) + CountFill(vs[1..], fv)
  }

  lemma {:induction false} FillCount(vs: seq<Value>, fv: Value)
    ensures CountNaN(vs) + CountFill(vs, fv) + CountDiffering(NonNaN(vs), fv) == |vs|
    decreases |vs|
  {
    if |vs| > 0 {
      FillCount(vs[1..], fv);
      var rest := NonNaN(vs[1..]);
      if vs[0].Num? {
        assert NonNaN(vs) == [vs[0]] + rest;
        assert ([vs[0]] + rest)[1..] == rest;
        assert CountDiffering([vs[0]] + rest, fv) == (if Differs(vs[0], fv) then 1 else 0) + CountDiffering(rest, fv);
      } else {
        assert NonNaN(vs) == rest;
      }
    }
  }

  /** `n_nan`, `n_fv` and the remaining values: `n_nan` counts the NaNs, `n_fv`
      the numeric entries equal to the fill value, and the three add up. */
  function SciVarCounts(vs: seq<Value>, fv: Value): (c: VarCounts)
    ensures c.nNaN == CountNaN(vs) && c.nFill == CountFill(vs, fv)
    ensures c.nNaN + c.nFill + |c.kept| == |vs|
    ensures forall x :: x in c.kept <==> x in vs && x.Num? && Differs(x, fv)
  {
    var nonan := NonNaN(vs);
    var nNaN := |vs| - |nonan|;
    var kept := NotFill(nonan, fv);
    FillCount(vs, fv);
    VarCounts(nNaN, |vs| - nNaN - |kept|, kept)
  }

  // ---------------------------------------------------------------
  // insert_into_dict

  /** A dictionary from keys to lists, grown in place by `insert_into_dict`. */
  class ListDict<K(==), V> {
    var entries: map<K, seq<V>>

    constructor ()
      ensures entries == map[]
    {
      entries := map[];
    }

    /** `insert_into_dict(d, key, value)`. */
    method Insert(key: K, value: V)
      modifies this
      ensures entries == Inserted(old(entries), key, value)
    {
      if key !in entries {
        entries := entries[key := [value]];
      } else {
        entries := entries[key := entries[key] + [value]];
      }
    }
  }

  function Inserted<K, V>(d: map<K, seq<V>>, key: K, value: V): map<K, seq<V>> {
    if key !in d then d[key := [value]] else d[key := d[key] + [value]]
  }

  /** After an insertion the key's list ends with the value, is one longer
      than before (a fresh list of one when the key was new), keeps its old
      entries in front, and no other key changes. */
  lemma InsertedMeaning<K, V>(d: map<K, seq<V>>, key: K, value: V)
    ensures var r := Inserted(d, key, value);
      && key in r && |r[key]| == (if key in d then |d[key]| + 1 else 1)
      && r[key][|r[key]| - 1] == value
      && (key in d ==> r[key][..|d[key]|] == d[key])
      && r.Keys == d.Keys + {key}
      && forall k :: k in d && k != key ==> r[k] == d[k]
  {
  }
}
