/** The bookkeeping of the data-range report around the filter chain: the
    data urls of one designator, the preferred-stream files of each
    deployment, the list of excluded times read from the review tables, and
    the rows the report collects per variable. */
module RangeReport {
  import opened Collections
  import opened Strings
  import opened Catalog

  // ---------------------------------------------------------------
  // The urls of one designator

  /** The urls whose designator is `r`, in order. */
  function UrlsOf(urls: seq<string>, r: string): seq<string>
    decreases |urls|
  {
    if |urls| == 0 then []
    else
      var u := urls[|urls| - 1];
      UrlsOf(urls[..|urls| - 1], r) + (if RefDes(u) == Some(r) then [u] else [])
  }

  lemma {:induction false} UrlsOfMembers(urls: seq<string>, r: string)
    ensures forall u :: u in UrlsOf(urls, r) <==> u in urls && RefDes(u) == Some(r)
    decreases |urls|
  {
    if |urls| > 0 {
      var init := urls[..|urls| - 1];
      UrlsOfMembers(init, r);
      assert urls == init + [urls[|urls| - 1]];
    }
  }

  /** The `datasets` loop: the urls whose `rd_check` equals `r`. Every url
      has a designator here, since the designator loop before it went over
      the same urls. */
  method DesignatorUrls(urls: seq<string>, r: string) returns (us: seq<string>)
    requires forall i :: 0 <= i < |urls| ==> RefDes(urls[i]).Some?
    ensures us == UrlsOf(urls, r)
    ensures forall u :: u in us <==> u in urls && RefDes(u) == Some(r)
  {
    us := [];
    var i := 0;
    while i < |urls|
      invariant 0 <= i <= |urls|
      invariant us == UrlsOf(urls[..i], r)
    {
      assert urls[..i + 1][..i] == urls[..i];
      var rdCheck := RefDes(urls[i]);
      if rdCheck.value == r {
        us := us + [urls[i]];
      }
      i := i + 1;
    }
    assert urls[..|urls|] == urls;
    UrlsOfMembers(urls, r);
  }

  // ---------------------------------------------------------------
  // The preferred-stream files

  /** One row of the preferred-stream table: a deployment name and a
      method-stream. */
  datatype PreferredRow = PreferredRow(deployment: string, stream: string)

  predicate RowMatches(row: PreferredRow, x: string) {
    Contains(x, row.deployment) && Contains(x, row.stream)
  }

  /** The files that mention both the row's deployment and its stream, in order. */
  function RowFiles(row: PreferredRow, files: seq<string>): seq<string>
    decreases |files|
  {
    if |files| == 0 then []
    else
      var x := files[|files| - 1];
      RowFiles(row, files[..|files| - 1]) + (if RowMatches(row, x) then [x] else [])
  }

  lemma {:induction false} RowFilesMembers(row: PreferredRow, files: seq<string>)
    ensures forall x :: x in RowFiles(row, files) <==> x in files && RowMatches(row, x)
    decreases |files|
  {
    if |files| > 0 {
      var init := files[..|files| - 1];
      RowFilesMembers(row, init);
      assert files == init + [files[|files| - 1]];
    }
  }

  /** `fdatasets_final`: row by row, the files of that row. */
  function PreferredFiles(rows: seq<PreferredRow>, files: seq<string>): seq<string> {
    ConcatPrefix(row => RowFiles(row, files), rows, |rows|)
  }

  /** A file is listed exactly when some row's deployment and stream both occur in it. */
  lemma PreferredFilesMembers(rows: seq<PreferredRow>, files: seq<string>)
    ensures forall x :: x in PreferredFiles(rows, files) <==>
      x in files && exists k :: 0 <= k < |rows| && RowMatches(rows[k], x)
  {
    ConcatPrefixMembers(row => RowFiles(row, files), rows, |rows|);
    forall k | 0 <= k < |rows| {
      RowFilesMembers(rows[k], files);
    }
  }

  /** The nested `fdatasets_final` loops. */
  method PreferredDatasets(rows: seq<PreferredRow>, files: seq<string>) returns (out: seq<string>)
    ensures out == PreferredFiles(rows, files)
  {
    out := [];
    var ii := 0;
    while ii < |rows|
      invariant 0 <= ii <= |rows|
      invariant out == ConcatPrefix(row => RowFiles(row, files), rows, ii)
    {
      var before := out;
      var j := 0;
      while j < |files|
        invariant 0 <= j <= |files|
        invariant out == before + RowFiles(rows[ii], files[..j])
      {
        RowFilesStep(rows[ii], files, j);
        if RowMatches(rows[ii], files[j]) {
          out := out + [files[j]];
        }
        j := j + 1;
      }
      assert files[..|files|] == files;
      ii := ii + 1;
    }
  }

  lemma RowFilesStep(row: PreferredRow, files: seq<string>, j: nat)
    requires j < |files|
    ensures RowFiles(row, files[..j + 1]) ==
      RowFiles(row, files[..j]) + (if RowMatches(row, files[j]) then [files[j]] else [])
  {
    assert files[..j + 1][..j] == files[..j];
  }

  // ---------------------------------------------------------------
  // The excluded-time list

  /** One row of a review table: the variable name in its first column and
      its `time_to_exclude` cell. */
  datatype ExclusionRow = ExclusionRow(varName: string, timeToExclude: string)

  /** The times a row contributes for `varName`. */
  function RowTimes(row: ExclusionRow, varName: string): seq<string> {
    if row.varName == varName then SplitOn(row.timeToExclude, ", ") else []
  }

  /** `list_time`: the cells of the rows for `varName`, each split at `, `. */
  function ExcludedTimes(rows: seq<ExclusionRow>, varName: string): seq<string> {
    ConcatPrefix(row => RowTimes(row, varName), rows, |rows|)
  }

  /** The `list_time` loop: `list_time.extend(itime.split(', '))` over the
      rows of `drn`. */
  method ExcludedTimeList(rows: seq<ExclusionRow>, varName: string) returns (listTime: seq<string>)
    ensures listTime == ExcludedTimes(rows, varName)
  {
    listTime := [];
    var i := 0;
    while i < |rows|
      invariant 0 <= i <= |rows|
      invariant listTime == ConcatPrefix(row => RowTimes(row, varName), rows, i)
    {
      if rows[i].varName == varName {
        listTime := listTime + SplitOn(rows[i].timeToExclude, ", ");
      }
      i := i + 1;
    }
  }

  /** A listed time is a piece of a cell of a row for the variable. */
  lemma ExcludedTimesMembers(rows: seq<ExclusionRow>, varName: string)
    ensures forall x :: x in ExcludedTimes(rows, varName) <==>
      exists k :: 0 <= k < |rows| && rows[k].varName == varName && x in SplitOn(rows[k].timeToExclude, ", ")
  {
    ConcatPrefixMembers(row => RowTimes(row, varName), rows, |rows|);
  }

  /** `u_time_list` is non-empty, so the suspect-time rejection runs, exactly
      when some row names the variable (a split always gives at least one piece). */
  lemma ExclusionRunsIffRowFound(rows: seq<ExclusionRow>, varName: string)
    ensures |Dedup(ExcludedTimes(rows, varName))| > 0 <==> exists k :: 0 <= k < |rows| && rows[k].varName == varName
  {
    var ts := ExcludedTimes(rows, varName);
    ExcludedTimesMembers(rows, varName);
    DedupMembers(ts);
    if exists k :: 0 <= k < |rows| && rows[k].varName == varName {
      var k :| 0 <= k < |rows| && rows[k].varName == varName;
      var pieces := SplitOn(rows[k].timeToExclude, ", ");
      assert pieces[0] in pieces;
      assert pieces[0] in ts;
      assert pieces[0] in Dedup(ts);
    }
  }

  // ---------------------------------------------------------------
  // The rows of the data-range table

  /** A variable that reached the data-range block (it has data left after
      the filters): its key in the science-variable dictionary, its variable
      name, and the number of depth groups its data fell into. */
  datatype RangedVar = RangedVar(key: string, varName: string, groups: nat)

  /** One row of `groups.describe()` with the inserted `parameter` and
      `deployments` columns; `group` is the row's depth group (the statistics
      themselves are not modelled). */
  datatype StatRow = StatRow(parameter: string, deployments: string, group: nat)

  /** The `'pressure' not in var_name` test. */
  predicate IsPressure(v: RangedVar) {
    Contains(v.varName, "pressure")
  }

  /** `stat_data` for a variable: one row per depth group. */
  function StatBlock(v: RangedVar, column: string): (b: seq<StatRow>)
    ensures |b| == v.groups
    ensures forall k :: 0 <= k < |b| ==> b[k] == StatRow(v.key, column, k)
  {
    seq(v.groups, k requires 0 <= k < v.groups => StatRow(v.key, column, k))
  }

  /** The rows a variable contributes: none for a pressure variable. */
  function Block(v: RangedVar, column: string): seq<StatRow> {
    if IsPressure(v) then [] else StatBlock(v, column)
  }

  /** The table the report is meant to hold: the blocks of the variables
      that are not pressure variables, in order. */
  function StatTable(vs: seq<RangedVar>, column: string): seq<StatRow>
    decreases |vs|
  {
    if |vs| == 0 then []
    else
      var v := vs[|vs| - 1];
      StatTable(vs[..|vs| - 1], column) + Block(v, column)
  }

  /** Every row of the table belongs to a non-pressure variable. */
  lemma {:induction false} StatTableNoPressure(vs: seq<RangedVar>, column: string)
    ensures forall row :: row in StatTable(vs, column) ==>
      exists k :: 0 <= k < |vs| && !IsPressure(vs[k]) && row.parameter == vs[k].key && row.group < vs[k].groups
    decreases |vs|
  {
    if |vs| > 0 {
      var init := vs[..|vs| - 1];
      StatTableNoPressure(init, column);
      forall row | row in StatTable(vs, column)
        ensures exists k :: 0 <= k < |vs| && !IsPressure(vs[k]) && row.parameter == vs[k].key && row.group < vs[k].groups
      {
        if row in StatTable(init, column) {
          var k :| 0 <= k < |init| && !IsPressure(init[k]) && row.parameter == init[k].key && row.group < init[k].groups;
          assert vs[k] == init[k];
        } else {
          var v := vs[|vs| - 1];
          assert row in StatBlock(v, column);
        }
      }
    }
  }

  /** `stat_df = stat_df.append(stat_data)` for each variable, inside the
      non-pressure branch. */
  method BuildStatTable(vs: seq<RangedVar>, column: string) returns (statDf: seq<StatRow>)
    ensures statDf == StatTable(vs, column)
  {
    statDf := [];
    var i := 0;
    while i < |vs|
      invariant 0 <= i <= |vs|
      invariant statDf == StatTable(vs[..i], column)
    {
      assert vs[..i + 1][..i] == vs[..i];
      if !IsPressure(vs[i]) {
        statDf := statDf + StatBlock(vs[i], column);
      }
      i := i + 1;
    }
    assert vs[..|vs|] == vs;
  }

  /** The loop as written: the append sits after the non-pressure branch, so
      a pressure variable appends the `stat_data` of the variable before it
      again, and a pressure variable with no variable before it stops the
      script with a NameError (None). `last` is the block computed last. */
  function StatTableAsWritten(vs: seq<RangedVar>, column: string, last: Option<seq<StatRow>>): (r: Option<seq<StatRow>>)
    decreases |vs|
  {
    if |vs| == 0 then Some([])
    else
      var v := vs[0];
      var block := if IsPressure(v) then last else Some(StatBlock(v, column));
      match block
      case None => None
      case Some(b) =>
        match StatTableAsWritten(vs[1..], column, Some(b))
        case None => None
        case Some(rest) => Some(b + rest)
  }

  /** A temperature variable with two depth groups followed by a pressure
      variable: the table as written repeats the temperature rows, where the
      intended table holds them once. */
  lemma StaleRowsForPressure()
    ensures var vs := [RangedVar("temp", "temp", 2), RangedVar("pressure", "pressure", 3)];
      && StatTableAsWritten(vs, "1", None) == Some(StatBlock(vs[0], "1") + StatBlock(vs[0], "1"))
      && StatTable(vs, "1") == StatBlock(vs[0], "1")
  {
    var vs := [RangedVar("temp", "temp", 2), RangedVar("pressure", "pressure", 3)];
    PressureNamed("");
    assert "pressure" + "" == "pressure";
    assert IsPressure(vs[1]);
    NotPressureNamed();
    var b := StatBlock(vs[0], "1");
    assert vs[1..] == [vs[1]];
    assert vs[1..][1..] == [];
    assert StatTableAsWritten(vs[1..], "1", Some(b)) == Some(b + []);
    assert b + [] == b;
    assert vs[..1] == [vs[0]];
    assert vs[..1][..0] == [];
  }

  /** The two readings agree on variables none of which is a pressure variable. */
  lemma {:induction false} AsWrittenAgreesWithoutPressure(vs: seq<RangedVar>, column: string, last: Option<seq<StatRow>>)
    requires forall k :: 0 <= k < |vs| ==> !IsPressure(vs[k])
    ensures StatTableAsWritten(vs, column, last) == Some(StatTable(vs, column))
    decreases |vs|
  {
    if |vs| > 0 {
      AsWrittenAgreesWithoutPressure(vs[1..], column, Some(StatBlock(vs[0], column)));
      StatTableCons(vs[0], vs[1..], column);
      assert [vs[0]] + vs[1..] == vs;
    }
  }

  /** The table of a variable followed by more variables. */
  lemma StatTableCons(v: RangedVar, rest: seq<RangedVar>, column: string)
    ensures StatTable([v] + rest, column) == Block(v, column) + StatTable(rest, column)
  {
    StatTableConcat([v] + rest, column);
    StatTableConcat(rest, column);
    ConcatPrefixCons(BlockOf(column), v, rest, |rest|);
  }

  function BlockOf(column: string): RangedVar -> seq<StatRow> {
    v => Block(v, column)
  }

  /** The table concatenates the blocks of the variables in order. */
  lemma {:induction false} StatTableConcat(vs: seq<RangedVar>, column: string)
    ensures StatTable(vs, column) == ConcatPrefix(BlockOf(column), vs, |vs|)
    decreases |vs|
  {
    if |vs| > 0 {
      var init := vs[..|vs| - 1];
      StatTableConcat(init, column);
      assert init[..|init|] == vs[..|init|];
      ConcatPrefixAgree(BlockOf(column), init, vs, |init|);
      assert BlockOf(column)(vs[|vs| - 1]) == Block(vs[|vs| - 1], column);
    }
  }

  /** A pressure variable first stops the script as written. */
  lemma PressureFirstFails(v: RangedVar, rest: seq<RangedVar>, column: string)
    requires IsPressure(v)
    ensures StatTableAsWritten([v] + rest, column, None).None?
  {
  }

  lemma PressureNamed(name: string)
    ensures Contains("pressure" + name, "pressure")
  {
    assert ("pressure" + name)[..8] == "pressure";
  }

  lemma NotPressureNamed()
    ensures !Contains("temp", "pressure")
  {
  }
}
