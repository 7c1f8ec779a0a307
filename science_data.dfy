/** The science-variable bookkeeping of the plotting scripts: which
    parameters of the data review database are science variables, the
    dictionary built for one method-stream, the per-variable arrays grown
    file by file, the pressure unit and name lists, the time-slice skip and
    the selection of the files of one method-stream. */
module ScienceData {
  import opened Collections
  import opened Strings
  import opened QualityFilter

  // ---------------------------------------------------------------
  // The science-variable dictionary

  /** A parameter of a stream in the data review database. */
  datatype Parameter = Parameter(name: string, productType: string, unit: string)

  /** A data stream in the data review database. */
  datatype DataStream = DataStream(methodName: string, streamName: string, parameters: seq<Parameter>)

  const ScienceData: string := "Science Data"

  /** `'-'.join((x['method'], x['stream_name']))`. */
  function StreamKey(s: DataStream): string {
    s.methodName + "-" + s.streamName
  }

  predicate IsScience(p: Parameter) {
    p.productType == ScienceData
  }

  /** `sci_vars` after the parameter loop: each science parameter's name
      mapped to its unit, a later parameter of the same name replacing an
      earlier one. */
  function SciVarsOf(ps: seq<Parameter>): map<string, string>
    decreases |ps|
  {
    if |ps| == 0 then map[]
    else
      var d := SciVarsOf(ps[..|ps| - 1]);
      var p := ps[|ps| - 1];
      if IsScience(p) then d[p.name := p.unit] else d
  }

  /** A name is in the dictionary exactly when some science parameter has it,
      and it maps to the unit of the last such parameter. */
  lemma {:induction false} SciVarsMeaning(ps: seq<Parameter>)
    ensures forall n :: n in SciVarsOf(ps) <==> exists k :: 0 <= k < |ps| && IsScience(ps[k]) && ps[k].name == n
    ensures forall n :: n in SciVarsOf(ps) ==> exists k :: LastScienceNamed(ps, k, n) && SciVarsOf(ps)[n] == ps[k].unit
    decreases |ps|
  {
    if |ps| > 0 {
      var init := ps[..|ps| - 1];
      SciVarsMeaning(init);
      var d := SciVarsOf(init);
      var p := ps[|ps| - 1];
      forall n | n in SciVarsOf(ps)
        ensures exists k :: LastScienceNamed(ps, k, n) && SciVarsOf(ps)[n] == ps[k].unit
      {
        if IsScience(p) && p.name == n {
          assert ps[|ps| - 1] == p;
        } else {
          var k :| LastScienceNamed(init, k, n) && d[n] == init[k].unit;
          assert ps[k] == init[k];
          assert forall j :: k < j < |init| ==> ps[j] == init[j];
          assert LastScienceNamed(ps, k, n);
        }
      }
      forall n ensures n in SciVarsOf(ps) <==> exists k :: 0 <= k < |ps| && IsScience(ps[k]) && ps[k].name == n {
        if exists k :: 0 <= k < |ps| && IsScience(ps[k]) && ps[k].name == n {
          var k :| 0 <= k < |ps| && IsScience(ps[k]) && ps[k].name == n;
          if k < |init| {
            assert init[k] == ps[k];
          }
        }
        if n in d {
          var k :| 0 <= k < |init| && IsScience(init[k]) && init[k].name == n;
          assert ps[k] == init[k];
        }
      }
    }
  }

  /** `ps[k]` is the last science parameter named `n`. */
  predicate LastScienceNamed(ps: seq<Parameter>, k: int, n: string) {
    && 0 <= k < |ps| && IsScience(ps[k]) && ps[k].name == n
    && forall j :: k < j < |ps| ==> !(IsScience(ps[j]) && ps[j].name == n)
  }

  /** The parameter loop: `sci_vars.update({name: unit})` for each science parameter. */
  method ScienceVars(ps: seq<Parameter>) returns (sciVars: map<string, string>)
    ensures sciVars == SciVarsOf(ps)
  {
    sciVars := map[];
    var i := 0;
    while i < |ps|
      invariant 0 <= i <= |ps|
      invariant sciVars == SciVarsOf(ps[..i])
    {
      assert ps[..i + 1][..i] == ps[..i];
      if ps[i].productType == ScienceData {
        sciVars := sciVars[ps[i].name := ps[i].unit];
      }
      i := i + 1;
    }
    assert ps[..|ps|] == ps;
  }

  /** `stream_sci_vars_dict` after the stream loop: for every stream whose key
      is `ms`, the entry is reset and then given that stream's science
      variables, so the last such stream decides. */
  function StreamSciVarsOf(streams: seq<DataStream>, ms: string): map<string, map<string, string>>
    decreases |streams|
  {
    if |streams| == 0 then map[]
    else
      var d := StreamSciVarsOf(streams[..|streams| - 1], ms);
      var x := streams[|streams| - 1];
      if StreamKey(x) == ms then d[ms := SciVarsOf(x.parameters)] else d
  }

  /** Only `ms` can be a key; it is one exactly when some stream has that key,
      and then it holds the science variables of the last such stream. */
  lemma StreamSciVarsMeaning(streams: seq<DataStream>, ms: string)
    ensures StreamSciVarsOf(streams, ms).Keys <= {ms}
    ensures ms in StreamSciVarsOf(streams, ms) <==> exists k :: 0 <= k < |streams| && StreamKey(streams[k]) == ms
    ensures ms in StreamSciVarsOf(streams, ms) ==>
      exists k :: LastStreamKeyed(streams, k, ms) && StreamSciVarsOf(streams, ms)[ms] == SciVarsOf(streams[k].parameters)
  {
    StreamSciVarsKeys(streams, ms);
    StreamSciVarsLast(streams, ms);
  }

  lemma {:induction false} StreamSciVarsKeys(streams: seq<DataStream>, ms: string)
    ensures StreamSciVarsOf(streams, ms).Keys <= {ms}
    ensures ms in StreamSciVarsOf(streams, ms) <==> exists k :: 0 <= k < |streams| && StreamKey(streams[k]) == ms
    decreases |streams|
  {
    if |streams| > 0 {
      var init := streams[..|streams| - 1];
      StreamSciVarsKeys(init, ms);
      var x := streams[|streams| - 1];
      if StreamKey(x) != ms {
        if exists k :: 0 <= k < |streams| && StreamKey(streams[k]) == ms {
          var k :| 0 <= k < |streams| && StreamKey(streams[k]) == ms;
          assert k < |init| && init[k] == streams[k];
        }
        if exists k :: 0 <= k < |init| && StreamKey(init[k]) == ms {
          var k :| 0 <= k < |init| && StreamKey(init[k]) == ms;
          assert streams[k] == init[k];
        }
      }
    }
  }

  lemma {:induction false} StreamSciVarsLast(streams: seq<DataStream>, ms: string)
    ensures ms in StreamSciVarsOf(streams, ms) ==>
      exists k :: LastStreamKeyed(streams, k, ms) && StreamSciVarsOf(streams, ms)[ms] == SciVarsOf(streams[k].parameters)
    decreases |streams|
  {
    if |streams| > 0 {
      var init := streams[..|streams| - 1];
      var x := streams[|streams| - 1];
      if StreamKey(x) == ms {
        assert LastStreamKeyed(streams, |streams| - 1, ms);
      } else if ms in StreamSciVarsOf(init, ms) {
        StreamSciVarsLast(init, ms);
        var k :| LastStreamKeyed(init, k, ms) && StreamSciVarsOf(init, ms)[ms] == SciVarsOf(init[k].parameters);
        assert streams[k] == init[k];
        assert forall j :: k < j < |init| ==> streams[j] == init[j];
        assert LastStreamKeyed(streams, k, ms);
      }
    }
  }

  /** `streams[k]` is the last stream whose key is `ms`. */
  predicate LastStreamKeyed(streams: seq<DataStream>, k: int, ms: string) {
    && 0 <= k < |streams| && StreamKey(streams[k]) == ms
    && forall j :: k < j < |streams| ==> StreamKey(streams[j]) != ms
  }

  /** The stream loop of the plotting scripts. */
  method StreamSciVars(streams: seq<DataStream>, ms: string) returns (d: map<string, map<string, string>>)
    ensures d == StreamSciVarsOf(streams, ms)
  {
    d := map[];
    var i := 0;
    while i < |streams|
      invariant 0 <= i <= |streams|
      invariant d == StreamSciVarsOf(streams[..i], ms)
    {
      assert streams[..i + 1][..i] == streams[..i];
      var x := streams[i];
      if StreamKey(x) == ms {
        d := d[ms := map[]];
        var sciVars := ScienceVars(x.parameters);
        if |sciVars| > 0 {
          d := d[ms := sciVars];
        }
      }
      i := i + 1;
    }
    assert streams[..|streams|] == streams;
  }

  // ---------------------------------------------------------------
  // The per-variable arrays

  /** What one file holds for one science variable: its units attribute, its
      fill value, the time stamps, the values and the pressure record, after
      the dataset has been sliced to the requested time range. */
  datatype FileVar = FileVar(units: string, fillValue: real, t: seq<int>, values: seq<Value>, pressure: seq<real>)

  predicate FileAligned(f: FileVar) {
    |f.t| == |f.values| == |f.pressure|
  }

  /** A matching file's time stamps, or nothing. */
  function MatchedTimes(db: string, f: FileVar): seq<int> {
    if f.units == db then f.t else []
  }

  function MatchedValues(db: string, f: FileVar): seq<Value> {
    if f.units == db then f.values else []
  }

  function MatchedPressure(db: string, f: FileVar): seq<real> {
    if f.units == db then f.pressure else []
  }

  /** One science variable's entry `sh`: its database units, the fill values
      and units seen, and the time, value and pressure arrays appended file by
      file. */
  class SciVar {
    const dbUnits: string
    var fv: seq<real>
    var units: seq<string>
    var t: seq<int>
    var values: seq<Value>
    var pressure: seq<real>

    /** The fill values never repeat; only the database unit is ever
        recorded, and only once, so the unit list is empty or that unit alone
        (see UnitOfData); and nothing is recorded before a matching file
        arrives. */
    predicate Valid()
      reads this
    {
      && NoDuplicates(fv)
      && (units == [] || units == [dbUnits])
      && (units == [] ==> fv == [] && t == [] && values == [] && pressure == [])
    }

    predicate Aligned()
      reads this
    {
      |t| == |values| == |pressure|
    }

    /** The empty arrays a variable starts with. */
    constructor (db: string)
      ensures dbUnits == db && fv == [] && units == [] && t == [] && values == [] && pressure == []
      ensures Valid() && Aligned()
    {
      dbUnits := db;
      fv, units := [], [];
      t, values, pressure := [], [], [];
    }

    /** The body of the variable loop for one file: only when the file's units
        equal the database units are its fill value and units added (each if
        absent) and its arrays appended. */
    method Absorb(f: FileVar)
      requires Valid()
      modifies this
      ensures Valid()
      ensures f.units == dbUnits ==>
        && fv == AddIfAbsent(old(fv), f.fillValue) && units == AddIfAbsent(old(units), f.units)
        && t == old(t) + f.t && values == old(values) + f.values && pressure == old(pressure) + f.pressure
      ensures f.units != dbUnits ==>
        fv == old(fv) && units == old(units) && t == old(t) && values == old(values) && pressure == old(pressure)
      ensures old(Aligned()) && FileAligned(f) ==> Aligned()
    {
      if f.units == dbUnits {
        if f.fillValue !in fv {
          fv := fv + [f.fillValue];
        }
        if f.units !in units {
          units := units + [f.units];
        }
        t := t + f.t;
        values := values + f.values;
        pressure := pressure + f.pressure;
      }
    }

    /** The entry's fields as one value. */
    function State(): Entry
      reads this
    {
      Entry(fv, units, t, values, pressure)
    }

    /** The file loop for this variable: every file in turn, the arrays
        growing by the matching files' arrays in file order, each new fill
        value of a matching file recorded once, and the database unit
        recorded once some file matches. */
    method AbsorbAll(files: seq<FileVar>)
      requires Valid()
      modifies this
      ensures Valid()
      ensures State() == AbsorbFiles(dbUnits, old(State()), files, |files|)
      ensures t == old(t) + ConcatPrefix(TimesOf(dbUnits), files, |files|)
      ensures values == old(values) + ConcatPrefix(ValuesOf(dbUnits), files, |files|)
      ensures pressure == old(pressure) + ConcatPrefix(PressureOf(dbUnits), files, |files|)
      ensures fv == Dedup(old(fv) + ConcatPrefix(FillsOf(dbUnits), files, |files|))
      ensures units == if SomeFileMatches(dbUnits, files, |files|) then [dbUnits] else old(units)
    {
      ghost var e := State();
      var i := 0;
      while i < |files|
        invariant 0 <= i <= |files|
        invariant Valid()
        invariant State() == AbsorbFiles(dbUnits, e, files, i)
      {
        ghost var s := State();
        Absorb(files[i]);
        assert State() == AbsorbFile(dbUnits, s, files[i]);
        i := i + 1;
      }
      AbsorbFilesParts(dbUnits, e, files, |files|);
      assert AbsorbedFields(dbUnits, e, files, |files|, State());
    }
  }

  /** A variable's entry as a value: fill values, units, and the time, value
      and pressure arrays. */
  datatype Entry = Entry(fv: seq<real>, units: seq<string>, t: seq<int>, values: seq<Value>, pressure: seq<real>)

  /** The loop body for one file on an entry value, as SciVar.Absorb does it
      in place. */
  function AbsorbFile(db: string, e: Entry, f: FileVar): Entry {
    if f.units == db then
      Entry(AddIfAbsent(e.fv, f.fillValue), AddIfAbsent(e.units, f.units),
            e.t + f.t, e.values + f.values, e.pressure + f.pressure)
    else e
  }

  /** The first `n` files absorbed in order. */
  function AbsorbFiles(db: string, e: Entry, files: seq<FileVar>, n: nat): Entry
    requires n <= |files|
    decreases n
  {
    if n == 0 then e else AbsorbFile(db, AbsorbFiles(db, e, files, n - 1), files[n - 1])
  }

  /** What the file loop leaves in each field after the first `n` files:
      the matching files' arrays appended in file order, the old fill values
      followed by each new matching fill value once, and the database unit
      once some file matches. */
  predicate AbsorbedFields(db: string, e: Entry, files: seq<FileVar>, n: nat, r: Entry)
    requires n <= |files|
  {
    && r.t == e.t + ConcatPrefix(TimesOf(db), files, n)
    && r.values == e.values + ConcatPrefix(ValuesOf(db), files, n)
    && r.pressure == e.pressure + ConcatPrefix(PressureOf(db), files, n)
    && r.fv == Dedup(e.fv + ConcatPrefix(FillsOf(db), files, n))
    && r.units == if SomeFileMatches(db, files, n) then [db] else e.units
  }

  /** The folded loop has those fields. */
  lemma {:induction false} AbsorbFilesParts(db: string, e: Entry, files: seq<FileVar>, n: nat)
    requires n <= |files|
    requires NoDuplicates(e.fv) && (e.units == [] || e.units == [db])
    ensures AbsorbedFields(db, e, files, n, AbsorbFiles(db, e, files, n))
    decreases n
  {
    if n == 0 {
      DedupOfDistinct(e.fv);
      assert e.fv + [] == e.fv && e.t + [] == e.t && e.values + [] == e.values && e.pressure + [] == e.pressure;
    } else {
      AbsorbFilesParts(db, e, files, n - 1);
      AbsorbedStep(db, e, files, n - 1, AbsorbFiles(db, e, files, n - 1));
    }
  }

  /** One more file keeps the fields as the loop describes them. */
  lemma AbsorbedStep(db: string, e: Entry, files: seq<FileVar>, i: nat, r0: Entry)
    requires i < |files|
    requires e.units == [] || e.units == [db]
    requires AbsorbedFields(db, e, files, i, r0)
    ensures AbsorbedFields(db, e, files, i + 1, AbsorbFile(db, r0, files[i]))
  {
    var r := AbsorbFile(db, r0, files[i]);
    assert r.t == r0.t + MatchedTimes(db, files[i]);
    assert r.values == r0.values + MatchedValues(db, files[i]);
    assert r.pressure == r0.pressure + MatchedPressure(db, files[i]);
    AbsorbStep(db, files, i, e.t, r0.t, r.t, e.values, r0.values, r.values, e.pressure, r0.pressure, r.pressure);
    FillsStep(db, files, i, e.fv, r0.fv, r.fv);
    UnitsStep(db, files, i, e.units, r0.units, r.units);
  }

  function TimesOf(db: string): FileVar -> seq<int> {
    f => MatchedTimes(db, f)
  }

  function ValuesOf(db: string): FileVar -> seq<Value> {
    f => MatchedValues(db, f)
  }

  function PressureOf(db: string): FileVar -> seq<real> {
    f => MatchedPressure(db, f)
  }

  /** A matching file's fill value, or nothing. */
  function FillsOf(db: string): FileVar -> seq<real> {
    (f: FileVar) => if f.units == db then [f.fillValue] else []
  }

  /** Some of the first `n` files carries the database units. */
  predicate SomeFileMatches(db: string, files: seq<FileVar>, n: nat)
    requires n <= |files|
  {
    exists k :: 0 <= k < n && files[k].units == db
  }

  /** One file of the loop adds its fill value to the deduplicated list when
      its units match. */
  lemma FillsStep(db: string, files: seq<FileVar>, i: nat, fa: seq<real>, f0: seq<real>, f1: seq<real>)
    requires i < |files|
    requires f0 == Dedup(fa + ConcatPrefix(FillsOf(db), files, i))
    requires f1 == if files[i].units == db then AddIfAbsent(f0, files[i].fillValue) else f0
    ensures f1 == Dedup(fa + ConcatPrefix(FillsOf(db), files, i + 1))
  {
    FillsPiece(db, files, i);
    DedupGrows(fa, ConcatPrefix(FillsOf(db), files, i), ConcatPrefix(FillsOf(db), files, i + 1),
               files[i].units == db, files[i].fillValue);
  }

  /** The fill-value concatenation grows by one piece per file. */
  lemma FillsPiece(db: string, files: seq<FileVar>, i: nat)
    requires i < |files|
    ensures ConcatPrefix(FillsOf(db), files, i + 1) ==
      ConcatPrefix(FillsOf(db), files, i) + if files[i].units == db then [files[i].fillValue] else []
  {
    assert FillsOf(db)(files[i]) == if files[i].units == db then [files[i].fillValue] else [];
  }

  /** One file of the loop records the database unit when its units match. */
  lemma UnitsStep(db: string, files: seq<FileVar>, i: nat, ua: seq<string>, u0: seq<string>, u1: seq<string>)
    requires i < |files|
    requires u0 == [] || u0 == [db]
    requires u0 == if SomeFileMatches(db, files, i) then [db] else ua
    requires u1 == if files[i].units == db then AddIfAbsent(u0, files[i].units) else u0
    ensures u1 == if SomeFileMatches(db, files, i + 1) then [db] else ua
  {
    if files[i].units == db {
      assert SomeFileMatches(db, files, i + 1);
    } else {
      assert SomeFileMatches(db, files, i + 1) == SomeFileMatches(db, files, i);
    }
  }

  /** The fill values after the file loop: the old list, unchanged, at the
      front; then each new fill value of a matching file once; no repeats;
      and exactly the old values and those of the matching files. */
  lemma FillValuesSeen(fv0: seq<real>, db: string, files: seq<FileVar>)
    requires NoDuplicates(fv0)
    ensures var r := Dedup(fv0 + ConcatPrefix(FillsOf(db), files, |files|));
      && |fv0| <= |r| && r[..|fv0|] == fv0
      && NoDuplicates(r)
      && forall x :: x in r <==> x in fv0 || exists k :: 0 <= k < |files| && files[k].units == db && files[k].fillValue == x
  {
    var c := ConcatPrefix(FillsOf(db), files, |files|);
    DedupExtends(fv0, c);
    DedupNoDuplicates(fv0 + c);
    DedupMembers(fv0 + c);
    ConcatPrefixMembers(FillsOf(db), files, |files|);
    forall x ensures x in c <==> exists k :: 0 <= k < |files| && files[k].units == db && files[k].fillValue == x {
      if x in c {
        var k :| 0 <= k < |files| && x in FillsOf(db)(files[k]);
        assert files[k].units == db && files[k].fillValue == x;
      }
      if exists k :: 0 <= k < |files| && files[k].units == db && files[k].fillValue == x {
        var k :| 0 <= k < |files| && files[k].units == db && files[k].fillValue == x;
        assert x in FillsOf(db)(files[k]);
      }
    }
  }

  /** Files whose arrays are aligned contribute aligned arrays, so the loop
      keeps the variable's three arrays the same length. */
  lemma {:induction false} MatchedAligned(db: string, files: seq<FileVar>, n: nat)
    requires n <= |files|
    requires forall i :: 0 <= i < |files| ==> FileAligned(files[i])
    ensures |ConcatPrefix(TimesOf(db), files, n)| == |ConcatPrefix(ValuesOf(db), files, n)|
    ensures |ConcatPrefix(TimesOf(db), files, n)| == |ConcatPrefix(PressureOf(db), files, n)|
    decreases n
  {
    if n > 0 {
      MatchedAligned(db, files, n - 1);
      assert FileAligned(files[n - 1]);
      assert TimesOf(db)(files[n - 1]) == MatchedTimes(db, files[n - 1]);
      assert ValuesOf(db)(files[n - 1]) == MatchedValues(db, files[n - 1]);
      assert PressureOf(db)(files[n - 1]) == MatchedPressure(db, files[n - 1]);
    }
  }

  /** One file of the loop extends the three concatenations by one piece. */
  lemma AbsorbStep(db: string, files: seq<FileVar>, i: nat,
                   ta: seq<int>, t0: seq<int>, t1: seq<int>,
                   va: seq<Value>, v0: seq<Value>, v1: seq<Value>,
                   pa: seq<real>, p0: seq<real>, p1: seq<real>)
    requires i < |files|
    requires t0 == ta + ConcatPrefix(TimesOf(db), files, i) && t1 == t0 + MatchedTimes(db, files[i])
    requires v0 == va + ConcatPrefix(ValuesOf(db), files, i) && v1 == v0 + MatchedValues(db, files[i])
    requires p0 == pa + ConcatPrefix(PressureOf(db), files, i) && p1 == p0 + MatchedPressure(db, files[i])
    ensures t1 == ta + ConcatPrefix(TimesOf(db), files, i + 1)
    ensures v1 == va + ConcatPrefix(ValuesOf(db), files, i + 1)
    ensures p1 == pa + ConcatPrefix(PressureOf(db), files, i + 1)
  {
    assert TimesOf(db)(files[i]) == MatchedTimes(db, files[i]);
    assert ValuesOf(db)(files[i]) == MatchedValues(db, files[i]);
    assert PressureOf(db)(files[i]) == MatchedPressure(db, files[i]);
  }

  /** A unit list without repeats whose every entry is the database unit is
      that unit alone: this is why a variable with data has exactly the
      database unit recorded, and the `vinfo['units'][0]` read by the range
      script is that unit. */
  lemma UnitOfData(units: seq<string>, db: string)
    requires NoDuplicates(units) && |units| > 0
    requires forall i :: 0 <= i < |units| ==> units[i] == db
    ensures units == [db]
  {
    if |units| > 1 {
      FirstTwo(units);
      assert false;
    }
  }

  // ---------------------------------------------------------------
  // The pressure unit and name lists

  /** `y_unit` and `y_name`: the pressure units and long names of the matched
      files, each added only if absent. */
  method PressureLabels(seen: seq<(string, string)>) returns (yUnit: seq<string>, yName: seq<string>)
    ensures yUnit == Dedup(Firsts(seen)) && yName == Dedup(Seconds(seen))
    ensures NoDuplicates(yUnit) && NoDuplicates(yName)
    ensures forall u :: u in yUnit <==> u in Firsts(seen)
    ensures forall n :: n in yName <==> n in Seconds(seen)
  {
    yUnit, yName := [], [];
    var i := 0;
    while i < |seen|
      invariant 0 <= i <= |seen|
      invariant yUnit == Dedup(Firsts(seen[..i])) && yName == Dedup(Seconds(seen[..i]))
    {
      LabelsStep(seen, i);
      yUnit := AddIfAbsent(yUnit, seen[i].0);
      yName := AddIfAbsent(yName, seen[i].1);
      i := i + 1;
    }
    assert seen[..|seen|] == seen;
    DedupNoDuplicates(Firsts(seen));
    DedupNoDuplicates(Seconds(seen));
    DedupMembers(Firsts(seen));
    DedupMembers(Seconds(seen));
  }

  function Firsts(ps: seq<(string, string)>): seq<string> {
    seq(|ps|, i requires 0 <= i < |ps| => ps[i].0)
  }

  function Seconds(ps: seq<(string, string)>): seq<string> {
    seq(|ps|, i requires 0 <= i < |ps| => ps[i].1)
  }

  lemma LabelsStep(seen: seq<(string, string)>, i: nat)
    requires i < |seen|
    ensures Dedup(Firsts(seen[..i + 1])) == AddIfAbsent(Dedup(Firsts(seen[..i])), seen[i].0)
    ensures Dedup(Seconds(seen[..i + 1])) == AddIfAbsent(Dedup(Seconds(seen[..i])), seen[i].1)
  {
    assert Firsts(seen[..i + 1]) == Firsts(seen[..i]) + [seen[i].0];
    assert Seconds(seen[..i + 1]) == Seconds(seen[..i]) + [seen[i].1];
    DedupSnoc(Firsts(seen[..i]), seen[i].0);
    DedupSnoc(Seconds(seen[..i]), seen[i].1);
  }

  /** `y_unit = y_unit[0]` when the list has exactly one entry; otherwise the
      list is kept (and a warning printed). */
  datatype Label = One(text: string) | Several(texts: seq<string>)

  function Collapse(xs: seq<string>): (r: Label)
    ensures r.One? <==> |xs| == 1
    ensures r.One? ==> r.text == xs[0]
    ensures r.Several? ==> r.texts == xs
  {
    if |xs| == 1 then One(xs[0]) else Several(xs)
  }

  /** The collected list collapses to one label exactly when at least one file
      was seen and all of them carried that same label. */
  lemma CollapseDedup(xs: seq<string>, x: string)
    ensures Collapse(Dedup(xs)) == One(x) <==> |xs| > 0 && forall i :: 0 <= i < |xs| ==> xs[i] == x
  {
    DedupMembers(xs);
    DedupNoDuplicates(xs);
    var d := Dedup(xs);
    if |xs| > 0 && forall i :: 0 <= i < |xs| ==> xs[i] == x {
      assert xs[0] in d;
      assert forall y :: y in d ==> y == x;
      if |d| > 1 {
        FirstTwo(d);
        assert false;
      }
    }
    if Collapse(d) == One(x) {
      assert d == [x];
      assert x in d;
      forall i | 0 <= i < |xs| ensures xs[i] == x {
        assert xs[i] in d;
      }
    }
  }

  // ---------------------------------------------------------------
  // The time slice and the file selection

  /** `ds.sel(time=slice(start, end))` followed by the emptiness test: with both
      bounds given, a dataset none of whose time stamps lies in the closed
      interval is skipped; with a bound missing nothing is sliced. */
  function SkipForTimeRange(ts: seq<int>, start: Option<int>, end: Option<int>): (skip: bool)
    ensures skip <==> (start.Some? && end.Some? &&
      forall i :: 0 <= i < |ts| ==> ts[i] < start.value || ts[i] > end.value)
  {
    start.Some? && end.Some? && |InRange(ts, start.value, end.value)| == 0
  }

  /** The time stamps in `[lo, hi]`, in order. */
  function InRange(ts: seq<int>, lo: int, hi: int): (r: seq<int>)
    ensures forall x :: x in r <==> x in ts && lo <= x <= hi
    ensures |r| == 0 <==> forall i :: 0 <= i < |ts| ==> ts[i] < lo || ts[i] > hi
    decreases |ts|
  {
    if |ts| == 0 then []
    else
      assert forall x :: x in ts <==> x == ts[0] || x in ts[1..];
      assert forall i :: 1 <= i < |ts| ==> ts[i] == ts[1..][i - 1];
      (if lo <= ts[0] <= hi then [ts[0]] else []) + InRange(ts[1..], lo, hi)
  }

  /** `[x for x in fdatasets if ms in x]`. */
  function FilesContaining(files: seq<string>, ms: string): (r: seq<string>)
    ensures forall x :: x in r <==> x in files && Contains(x, ms)
    ensures |r| <= |files|
    ensures (forall i :: 0 <= i < |files| ==> Contains(files[i], ms)) ==> r == files
  {
    SelectMembers(x => Contains(x, ms), files);
    var r := Select(x => Contains(x, ms), files);
    assert (forall i :: 0 <= i < |files| ==> Contains(files[i], ms)) ==> r == files by {
      if forall i :: 0 <= i < |files| ==> Contains(files[i], ms) {
        SelectAll(x => Contains(x, ms), files);
      }
    }
    r
  }

  /** The selected files stay in their order. */
  lemma FilesContainingKeepsOrder(a: seq<string>, b: seq<string>, x: string, ms: string)
    ensures FilesContaining(a + b, ms) == FilesContaining(a, ms) + FilesContaining(b, ms)
    ensures FilesContaining([x], ms) == if Contains(x, ms) then [x] else []
  {
    SelectAppend(x => Contains(x, ms), a, b);
    SelectOne(x => Contains(x, ms), x);
  }
}
