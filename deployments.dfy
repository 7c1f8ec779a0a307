/** Deployment names such as `deployment0003`: building them from a number,
    reading the number back from the last four characters, the `split('0')`
    reading used by two plotting scripts, the deployment filter of those
    scripts, and the "deployments" column of the data-range report. */
module Deployments {
  import opened Collections
  import opened Strings

  const NamePrefix: string := "deployment"

  /** `'deployment%04d' % n`. */
  function DeploymentName(n: nat): (s: string)
    ensures |s| >= 14 && s[..10] == NamePrefix && AllDigits(s[10..])
  {
    var s := NamePrefix + ZeroPadded(n, 4);
    assert s[10..] == ZeroPadded(n, 4);
    s
  }

  /** `name[-4:]`: the last four characters, or all of a shorter name. */
  function LastFour(name: string): (r: string)
    ensures |r| == if |name| >= 4 then 4 else |name|
    ensures name == name[..|name| - |r|] + r
  {
    if |name| >= 4 then name[|name| - 4..] else name
  }

  /** `int(name[-4:])`, None where Python raises ValueError. */
  function DeploymentNumber(name: string): (r: Option<nat>)
    ensures r.Some? <==> |name| > 0 && AllDigits(LastFour(name))
    ensures r.Some? ==> r.value < 10000
  {
    var tail := LastFour(name);
    if |tail| > 0 && AllDigits(tail) then
      DigitsBelow(tail);
      Pow10Monotone(|tail|, 4);
      ParseNat(tail)
    else None
  }

  function Pow10(k: nat): (p: nat)
    ensures p >= 1
  {
    if k == 0 then 1 else 10 * Pow10(k - 1)
  }

  lemma {:induction false} Pow10Monotone(j: nat, k: nat)
    requires j <= k
    ensures Pow10(j) <= Pow10(k)
    ensures k == 4 ==> Pow10(k) == 10000
    decreases k - j
  {
    if j < k {
      Pow10Monotone(j, k - 1);
    }
    if k == 4 {
      assert Pow10(2) == 100;
    }
  }

  /** A string of `k` digits has a value below `10^k`. */
  lemma {:induction false} DigitsBelow(s: string)
    requires AllDigits(s)
    ensures DigitsValue(s) < Pow10(|s|)
    decreases |s|
  {
    if |s| > 0 {
      var init := s[..|s| - 1];
      DigitsBelow(init);
      assert DigitsValue(s) == 10 * DigitsValue(init) + (s[|s| - 1] as int - '0' as int);
    }
  }

  /** A number below `10^k` is written with at most `k` digits. */
  lemma {:induction false} DecimalLength(n: nat, k: nat)
    requires k >= 1 && n < Pow10(k)
    ensures |Decimal(n)| <= k
    decreases k
  {
    if n >= 10 {
      assert k >= 2;
      assert n / 10 < Pow10(k - 1);
      DecimalLength(n / 10, k - 1);
    }
  }

  /** A name built from a number below 10000 gives the number back. */
  lemma NameNumberRoundTrip(n: nat)
    requires n < 10000
    ensures DeploymentNumber(DeploymentName(n)) == Some(n)
  {
    Pow10Monotone(4, 4);
    DecimalLength(n, 4);
    var p := ZeroPadded(n, 4);
    assert |p| == 4;
    var s := DeploymentName(n);
    assert LastFour(s) == p;
    ParseZeroPadded(n, 4);
  }

  /** `int(name.split('0')[-1])`, the reading of the two plotting scripts:
      the digits after the last `0`, None where Python raises ValueError. */
  function DeploymentNumberAsWritten(name: string): (r: Option<nat>)
    ensures var pieces := SplitOn(name, "0"); r.Some? <==> |pieces[|pieces| - 1]| > 0 && AllDigits(pieces[|pieces| - 1])
  {
    var pieces := SplitOn(name, "0");
    ParseNat(pieces[|pieces| - 1])
  }

  /** A name ending in `0` leaves an empty last piece, and `int('')` fails. */
  lemma AsWrittenFailsOnTrailingZero(a: string)
    ensures DeploymentNumberAsWritten(a + "0") == None
  {
    SplitOnCharConcat(a, '0', "");
    assert a + ['0'] + "" == a + "0";
    assert SplitOn("", "0") == [""];
  }

  lemma NameOfTen()
    ensures DeploymentName(10) == "deployment0010"
  {
    assert Decimal(1) == "1" && Decimal(0) == "0";
    assert Decimal(10) == "10";
    assert Zeros(2) == "00";
  }

  lemma NameOfHundredOne()
    ensures DeploymentName(101) == "deployment01" + "0" + "1"
  {
    assert Decimal(1) == "1" && Decimal(0) == "0";
    assert Decimal(10) == "10";
    assert Decimal(101) == "101";
    assert Zeros(1) == "0";
  }

  /** The script as written cannot read deployment 10 back (the name ends in `0`),
      where the last four characters give 10. */
  lemma AsWrittenFailsOnTen()
    ensures DeploymentNumberAsWritten(DeploymentName(10)) == None
    ensures DeploymentNumber(DeploymentName(10)) == Some(10)
  {
    NameOfTen();
    NameNumberRoundTrip(10);
    assert "deployment0010" == "deployment001" + "0";
    AsWrittenFailsOnTrailingZero("deployment001");
  }

  /** The script as written reads the digits after the last `0`. */
  lemma AsWrittenReadsAfterLastZero(x: string, d: string)
    requires forall i :: 0 <= i < |d| ==> d[i] != '0'
    ensures DeploymentNumberAsWritten(x + "0" + d) == ParseNat(d)
  {
    SplitOnCharConcat(x, '0', d);
    assert x + ['0'] + d == x + "0" + d;
    SplitOnFree(d, "0");
  }

  /** The script as written reads deployment 101 as deployment 1, where the
      last four characters give 101. */
  lemma AsWrittenMisreadsHundredOne()
    ensures DeploymentNumberAsWritten(DeploymentName(101)) == Some(1)
    ensures DeploymentNumber(DeploymentName(101)) == Some(101)
  {
    NameNumberRoundTrip(101);
    NameOfHundredOne();
    AsWrittenReadsAfterLastZero("deployment01", "1");
    ParseOne();
  }

  lemma ParseOne()
    ensures ParseNat("1") == Some(1)
  {
    ParseDecimal(1);
    assert Decimal(1) == "1";
  }

  /** The `deployment_num` option of the plotting scripts: with no option every
      file is kept; otherwise the file is kept when its deployment number is
      the one asked for, and None stands for the ValueError on a name that
      does not end in digits. */
  function DeploymentSelected(name: string, wanted: Option<nat>): (keep: Option<bool>)
    ensures wanted.None? ==> keep == Some(true)
    ensures wanted.Some? ==> (keep.Some? <==> DeploymentNumber(name).Some?)
    ensures wanted.Some? && keep.Some? ==> (keep.value <==> DeploymentNumber(name).value == wanted.value)
  {
    match wanted
    case None => Some(true)
    case Some(n) =>
      match DeploymentNumber(name)
      case None => None
      case Some(d) => Some(d == n)
  }

  /** The filter as written, through `split('0')`. */
  function DeploymentSelectedAsWritten(name: string, wanted: Option<nat>): (keep: Option<bool>)
    ensures wanted.None? ==> keep == Some(true)
    ensures wanted.Some? ==> (keep.Some? <==> DeploymentNumberAsWritten(name).Some?)
    ensures wanted.Some? && keep.Some? ==> (keep.value <==> DeploymentNumberAsWritten(name).value == wanted.value)
  {
    match wanted
    case None => Some(true)
    case Some(n) =>
      match DeploymentNumberAsWritten(name)
      case None => None
      case Some(d) => Some(d == n)
  }

  /** Asking for a deployment keeps exactly the files of that deployment. */
  lemma SelectedExactly(n: nat, m: nat)
    requires n < 10000
    ensures DeploymentSelected(DeploymentName(n), Some(m)) == Some(n == m)
  {
    NameNumberRoundTrip(n);
  }

  /** Asking for deployment 10 stops the script as written with an error on
      the files of deployment 10, and asking for deployment 1 keeps the files
      of deployment 101. */
  lemma SelectedAsWrittenWrong()
    ensures DeploymentSelectedAsWritten(DeploymentName(10), Some(10)) == None
    ensures DeploymentSelectedAsWritten(DeploymentName(101), Some(1)) == Some(true)
    ensures DeploymentSelected(DeploymentName(101), Some(1)) == Some(false)
  {
    AsWrittenFailsOnTen();
    AsWrittenMisreadsHundredOne();
  }

  // ---------------------------------------------------------------
  // The list of deployment numbers and the "deployments" column

  /** `deployments.append(int(deploy[-4:]))` over the preferred-stream rows:
      the numbers of all rows in row order, or None when a name does not
      parse (see DeploymentNumbersMeaning). */
  method DeploymentNumbers(names: seq<string>) returns (r: Option<seq<nat>>)
    ensures r == MapUpTo(DeploymentNumber, names, |names|)
  {
    r := MapAll(DeploymentNumber, names);
  }

  /** The list exists exactly when every name parses, and then holds every
      row's number in row order. */
  lemma DeploymentNumbersMeaning(names: seq<string>)
    ensures var r := MapUpTo(DeploymentNumber, names, |names|);
      && (r.Some? <==> forall i :: 0 <= i < |names| ==> DeploymentNumber(names[i]).Some?)
      && (r.Some? ==> |r.value| == |names| && forall i :: 0 <= i < |names| ==> r.value[i] == DeploymentNumber(names[i]).value)
  {
    MapUpToMeaning(DeploymentNumber, names, |names|);
  }

  /** The decimal forms of the numbers. */
  function Decimals(ds: seq<nat>): (r: seq<string>)
    ensures |r| == |ds| && forall i :: 0 <= i < |ds| ==> r[i] == Decimal(ds[i])
  {
    seq(|ds|, i requires 0 <= i < |ds| => Decimal(ds[i]))
  }

  /** The `t_deploy` column: the numbers in decimal, separated by `, `;
      None where `deployments[0]` raises IndexError on an empty list. */
  method DeploymentsColumn(ds: seq<nat>) returns (col: Option<string>)
    ensures ds == [] <==> col.None?
    ensures col.Some? ==> col.value == Join(Decimals(ds), ", ")
  {
    if |ds| == 0 {
      return None;
    }
    var t := Decimal(ds[0]);
    var i := 1;
    while i < |ds|
      invariant 1 <= i <= |ds|
      invariant t == Join(Decimals(ds[..i]), ", ")
    {
      JoinSnoc(Decimals(ds[..i]), Decimal(ds[i]), ", ");
      assert Decimals(ds[..i + 1]) == Decimals(ds[..i]) + [Decimal(ds[i])];
      t := t + ", " + Decimal(ds[i]);
      i := i + 1;
    }
    assert ds[..|ds|] == ds;
    return Some(t);
  }

  /** The column lists the deployments: splitting it at `, ` and parsing each
      piece gives back the numbers. */
  lemma DeploymentsColumnRoundTrip(ds: seq<nat>)
    requires |ds| > 0
    ensures var pieces := SplitOn(Join(Decimals(ds), ", "), ", ");
      |pieces| == |ds| && forall i :: 0 <= i < |ds| ==> ParseNat(pieces[i]) == Some(ds[i])
  {
    var parts := Decimals(ds);
    forall p, i | p in parts && 0 <= i < |p| ensures p[i] != ',' {
      assert IsDigit(p[i]);
    }
    SplitOnJoin(parts, ", ");
    forall i | 0 <= i < |ds| ensures ParseNat(parts[i]) == Some(ds[i]) {
      ParseDecimal(ds[i]);
    }
  }
}
