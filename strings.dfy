/** Python string operations used by the scripts: `str.split(sep)`,
    `sep.join(parts)`, `sub in s`, and decimal formatting and parsing of
    deployment numbers. */
module Strings {
  import opened Collections

  /** `pat` occurs in `s` starting at index `i`. */
  predicate OccursAt(s: string, pat: string, i: nat) {
    i + |pat| <= |s| && s[i..i + |pat|] == pat
  }

  /** Python `sub in s`, returning the first index where `sub` occurs. */
  function Find(s: string, sub: string): (r: Option<nat>)
    ensures r.Some? ==> OccursAt(s, sub, r.value) && forall k :: 0 <= k < r.value ==> !OccursAt(s, sub, k)
    ensures r.None? ==> forall k :: 0 <= k <= |s| ==> !OccursAt(s, sub, k)
    decreases |s|
  {
    if |sub| > |s| then None
    else if s[..|sub|] == sub then Some(0)
    else
      OccursAtTail(s, sub);
      match Find(s[1..], sub)
      case None => None
      case Some(k) => Some(k + 1)
  }

  /** An occurrence past the first character is an occurrence in the tail. */
  lemma OccursAtTail(s: string, sub: string)
    requires |s| > 0
    ensures forall k :: 1 <= k ==> (OccursAt(s, sub, k) <==> OccursAt(s[1..], sub, k - 1))
  {
    forall k | 1 <= k
      ensures OccursAt(s, sub, k) <==> OccursAt(s[1..], sub, k - 1)
    {
      if k + |sub| <= |s| {
        assert s[1..][k - 1..k - 1 + |sub|] == s[k..k + |sub|];
      }
    }
  }

  /** Python `sub in s`. */
  predicate Contains(s: string, sub: string) {
    Find(s, sub).Some?
  }

  /** Python `s.split(sep)` for a non-empty separator: the pieces between the
      leftmost non-overlapping occurrences of `sep`. */
  function SplitOn(s: string, sep: string): (r: seq<string>)
    requires |sep| > 0
    ensures |r| >= 1
    decreases |s|
  {
    if |s| < |sep| then [s]
    else if s[..|sep|] == sep then [""] + SplitOn(s[|sep|..], sep)
    else
      var rest := SplitOn(s[1..], sep);
      [[s[0]] + rest[0]] + rest[1..]
  }

  /** Python `sep.join(parts)`. */
  function Join(parts: seq<string>, sep: string): string
    decreases |parts|
  {
    if |parts| == 0 then ""
    else if |parts| == 1 then parts[0]
    else parts[0] + sep + Join(parts[1..], sep)
  }

  /** Splitting and joining again gives back the original string. */
  lemma {:induction false} JoinSplitOn(s: string, sep: string)
    requires |sep| > 0
    ensures Join(SplitOn(s, sep), sep) == s
    decreases |s|
  {
    if |s| < |sep| {
    } else if s[..|sep|] == sep {
      var rest := SplitOn(s[|sep|..], sep);
      JoinSplitOn(s[|sep|..], sep);
      JoinEmptyFirst(rest, sep);
      assert s == sep + s[|sep|..];
    } else {
      var rest := SplitOn(s[1..], sep);
      JoinSplitOn(s[1..], sep);
      JoinPrependChar(s[0], rest, sep);
      assert s == [s[0]] + s[1..];
    }
  }

  /** An empty first piece contributes only its separator. */
  lemma JoinEmptyFirst(rest: seq<string>, sep: string)
    requires |rest| >= 1
    ensures Join([""] + rest, sep) == sep + Join(rest, sep)
  {
    assert ([""] + rest)[1..] == rest;
  }

  /** Putting a character in front of the first piece puts it in front of the join. */
  lemma JoinPrependChar(c: char, rest: seq<string>, sep: string)
    requires |rest| >= 1
    ensures Join([[c] + rest[0]] + rest[1..], sep) == [c] + Join(rest, sep)
  {
    var parts := [[c] + rest[0]] + rest[1..];
    assert parts[1..] == rest[1..];
    if |rest| > 1 {
      assert Join(rest, sep) == rest[0] + sep + Join(rest[1..], sep);
      assert Join(parts, sep) == ([c] + rest[0]) + sep + Join(rest[1..], sep);
    }
  }

  /** A string none of whose characters starts the separator is one piece. */
  lemma {:induction false} SplitOnFree(a: string, sep: string)
    requires |sep| > 0
    requires forall i :: 0 <= i < |a| ==> a[i] != sep[0]
    ensures SplitOn(a, sep) == [a]
    decreases |a|
  {
    if |a| >= |sep| {
      assert a[..|sep|][0] != sep[0];
      SplitOnFree(a[1..], sep);
      assert a == [a[0]] + a[1..];
    }
  }

  /** When nothing in `a` starts the separator, `a` is the first piece of `a + sep + b`. */
  lemma {:induction false} SplitOnAfterFree(a: string, sep: string, b: string)
    requires |sep| > 0
    requires forall i :: 0 <= i < |a| ==> a[i] != sep[0]
    ensures SplitOn(a + sep + b, sep) == [a] + SplitOn(b, sep)
    decreases |a|
  {
    var s := a + sep + b;
    if |a| == 0 {
      assert s[..|sep|] == sep && s[|sep|..] == b;
    } else {
      assert s[..|sep|][0] == a[0];
      assert s[1..] == a[1..] + sep + b;
      SplitOnAfterFree(a[1..], sep, b);
      assert [s[0]] + a[1..] == a;
    }
  }

  /** When nothing in `a` starts the separator, the first piece of `a + b`
      is `a` followed by the first piece of `b`. */
  lemma {:induction false} SplitOnHeadFree(a: string, b: string, sep: string)
    requires |sep| > 0
    requires forall i :: 0 <= i < |a| ==> a[i] != sep[0]
    ensures SplitOn(a + b, sep)[0] == a + SplitOn(b, sep)[0]
    decreases |a|
  {
    var s := a + b;
    if |a| == 0 {
      assert s == b;
    } else if |s| < |sep| {
      assert |b| < |sep|;
    } else {
      assert s[..|sep|][0] == a[0];
      assert s[1..] == a[1..] + b;
      SplitOnHeadFree(a[1..], b, sep);
      assert [s[0]] + a[1..] == a;
    }
  }

  /** With a one-character separator, splitting distributes over a separator occurrence. */
  lemma {:induction false} SplitOnCharConcat(a: string, c: char, b: string)
    ensures SplitOn(a + [c] + b, [c]) == SplitOn(a, [c]) + SplitOn(b, [c])
    decreases |a|
  {
    var s := a + [c] + b;
    if |a| == 0 {
      assert s[..1] == [c] && s[1..] == b;
    } else {
      assert s[1..] == a[1..] + [c] + b;
      assert s[0] == a[0];
      SplitOnCharConcat(a[1..], c, b);
      if a[0] == c {
        ConcatStepSep(s, a, c, SplitOn(a[1..], [c]), SplitOn(b, [c]));
      } else {
        ConcatStepOther(s, a, c, SplitOn(a[1..], [c]), SplitOn(b, [c]));
      }
    }
  }

  lemma ConcatStepSep(s: string, a: string, c: char, ra: seq<string>, rb: seq<string>)
    requires |s| > 0 && |a| > 0 && s[0] == c && a[0] == c
    requires SplitOn(s[1..], [c]) == ra + rb && SplitOn(a[1..], [c]) == ra
    ensures SplitOn(s, [c]) == SplitOn(a, [c]) + rb
  {
    SplitOnConsSep(s, c);
    SplitOnConsSep(a, c);
    ConsConcat("", ra, rb);
  }

  lemma ConsConcat(x: string, ra: seq<string>, rb: seq<string>)
    ensures [x] + (ra + rb) == ([x] + ra) + rb
  {
  }

  lemma ConcatStepOther(s: string, a: string, c: char, ra: seq<string>, rb: seq<string>)
    requires |s| > 0 && |a| > 0 && s[0] == a[0] && a[0] != c
    requires SplitOn(s[1..], [c]) == ra + rb && SplitOn(a[1..], [c]) == ra
    ensures SplitOn(s, [c]) == SplitOn(a, [c]) + rb
  {
    SplitOnConsOther(s, c);
    SplitOnConsOther(a, c);
    PrependToFirst(a[0], ra, rb);
  }

  /** Extending the first piece of `ra + rb` extends the first piece of `ra`. */
  lemma PrependToFirst(x: char, ra: seq<string>, rb: seq<string>)
    requires |ra| >= 1
    ensures [[x] + (ra + rb)[0]] + (ra + rb)[1..] == ([[x] + ra[0]] + ra[1..]) + rb
  {
    assert (ra + rb)[0] == ra[0];
    assert (ra + rb)[1..] == ra[1..] + rb;
  }

  lemma SplitOnConsSep(x: string, c: char)
    requires |x| > 0 && x[0] == c
    ensures SplitOn(x, [c]) == [""] + SplitOn(x[1..], [c])
  {
    assert x[..1] == [c];
  }

  lemma SplitOnConsOther(x: string, c: char)
    requires |x| > 0 && x[0] != c
    ensures var rest := SplitOn(x[1..], [c]); SplitOn(x, [c]) == [[x[0]] + rest[0]] + rest[1..]
  {
    assert x[..1] != [c];
  }

  /** Joining pieces free of the separator's first character and splitting
      again gives back the pieces. */
  lemma {:induction false} SplitOnJoin(parts: seq<string>, sep: string)
    requires |sep| > 0 && |parts| > 0
    requires forall p, i :: p in parts && 0 <= i < |p| ==> p[i] != sep[0]
    ensures SplitOn(Join(parts, sep), sep) == parts
    decreases |parts|
  {
    if |parts| == 1 {
      SplitOnFree(parts[0], sep);
    } else {
      var p0, tail := parts[0], parts[1..];
      assert p0 in parts;
      assert forall p :: p in tail ==> p in parts;
      assert Join(parts, sep) == p0 + sep + Join(tail, sep);
      SplitOnJoin(tail, sep);
      SplitOnAfterFree(p0, sep, Join(tail, sep));
      assert parts == [p0] + tail;
    }
  }

  /** Joining two non-empty lists of pieces one after the other. */
  lemma {:induction false} JoinAppend(a: seq<string>, b: seq<string>, sep: string)
    requires |a| > 0 && |b| > 0
    ensures Join(a + b, sep) == Join(a, sep) + sep + Join(b, sep)
    decreases |a|
  {
    var ab := a + b;
    assert ab[0] == a[0];
    if |a| == 1 {
      assert ab[1..] == b;
    } else {
      assert ab[1..] == a[1..] + b;
      JoinAppend(a[1..], b, sep);
      assert Join(a, sep) == a[0] + sep + Join(a[1..], sep);
      assert Join(ab, sep) == a[0] + sep + (Join(a[1..], sep) + sep + Join(b, sep));
    }
  }

  /** Appending one piece at the end of a join. */
  lemma {:induction false} JoinSnoc(parts: seq<string>, p: string, sep: string)
    requires |parts| > 0
    ensures Join(parts + [p], sep) == Join(parts, sep) + sep + p
    decreases |parts|
  {
    if |parts| > 1 {
      assert (parts + [p])[1..] == parts[1..] + [p];
      JoinSnoc(parts[1..], p, sep);
    }
  }

  predicate IsDigit(c: char) {
    '0' <= c <= '9'
  }

  predicate AllDigits(s: string) {
    forall i :: 0 <= i < |s| ==> IsDigit(s[i])
  }

  function DigitChar(d: nat): (c: char)
    requires d < 10
    ensures IsDigit(c) && c as int - '0' as int == d
  {
    ('0' as int + d) as char
  }

  /** The value of a string of decimal digits. */
  function DigitsValue(s: string): nat
    requires AllDigits(s)
    decreases |s|
  {
    if |s| == 0 then 0
    else 10 * DigitsValue(s[..|s| - 1]) + (s[|s| - 1] as int - '0' as int)
  }

  /** `int(s)` for strings made of decimal digits; anything else is a ValueError.
      (Python's `int` also accepts a sign, surrounding blanks and underscores;
      the deployment names parsed here never carry them.) */
  function ParseNat(s: string): (r: Option<nat>)
    ensures r.Some? <==> |s| > 0 && AllDigits(s)
  {
    if |s| > 0 && AllDigits(s) then Some(DigitsValue(s)) else None
  }

  /** `str(n)` for a natural number. */
  function Decimal(n: nat): (s: string)
    ensures |s| > 0 && AllDigits(s)
  {
    if n < 10 then [DigitChar(n)] else Decimal(n / 10) + [DigitChar(n % 10)]
  }

  /** Formatting a number and parsing it back gives the number. */
  lemma {:induction false} ParseDecimal(n: nat)
    ensures ParseNat(Decimal(n)) == Some(n)
  {
    var s := Decimal(n);
    if n >= 10 {
      ParseDecimal(n / 10);
      assert s[..|s| - 1] == Decimal(n / 10);
      assert DigitsValue(s) == 10 * (n / 10) + n % 10;
    } else {
      assert s[..0] == "";
      assert DigitsValue(s) == n;
    }
  }

  function Zeros(k: nat): (s: string)
    ensures |s| == k && AllDigits(s)
    ensures forall i :: 0 <= i < k ==> s[i] == '0'
  {
    if k == 0 then "" else ['0'] + Zeros(k - 1)
  }

  /** `'%0*d' % (width, n)`: `n` in decimal, left-padded with zeros to `width` characters. */
  function ZeroPadded(n: nat, width: nat): (s: string)
    ensures AllDigits(s) && |s| >= width && |s| >= 1
  {
    var d := Decimal(n);
    if |d| >= width then d else Zeros(width - |d|) + d
  }

  /** Leading zeros do not change the value of a digit string. */
  lemma {:induction false} LeadingZeros(k: nat, d: string)
    requires AllDigits(d)
    ensures DigitsValue(Zeros(k) + d) == DigitsValue(d)
    decreases k, |d|
  {
    if k == 0 {
      assert Zeros(k) + d == d;
    } else {
      if |d| == 0 {
        LeadingZeros(k - 1, d);
        var s := Zeros(k) + d;
        assert s[..|s| - 1] == Zeros(k - 1) + d;
        assert s[|s| - 1] == '0';
        assert DigitsValue(s) == 10 * DigitsValue(Zeros(k - 1) + d);
      } else {
        var s := Zeros(k) + d;
        var init := d[..|d| - 1];
        assert s[..|s| - 1] == Zeros(k) + init;
        assert s[|s| - 1] == d[|d| - 1];
        LeadingZeros(k, init);
        assert DigitsValue(s) == 10 * DigitsValue(init) + (d[|d| - 1] as int - '0' as int);
      }
    }
  }

  /** Zero-padding and parsing back gives the number. */
  lemma ParseZeroPadded(n: nat, width: nat)
    ensures ParseNat(ZeroPadded(n, width)) == Some(n)
  {
    ParseDecimal(n);
    var d := Decimal(n);
    if |d| < width {
      LeadingZeros(width - |d|, d);
    }
  }
}
