/** Sequence helpers shared by all scripts: optional values, the
    "append if not already in the list" idiom, first-seen deduplication
    and numpy boolean-mask indexing. */
module Collections {

  datatype Option<+T> = None | Some(value: T)

  /** No element of `s` occurs twice. */
  predicate NoDuplicates<T(==)>(s: seq<T>) {
    forall i, j :: 0 <= i < j < |s| ==> s[i] != s[j]
  }

  /** The first two entries of a sequence, for proofs that a sequence without
      repeats has at most one entry. */
  lemma FirstTwo<T>(s: seq<T>)
    ensures |s| > 1 ==> s[0] in s && s[1] in s && (NoDuplicates(s) ==> s[0] != s[1])
  {
  }

  /** `if x not in xs: xs.append(x)`. */
  function AddIfAbsent<T(==)>(xs: seq<T>, x: T): (r: seq<T>)
    ensures x in r
    ensures forall i :: 0 <= i < |r| ==> r[i] in xs || r[i] == x
    ensures |xs| <= |r| <= |xs| + 1 && r[..|xs|] == xs
    ensures NoDuplicates(xs) ==> NoDuplicates(r)
  {
    if x in xs then xs else xs + [x]
  }

  /** The distinct elements of `xs` in the order in which they are first seen:
      the list built by a loop of `AddIfAbsent` over `xs`. */
  function Dedup<T(==)>(xs: seq<T>): (r: seq<T>)
    decreases |xs|
  {
    if |xs| == 0 then [] else AddIfAbsent(Dedup(xs[..|xs| - 1]), xs[|xs| - 1])
  }

  /** Index of the first occurrence of `x` in `xs`. */
  function FirstIndex<T(==)>(xs: seq<T>, x: T): (k: nat)
    requires x in xs
    ensures k < |xs| && xs[k] == x && x !in xs[..k]
  {
    if xs[0] == x then 0 else 1 + FirstIndex(xs[1..], x)
  }

  lemma {:induction false} FirstIndexExtend<T>(xs: seq<T>, x: T, y: T)
    requires y in xs
    ensures y in xs + [x] && FirstIndex(xs + [x], y) == FirstIndex(xs, y)
  {
    if xs[0] != y {
      assert (xs + [x])[1..] == xs[1..] + [x];
      FirstIndexExtend(xs[1..], x, y);
    }
  }

  lemma {:induction false} DedupMembers<T>(xs: seq<T>)
    ensures forall y :: y in Dedup(xs) <==> y in xs
  {
    if |xs| > 0 {
      var p := xs[..|xs| - 1];
      DedupMembers(p);
      assert xs == p + [xs[|xs| - 1]];
    }
  }

  lemma {:induction false} DedupNoDuplicates<T>(xs: seq<T>)
    ensures NoDuplicates(Dedup(xs))
  {
    if |xs| > 0 {
      DedupNoDuplicates(xs[..|xs| - 1]);
    }
  }

  /** Dedup keeps first-seen order: an element listed earlier was seen earlier in `xs`. */
  lemma {:induction false} DedupFirstSeenOrder<T>(xs: seq<T>)
    ensures forall y :: y in Dedup(xs) ==> y in xs
    ensures forall i, j :: 0 <= i < j < |Dedup(xs)| ==>
      FirstIndex(xs, Dedup(xs)[i]) < FirstIndex(xs, Dedup(xs)[j])
  {
    DedupMembers(xs);
    if |xs| > 0 {
      var p := xs[..|xs| - 1];
      var x := xs[|xs| - 1];
      var d := Dedup(p);
      assert xs == p + [x];
      DedupFirstSeenOrder(p);
      DedupMembers(p);
      forall y | y in d
        ensures FirstIndex(xs, y) == FirstIndex(p, y)
      {
        FirstIndexExtend(p, x, y);
      }
      if x !in d {
        assert x !in p;
        forall y | y in p
          ensures FirstIndex(xs, y) < |p|
        {
          FirstIndexExtend(p, x, y);
        }
        assert FirstIndex(xs, x) == |p| by {
          assert xs[|p|] == x;
          assert x !in xs[..|p|];
        }
      }
    }
  }

  lemma {:induction false} DedupOfDistinct<T>(xs: seq<T>)
    requires NoDuplicates(xs)
    ensures Dedup(xs) == xs
  {
    if |xs| > 0 {
      var p := xs[..|xs| - 1];
      DedupOfDistinct(p);
      assert xs[|xs| - 1] !in p by {
        forall i | 0 <= i < |p| ensures p[i] != xs[|xs| - 1] {
          assert p[i] == xs[i];
        }
      }
      assert xs == p + [xs[|xs| - 1]];
    }
  }

  /** The deduplicated list is as long as the input exactly when the input has no repeats. */
  lemma {:induction false} DedupLength<T>(xs: seq<T>)
    ensures |Dedup(xs)| <= |xs|
    ensures |Dedup(xs)| == |xs| <==> NoDuplicates(xs)
  {
    if |xs| > 0 {
      var p := xs[..|xs| - 1];
      var x := xs[|xs| - 1];
      DedupLength(p);
      DedupMembers(p);
      if |Dedup(xs)| == |xs| {
        assert |Dedup(p)| == |p| && x !in Dedup(p);
        forall i, j | 0 <= i < j < |xs| ensures xs[i] != xs[j] {
          if j < |p| {
            assert xs[i] == p[i] && xs[j] == p[j];
          } else {
            assert xs[i] == p[i];
          }
        }
      }
      if NoDuplicates(xs) {
        DedupOfDistinct(xs);
      }
    }
  }

  /** Number of `true` entries of a boolean mask. */
  function CountTrue(m: seq<bool>): (n: nat)
    ensures n <= |m|
  {
    if |m| == 0 then 0 else (if m[0] then 1 else 0) + CountTrue(m[1..])
  }

  /** numpy boolean indexing `a[m]`: the entries of `a` whose mask entry is
      true, in their original order. */
  function Keep<T>(a: seq<T>, m: seq<bool>): (r: seq<T>)
    requires |a| == |m|
    ensures |r| == CountTrue(m)
    ensures forall x :: x in r ==> x in a
    ensures (forall i :: 0 <= i < |m| ==> m[i]) ==> r == a
    decreases |a|
  {
    if |a| == 0 then []
    else (if m[0] then [a[0]] else []) + Keep(a[1..], m[1..])
  }

  /** `f` applied to the first `n` entries of `xs`, each result unwrapped;
      None as soon as one of them is missing. */
  function MapUpTo<S, T>(f: S -> Option<T>, xs: seq<S>, n: nat): Option<seq<T>>
    requires n <= |xs|
    decreases n
  {
    if n == 0 then Some([])
    else
      match MapUpTo(f, xs, n - 1)
      case None => None
      case Some(vs) =>
        match f(xs[n - 1])
        case None => None
        case Some(v) => Some(vs + [v])
  }

  lemma {:induction false} MapUpToMeaning<S, T>(f: S -> Option<T>, xs: seq<S>, n: nat)
    requires n <= |xs|
    ensures MapUpTo(f, xs, n).Some? <==> forall i :: 0 <= i < n ==> f(xs[i]).Some?
    ensures MapUpTo(f, xs, n).Some? ==> |MapUpTo(f, xs, n).value| == n
    ensures MapUpTo(f, xs, n).Some? ==> forall i :: 0 <= i < n ==> MapUpTo(f, xs, n).value[i] == f(xs[i]).value
    decreases n
  {
    if n > 0 {
      MapUpToMeaning(f, xs, n - 1);
    }
  }

  /** Applying `f` to every entry in order, stopping at the first entry
      without a value. */
  method MapAll<S, T>(f: S -> Option<T>, xs: seq<S>) returns (r: Option<seq<T>>)
    ensures r == MapUpTo(f, xs, |xs|)
  {
    var vs: seq<T> := [];
    var i := 0;
    while i < |xs|
      invariant 0 <= i <= |xs|
      invariant MapUpTo(f, xs, i) == Some(vs)
    {
      var v := f(xs[i]);
      if v.None? {
        MapUpToFails(f, xs, i, |xs|);
        return None;
      }
      vs := vs + [v.value];
      i := i + 1;
    }
    return Some(vs);
  }

  /** One entry without a value makes the whole map fail. */
  lemma MapUpToFails<S, T>(f: S -> Option<T>, xs: seq<S>, i: nat, n: nat)
    requires i < n <= |xs| && f(xs[i]).None?
    ensures MapUpTo(f, xs, n) == None
  {
    MapUpToMeaning(f, xs, n);
  }

  /** Deduplicating one more element. */
  lemma DedupSnoc<T>(xs: seq<T>, x: T)
    ensures Dedup(xs + [x]) == AddIfAbsent(Dedup(xs), x)
  {
    assert (xs + [x])[..|xs|] == xs;
  }

  /** Deduplicating a list without repeats followed by more entries keeps
      that list, unchanged, at the front. */
  lemma {:induction false} DedupExtends<T>(a: seq<T>, b: seq<T>)
    requires NoDuplicates(a)
    ensures |a| <= |Dedup(a + b)| && Dedup(a + b)[..|a|] == a
    decreases |b|
  {
    if |b| == 0 {
      assert a + b == a;
      DedupOfDistinct(a);
    } else {
      var b', y := b[..|b| - 1], b[|b| - 1];
      DedupExtends(a, b');
      var d := Dedup(a + b');
      assert b == b' + [y];
      DedupGrows(a, b', b, true, y);
      PrefixChain(a, d, AddIfAbsent(d, y));
    }
  }

  /** A prefix of a prefix is a prefix. */
  lemma PrefixChain<T>(a: seq<T>, d: seq<T>, r: seq<T>)
    requires |a| <= |d| && d[..|a|] == a
    requires |d| <= |r| && r[..|d|] == d
    ensures |a| <= |r| && r[..|a|] == a
  {
    assert r[..|a|] == r[..|d|][..|a|];
  }

  /** `f` applied to each of the first `n` entries of `xs`. */
  function MapPrefix<S, T>(f: S -> T, xs: seq<S>, n: nat): seq<T>
    requires n <= |xs|
    decreases n
  {
    if n == 0 then [] else MapPrefix(f, xs, n - 1) + [f(xs[n - 1])]
  }

  lemma {:induction false} MapPrefixElements<S, T>(f: S -> T, xs: seq<S>, n: nat)
    requires n <= |xs|
    ensures |MapPrefix(f, xs, n)| == n
    ensures forall i :: 0 <= i < n ==> MapPrefix(f, xs, n)[i] == f(xs[i])
    decreases n
  {
    if n > 0 {
      MapPrefixElements(f, xs, n - 1);
    }
  }

  /** A list that grows by one entry, or by nothing, deduplicates to the old
      result with that entry added if absent, or to the old result. */
  lemma DedupGrows<T>(a: seq<T>, c: seq<T>, c': seq<T>, grows: bool, x: T)
    requires c' == c + if grows then [x] else []
    ensures Dedup(a + c') == if grows then AddIfAbsent(Dedup(a + c), x) else Dedup(a + c)
  {
    if grows {
      assert a + c' == (a + c) + [x];
      DedupSnoc(a + c, x);
    } else {
      assert a + c' == a + c;
    }
  }

  /** A list without repeats has as many distinct entries as positions. */
  lemma {:induction false} DistinctCard<T>(s: seq<T>)
    requires NoDuplicates(s)
    ensures |set x | x in s| == |s|
    decreases |s|
  {
    if |s| > 0 {
      var s', y := s[..|s| - 1], s[|s| - 1];
      assert NoDuplicates(s');
      DistinctCard(s');
      assert s == s' + [y];
      assert (set x | x in s) == (set x | x in s') + {y};
      assert y !in s' by {
        forall j | 0 <= j < |s'| ensures s'[j] != y {
          assert s'[j] == s[j];
        }
      }
    }
  }

  /** `[x for x in xs if p(x)]`: the entries that pass, in their order. */
  function Select<T>(p: T -> bool, xs: seq<T>): (r: seq<T>)
    ensures |r| <= |xs|
    decreases |xs|
  {
    if |xs| == 0 then []
    else (if p(xs[0]) then [xs[0]] else []) + Select(p, xs[1..])
  }

  /** An entry is kept exactly when it occurs and passes. */
  lemma {:induction false} SelectMembers<T>(p: T -> bool, xs: seq<T>)
    ensures forall x :: x in Select(p, xs) <==> x in xs && p(x)
    decreases |xs|
  {
    if |xs| > 0 {
      SelectMembers(p, xs[1..]);
      assert forall x :: x in xs <==> x == xs[0] || x in xs[1..];
    }
  }

  /** Filtering distributes over concatenation: with SelectOne, the result
      is the passing entries in their original order, each as often as it
      occurs. */
  lemma {:induction false} SelectAppend<T>(p: T -> bool, a: seq<T>, b: seq<T>)
    ensures Select(p, a + b) == Select(p, a) + Select(p, b)
    decreases |a|
  {
    if |a| == 0 {
      assert a + b == b;
    } else {
      var h := if p(a[0]) then [a[0]] else [];
      SelectAppend(p, a[1..], b);
      assert Select(p, a + b) == h + Select(p, a[1..] + b) by {
        assert (a + b)[0] == a[0] && (a + b)[1..] == a[1..] + b;
      }
      assert Select(p, a) == h + Select(p, a[1..]);
    }
  }

  /** When every entry passes, all are kept. */
  lemma {:induction false} SelectAll<T>(p: T -> bool, xs: seq<T>)
    requires forall i :: 0 <= i < |xs| ==> p(xs[i])
    ensures Select(p, xs) == xs
    decreases |xs|
  {
    if |xs| > 0 {
      assert forall i :: 1 <= i < |xs| ==> xs[1..][i - 1] == xs[i];
      SelectAll(p, xs[1..]);
    }
  }

  /** A single entry is kept exactly when it passes. */
  lemma SelectOne<T>(p: T -> bool, x: T)
    ensures Select(p, [x]) == if p(x) then [x] else []
  {
    assert [x][1..] == [];
  }

  /** The concatenation of `f` applied to each of the first `n` entries of `xs`. */
  function ConcatPrefix<S, T>(f: S -> seq<T>, xs: seq<S>, n: nat): seq<T>
    requires n <= |xs|
    decreases n
  {
    if n == 0 then [] else ConcatPrefix(f, xs, n - 1) + f(xs[n - 1])
  }

  /** The concatenation of the first `n` pieces depends only on the first `n` entries. */
  lemma {:induction false} ConcatPrefixAgree<S, T>(f: S -> seq<T>, xs: seq<S>, ys: seq<S>, n: nat)
    requires n <= |xs| && n <= |ys| && xs[..n] == ys[..n]
    ensures ConcatPrefix(f, xs, n) == ConcatPrefix(f, ys, n)
    decreases n
  {
    if n > 0 {
      assert xs[..n - 1] == xs[..n][..n - 1] && ys[..n - 1] == ys[..n][..n - 1];
      assert xs[n - 1] == xs[..n][n - 1] && ys[n - 1] == ys[..n][n - 1];
      ConcatPrefixAgree(f, xs, ys, n - 1);
    }
  }

  /** Concatenating the pieces of `[x] + rest` starts with the piece of `x`. */
  lemma {:induction false} ConcatPrefixCons<S, T>(f: S -> seq<T>, x: S, rest: seq<S>, n: nat)
    requires n <= |rest|
    ensures ConcatPrefix(f, [x] + rest, n + 1) == f(x) + ConcatPrefix(f, rest, n)
    decreases n
  {
    var xs := [x] + rest;
    if n == 0 {
      assert xs[0] == x;
    } else {
      ConcatPrefixCons(f, x, rest, n - 1);
      assert xs[n] == rest[n - 1];
      assert ConcatPrefix(f, xs, n + 1) == ConcatPrefix(f, xs, n) + f(rest[n - 1]);
      assert ConcatPrefix(f, rest, n) == ConcatPrefix(f, rest, n - 1) + f(rest[n - 1]);
      assert (f(x) + ConcatPrefix(f, rest, n - 1)) + f(rest[n - 1]) == f(x) + (ConcatPrefix(f, rest, n - 1) + f(rest[n - 1]));
    }
  }

  /** An element of the concatenation comes from one of the first `n` pieces. */
  lemma {:induction false} ConcatPrefixMembers<S, T>(f: S -> seq<T>, xs: seq<S>, n: nat)
    requires n <= |xs|
    ensures forall y :: y in ConcatPrefix(f, xs, n) <==> exists k :: 0 <= k < n && y in f(xs[k])
    decreases n
  {
    if n > 0 {
      ConcatPrefixMembers(f, xs, n - 1);
    }
  }
}
