/** Parsing of THREDDS catalog URLs into OOI reference designators and
    method-stream names, and the first-seen lists of both built by the
    scripts' opening loops.

    A catalog URL has the shape
      <prefix>/<stamp>-<subsite>-<node>-<port>-<sensor>-<method>-<stream>/<page>
    The reference designator is elements 1 to 4 of the dash-separated
    second-last path segment; the method-stream is the text after
    `designator + '-'` up to the next '/'. */
module Catalog {
  import opened Collections
  import opened Strings

  /** No character of `s` is `c`. */
  predicate Free(s: string, c: char) {
    forall i :: 0 <= i < |s| ==> s[i] != c
  }

  /** `url.split('/')[-2]`; an IndexError when the URL has no '/'. */
  function SecondLastSegment(url: string): (r: Option<string>)
    ensures r.Some? <==> |SplitOn(url, "/")| >= 2
  {
    var segs := SplitOn(url, "/");
    if |segs| < 2 then None else Some(segs[|segs| - 2])
  }

  /** `'-'.join(elements[1:5])` where `elements = url.split('/')[-2].split('-')`;
      an IndexError when there are fewer than five elements. */
  function RefDes(url: string): (r: Option<string>)
  {
    match SecondLastSegment(url)
    case None => None
    case Some(seg) =>
      var e := SplitOn(seg, "-");
      if |e| < 5 then None else Some(Join(e[1..5], "-"))
  }

  /** `url.split(rd + '-')[1].split('/')[0]`; an IndexError when `rd + '-'`
      does not occur in the URL. */
  function MethodStream(url: string, rd: string): (r: Option<string>)
  {
    var pieces := SplitOn(url, rd + "-");
    if |pieces| < 2 then None else Some(SplitOn(pieces[1], "/")[0])
  }

  /** The first piece of a split on one character is the longest prefix free of it. */
  lemma {:induction false} SplitFirstPiece(s: string, c: char)
    ensures var p := SplitOn(s, [c])[0];
      p <= s && Free(p, c) && (|p| < |s| ==> s[|p|] == c)
    decreases |s|
  {
    if |s| >= 1 && s[..1] != [c] {
      SplitFirstPiece(s[1..], c);
    }
  }

  /** The last piece of a split on one character is the longest suffix free of it. */
  lemma {:induction false} SplitLastPiece(s: string, c: char)
    ensures LastPieceShape(s, c, SplitOn(s, [c]))
    decreases |s|
  {
    if |s| >= 1 {
      SplitLastPiece(s[1..], c);
      if s[0] == c {
        LastPieceSep(s, c);
      } else {
        LastPieceOther(s, c);
      }
    }
  }

  /** `p`, the last of the pieces `ps` of `s`, is a suffix of `s` free of `c`:
      all of `s` when there is one piece, and preceded by `c` otherwise. */
  predicate LastPieceShape(s: string, c: char, ps: seq<string>)
    requires |ps| >= 1
  {
    var p := ps[|ps| - 1];
    && |p| <= |s| && s[|s| - |p|..] == p && Free(p, c)
    && (|ps| == 1 ==> p == s) && (|ps| > 1 ==> |p| < |s| && s[|s| - |p| - 1] == c)
  }

  lemma LastPieceSep(s: string, c: char)
    requires |s| >= 1 && s[0] == c && LastPieceShape(s[1..], c, SplitOn(s[1..], [c]))
    ensures LastPieceShape(s, c, SplitOn(s, [c]))
  {
    SplitOnConsSep(s, c);
    ShapeAfterSep(s, c, SplitOn(s[1..], [c]), SplitOn(s, [c]));
  }

  lemma LastPieceOther(s: string, c: char)
    requires |s| >= 1 && s[0] != c && LastPieceShape(s[1..], c, SplitOn(s[1..], [c]))
    ensures LastPieceShape(s, c, SplitOn(s, [c]))
  {
    SplitOnConsOther(s, c);
    ShapeAfterOther(s, c, SplitOn(s[1..], [c]), SplitOn(s, [c]));
  }

  /** A leading `c` starts a new, empty, first piece. */
  lemma ShapeAfterSep(s: string, c: char, rest: seq<string>, ps: seq<string>)
    requires |s| >= 1 && s[0] == c && |rest| >= 1 && ps == [""] + rest
    requires LastPieceShape(s[1..], c, rest)
    ensures LastPieceShape(s, c, ps)
  {
    var p := rest[|rest| - 1];
    assert ps[|ps| - 1] == p;
    assert s[1..][|s[1..]| - |p|..] == s[|s| - |p|..];
    if |rest| > 1 {
      assert s[1..][|s[1..]| - |p| - 1] == s[|s| - |p| - 1];
    } else {
      assert |s| - |p| - 1 == 0;
    }
  }

  /** Another leading character joins the first piece. */
  lemma ShapeAfterOther(s: string, c: char, rest: seq<string>, ps: seq<string>)
    requires |s| >= 1 && s[0] != c && |rest| >= 1 && ps == [[s[0]] + rest[0]] + rest[1..]
    requires LastPieceShape(s[1..], c, rest)
    ensures LastPieceShape(s, c, ps)
  {
    var p := rest[|rest| - 1];
    assert s[1..][|s[1..]| - |p|..] == s[|s| - |p|..];
    if |rest| == 1 {
      assert ps == [[s[0]] + p];
      assert s == [s[0]] + s[1..];
      assert Free(ps[0], c);
    } else {
      assert ps[|ps| - 1] == p;
      assert s[1..][|s[1..]| - |p| - 1] == s[|s| - |p| - 1];
    }
  }

  /** `r.split('-')[0]`: the designator's subsite. */
  function Subsite(rd: string): (r: string)
    ensures r <= rd && Free(r, '-') && (|r| < |rd| ==> rd[|r|] == '-')
  {
    SplitFirstPiece(rd, '-');
    SplitOn(rd, "-")[0]
  }

  /** `subsite[0:2]`: the array code. */
  function ArrayCode(subsite: string): (r: string)
    ensures r <= subsite && |r| == if |subsite| < 2 then |subsite| else 2
  {
    if |subsite| < 2 then subsite else subsite[..2]
  }

  /** `r.split('-')[-1]`: the designator's main sensor. */
  function MainSensor(rd: string): (r: string)
    ensures |r| <= |rd| && rd[|rd| - |r|..] == r && Free(r, '-')
    ensures |r| < |rd| ==> rd[|rd| - |r| - 1] == '-'
  {
    SplitLastPiece(rd, '-');
    var ps := SplitOn(rd, "-");
    ps[|ps| - 1]
  }

  /** What the per-URL loop of the plotting scripts derives from one URL. */
  datatype UrlInfo = UrlInfo(
    refdes: string, methodStream: string, subsite: string, arrayCode: string, mainSensor: string)

  /** The designator and method-stream of one URL, as the `rd_list`/`ms_list`
      loops derive them. */
  function UrlIds(url: string): Option<(string, string)> {
    match RefDes(url)
    case None => None
    case Some(rd) =>
      match MethodStream(url, rd)
      case None => None
      case Some(ms) => Some((rd, ms))
  }

  function ParseUrl(url: string): (r: Option<UrlInfo>)
    ensures r.Some? <==> RefDes(url).Some? && MethodStream(url, RefDes(url).value).Some?
    ensures r.Some? ==>
      r.value.refdes == RefDes(url).value && r.value.methodStream == MethodStream(url, r.value.refdes).value
  {
    match UrlIds(url)
    case None => None
    case Some((rd, ms)) =>
      var sub := Subsite(rd);
      Some(UrlInfo(rd, ms, sub, ArrayCode(sub), MainSensor(rd)))
  }

  /** A catalog URL assembled from its parts. */
  function CatalogUrl(prefix: string, stamp: string, sub: string, node: string, port: string,
                      sensor: string, meth: string, stream: string, page: string): string
  {
    prefix + "/" + Join([stamp, sub, node, port, sensor, meth, stream], "-") + "/" + page
  }

  /** The parts a well-formed catalog URL is assembled from. */
  predicate WellFormedParts(prefix: string, stamp: string, sub: string, node: string, port: string,
                            sensor: string, meth: string, stream: string, page: string)
  {
    && (forall p :: p in [stamp, sub, node, port, sensor, meth, stream] ==> Free(p, '-') && Free(p, '/'))
    && Free(page, '/')
    && |sub| > 0 && Free(prefix, sub[0]) && Free(stamp, sub[0])
    && Free(meth, sub[0]) && Free(stream, sub[0])
  }

  lemma FreeConcat(a: string, b: string, c: char)
    requires Free(a, c) && Free(b, c)
    ensures Free(a + b, c)
  {
    assert forall i :: 0 <= i < |a + b| ==> (a + b)[i] == if i < |a| then a[i] else b[i - |a|];
  }

  lemma {:induction false} FreeJoin(parts: seq<string>, sep: string, c: char)
    requires forall p :: p in parts ==> Free(p, c)
    requires Free(sep, c)
    ensures Free(Join(parts, sep), c)
    decreases |parts|
  {
    if |parts| > 1 {
      FreeJoin(parts[1..], sep, c);
      FreeConcat(parts[0], sep, c);
      FreeConcat(parts[0] + sep, Join(parts[1..], sep), c);
    }
  }

  /** The second-last path segment of `prefix/seg/page`. */
  lemma SegmentOfUrl(prefix: string, seg: string, page: string)
    requires Free(seg, '/') && Free(page, '/')
    ensures SecondLastSegment(prefix + "/" + seg + "/" + page) == Some(seg)
  {
    assert prefix + "/" + seg + "/" + page == prefix + ['/'] + (seg + ['/'] + page);
    SplitOnCharConcat(prefix, '/', seg + ['/'] + page);
    SplitOnCharConcat(seg, '/', page);
    SplitOnFree(seg, "/");
    SplitOnFree(page, "/");
  }

  /** The method-stream of an URL whose first occurrence of `rd + '-'` is
      followed by `ms` and a '/'. */
  lemma MethodStreamOfUrl(a: string, rd: string, ms: string, page: string)
    requires |rd| > 0 && rd[0] != '/'
    requires Free(a, rd[0]) && Free(ms, rd[0]) && Free(ms, '/')
    ensures MethodStream(a + rd + "-" + ms + "/" + page, rd) == Some(ms)
  {
    var sep := rd + "-";
    assert a + rd + "-" + ms + "/" + page == a + sep + (ms + ("/" + page));
    StreamPiece(a, sep, ms, page);
    var y := SplitOn(page, sep)[0];
    assert ms + ("/" + y) == ms + "/" + y;
    SplitOnAfterFree(ms, "/", y);
  }

  /** The piece after the first separator runs up to its next occurrence. */
  lemma StreamPiece(a: string, sep: string, ms: string, page: string)
    requires |sep| > 0 && sep[0] != '/'
    requires Free(a, sep[0]) && Free(ms, sep[0])
    ensures var pieces := SplitOn(a + sep + (ms + ("/" + page)), sep);
      |pieces| >= 2 && pieces[1] == ms + ("/" + SplitOn(page, sep)[0])
  {
    SplitOnAfterFree(a, sep, ms + ("/" + page));
    SplitOnHeadFree(ms, "/" + page, sep);
    SplitOnHeadFree("/", page, sep);
  }

  /** The designator of a well-formed catalog URL. */
  lemma RefDesOfCatalogUrl(prefix: string, stamp: string, sub: string, node: string,
                           port: string, sensor: string, meth: string, stream: string,
                           page: string)
    requires WellFormedParts(prefix, stamp, sub, node, port, sensor, meth, stream, page)
    ensures RefDes(CatalogUrl(prefix, stamp, sub, node, port, sensor, meth, stream, page))
      == Some(Join([sub, node, port, sensor], "-"))
  {
    var elems := [stamp, sub, node, port, sensor, meth, stream];
    FreeJoin(elems, "-", '/');
    SegmentOfUrl(prefix, Join(elems, "-"), page);
    SplitOnJoin(elems, "-");
    assert elems[1..5] == [sub, node, port, sensor];
  }

  /** The catalog URL written as the text before the designator, the
      designator, and the text after it. */
  lemma CatalogUrlAround(prefix: string, stamp: string, sub: string, node: string,
                         port: string, sensor: string, meth: string, stream: string,
                         page: string)
    ensures CatalogUrl(prefix, stamp, sub, node, port, sensor, meth, stream, page)
      == (prefix + "/" + stamp + "-") + Join([sub, node, port, sensor], "-") + "-"
         + Join([meth, stream], "-") + "/" + page
  {
    var rd := Join([sub, node, port, sensor], "-");
    var ms := Join([meth, stream], "-");
    var six := [sub, node, port, sensor] + [meth, stream];
    JoinAppend([sub, node, port, sensor], [meth, stream], "-");
    assert [stamp, sub, node, port, sensor, meth, stream] == [stamp] + six;
    assert ([stamp] + six)[1..] == six;
    var mid := stamp + "-" + (rd + "-" + ms);
    assert Join([stamp] + six, "-") == mid;
    assert prefix + "/" + mid == (prefix + "/" + stamp + "-") + rd + "-" + ms;
  }

  /** Parsing a well-formed catalog URL gives back the parts it was built from. */
  lemma ParseCatalogUrl(prefix: string, stamp: string, sub: string, node: string,
                        port: string, sensor: string, meth: string, stream: string,
                        page: string)
    requires WellFormedParts(prefix, stamp, sub, node, port, sensor, meth, stream, page)
    ensures var rd := Join([sub, node, port, sensor], "-");
      ParseUrl(CatalogUrl(prefix, stamp, sub, node, port, sensor, meth, stream, page))
        == Some(UrlInfo(rd, meth + "-" + stream, sub, ArrayCode(sub), sensor))
  {
    var url := CatalogUrl(prefix, stamp, sub, node, port, sensor, meth, stream, page);
    var rd := Join([sub, node, port, sensor], "-");
    var ms := Join([meth, stream], "-");
    RefDesOfCatalogUrl(prefix, stamp, sub, node, port, sensor, meth, stream, page);
    CatalogUrlAround(prefix, stamp, sub, node, port, sensor, meth, stream, page);
    var a := prefix + "/" + stamp + "-";
    var parts := [sub, node, port, sensor];
    assert forall p :: p in parts ==> p in [stamp, sub, node, port, sensor, meth, stream];
    assert Free(sub, '/') && Free(sub, '-');
    assert rd[0] == sub[0];
    FreeConcat(prefix, "/", sub[0]);
    FreeConcat(prefix + "/", stamp, sub[0]);
    FreeConcat(prefix + "/" + stamp, "-", sub[0]);
    FreeJoin([meth, stream], "-", sub[0]);
    FreeJoin([meth, stream], "-", '/');
    MethodStreamOfUrl(a, rd, ms, page);
    SplitOnJoin(parts, "-");
  }

  /** The designators of all URLs, in URL order; None when any URL fails to parse. */
  function AllRefDes(urls: seq<string>): (r: Option<seq<string>>)
    ensures r.Some? <==> forall i :: 0 <= i < |urls| ==> RefDes(urls[i]).Some?
    ensures r.Some? ==> |r.value| == |urls| && forall i :: 0 <= i < |urls| ==> r.value[i] == RefDes(urls[i]).value
  {
    MapUpToMeaning(RefDes, urls, |urls|);
    MapUpTo(RefDes, urls, |urls|)
  }

  /** The designator and method-stream of all URLs, in URL order; None when
      any URL fails to parse. */
  function AllUrlIds(urls: seq<string>): (r: Option<seq<(string, string)>>)
    ensures r.Some? <==> forall i :: 0 <= i < |urls| ==> UrlIds(urls[i]).Some?
    ensures r.Some? ==> |r.value| == |urls| && forall i :: 0 <= i < |urls| ==> r.value[i] == UrlIds(urls[i]).value
  {
    MapUpToMeaning(UrlIds, urls, |urls|);
    MapUpTo(UrlIds, urls, |urls|)
  }

  function Designators(ps: seq<(string, string)>): seq<string> {
    seq(|ps|, i requires 0 <= i < |ps| => ps[i].0)
  }

  function Streams(ps: seq<(string, string)>): seq<string> {
    seq(|ps|, i requires 0 <= i < |ps| => ps[i].1)
  }

  /** The distinct values of `xs` in first-seen order, with the facts the
      scripts rely on: no repeats, the same members, first-seen order. */
  function FirstSeen(xs: seq<string>): (r: seq<string>)
    ensures NoDuplicates(r)
    ensures forall x :: x in r <==> x in xs
    ensures forall i, j :: 0 <= i < j < |r| ==> FirstIndex(xs, r[i]) < FirstIndex(xs, r[j])
  {
    DedupNoDuplicates(xs);
    DedupMembers(xs);
    DedupFirstSeenOrder(xs);
    Dedup(xs)
  }

  /** The `rd_list` loop of the file-analysis script: one designator per URL,
      added when not already present. */
  method DesignatorList(urls: seq<string>) returns (r: Option<seq<string>>)
    ensures r.Some? <==> AllRefDes(urls).Some?
    ensures r.Some? ==> r.value == FirstSeen(AllRefDes(urls).value)
  {
    var rdList: seq<string> := [];
    ghost var seen: seq<string> := [];
    var i := 0;
    while i < |urls|
      invariant 0 <= i <= |urls|
      invariant MapUpTo(RefDes, urls, i) == Some(seen)
      invariant rdList == Dedup(seen)
    {
      var rd := RefDes(urls[i]);
      if rd.None? {
        MapUpToMeaning(RefDes, urls, |urls|);
        return None;
      }
      assert |seen| == i by { MapUpToMeaning(RefDes, urls, i); }
      assert (seen + [rd.value])[..i] == seen;
      rdList := AddIfAbsent(rdList, rd.value);
      seen := seen + [rd.value];
      i := i + 1;
    }
    return Some(rdList);
  }

  /** The `rd_list`/`ms_list` loop of the data-range and plotting scripts:
      both lists built in one pass, each entry added when not already present. */
  method DesignatorAndStreamLists(urls: seq<string>) returns (r: Option<(seq<string>, seq<string>)>)
    ensures r.Some? <==> AllUrlIds(urls).Some?
    ensures r.Some? ==> r.value.0 == FirstSeen(Designators(AllUrlIds(urls).value))
    ensures r.Some? ==> r.value.1 == FirstSeen(Streams(AllUrlIds(urls).value))
  {
    var rdList: seq<string> := [];
    var msList: seq<string> := [];
    ghost var seen: seq<(string, string)> := [];
    var i := 0;
    while i < |urls|
      invariant 0 <= i <= |urls|
      invariant MapUpTo(UrlIds, urls, i) == Some(seen)
      invariant rdList == Dedup(Designators(seen))
      invariant msList == Dedup(Streams(seen))
    {
      var rd := RefDes(urls[i]);
      if rd.None? {
        UnparsedUrl(urls, i);
        return None;
      }
      var ms := MethodStream(urls[i], rd.value);
      if ms.None? {
        UnparsedUrl(urls, i);
        return None;
      }
      ListsStep(urls, i, seen, rd.value, ms.value);
      rdList := AddIfAbsent(rdList, rd.value);
      msList := AddIfAbsent(msList, ms.value);
      seen := seen + [(rd.value, ms.value)];
      i := i + 1;
    }
    return Some((rdList, msList));
  }

  /** One URL that does not parse stops the loop with an error. */
  lemma UnparsedUrl(urls: seq<string>, i: nat)
    requires i < |urls| && UrlIds(urls[i]).None?
    ensures AllUrlIds(urls).None?
  {
  }

  /** One pass of the loop adds the URL's designator and method-stream. */
  lemma ListsStep(urls: seq<string>, i: nat, seen: seq<(string, string)>, rd: string, ms: string)
    requires i < |urls| && MapUpTo(UrlIds, urls, i) == Some(seen) && UrlIds(urls[i]) == Some((rd, ms))
    ensures MapUpTo(UrlIds, urls, i + 1) == Some(seen + [(rd, ms)])
    ensures Dedup(Designators(seen + [(rd, ms)])) == AddIfAbsent(Dedup(Designators(seen)), rd)
    ensures Dedup(Streams(seen + [(rd, ms)])) == AddIfAbsent(Dedup(Streams(seen)), ms)
  {
    assert Designators(seen + [(rd, ms)]) == Designators(seen) + [rd];
    assert Streams(seen + [(rd, ms)]) == Streams(seen) + [ms];
    DedupSnoc(Designators(seen), rd);
    DedupSnoc(Streams(seen), ms);
  }
}
