/**
 Metric queries: a tenant, region, name and dimensions compiled to a regular expression over series
 names. The query is exact when the expression finds a series just if tenant, region and name agree and
 the query dimensions are among those of the series.
 */
module SeriesQuery {
  import opened Text
  import opened UrlCodec
  import opened SeriesName
  import opened SeriesRegex

  // --- the sorted set of dimensions ---

  // key gives the characters of a name or value as the comparator sees them: case folded for
  // CASE_INSENSITIVE_ORDER, as they are for Python's tuples.
  type Key = Bytes -> string

  // Dimension.compareTo
  function Compare(key: Key, a: (Bytes, Bytes), b: (Bytes, Bytes)): (c: int) {
    if key(a.0) != key(b.0) then (if Less(key(a.0), key(b.0)) then -1 else 1)
    else if key(a.1) != key(b.1) then (if Less(key(a.1), key(b.1)) then -1 else 1)
    else 0
  }

  predicate Ascending(key: Key, dims: Dimensions) {
    forall i, j :: 0 <= i < j < |dims| ==> Compare(key, dims[i], dims[j]) < 0
  }

  lemma CompareLaws(key: Key, a: (Bytes, Bytes), b: (Bytes, Bytes), c: (Bytes, Bytes))
    ensures Compare(key, a, b) == -Compare(key, b, a)
    ensures Compare(key, a, b) < 0 && Compare(key, b, c) <= 0 ==> Compare(key, a, c) < 0
    ensures Compare(key, a, b) <= 0 && Compare(key, b, c) < 0 ==> Compare(key, a, c) < 0
    ensures Compare(key, a, b) == 0 <==> key(a.0) == key(b.0) && key(a.1) == key(b.1)
    ensures Less(key(a.0), key(b.0)) ==> Compare(key, a, b) < 0
  {
    LessTotal(key(a.0), key(b.0));
    LessTotal(key(a.1), key(b.1));
    if Less(key(a.0), key(b.0)) && Less(key(b.0), key(c.0)) { LessTransitive(key(a.0), key(b.0), key(c.0)); }
    if Less(key(a.1), key(b.1)) && Less(key(b.1), key(c.1)) { LessTransitive(key(a.1), key(b.1), key(c.1)); }
    LessTotal(key(a.0), key(c.0));
    LessTotal(key(a.1), key(c.1));
    LessTotal(key(b.0), key(c.0));
    LessTotal(key(b.1), key(c.1));
  }

  // TreeSet.add: an element that compares equal to one already there is not added.
  function AddToTreeSet(key: Key, d: (Bytes, Bytes), dims: Dimensions): (r: Dimensions)
    ensures forall e :: e in r ==> e == d || e in dims
    ensures forall e :: e in dims ==> e in r
    ensures exists e :: e in r && Compare(key, d, e) == 0
  {
    if dims == [] then
      CompareLaws(key, d, d, d);
      assert d in [d];
      [d]
    else if Compare(key, d, dims[0]) < 0 then
      CompareLaws(key, d, d, d);
      assert d in [d] + dims;
      [d] + dims
    else if Compare(key, d, dims[0]) == 0 then
      assert dims[0] in dims;
      dims
    else [dims[0]] + AddToTreeSet(key, d, dims[1..])
  }

  lemma {:induction false} AddKeepsAscending(key: Key, d: (Bytes, Bytes), dims: Dimensions)
    requires Ascending(key, dims)
    ensures Ascending(key, AddToTreeSet(key, d, dims))
  {
    if dims != [] {
      if Compare(key, d, dims[0]) < 0 {
        forall j | 0 <= j < |dims| ensures Compare(key, d, dims[j]) < 0 {
          CompareLaws(key, d, dims[0], dims[j]);
        }
      } else if Compare(key, d, dims[0]) > 0 {
        AddKeepsAscending(key, d, dims[1..]);
        CompareLaws(key, d, dims[0], d);
        PrependKeepsAscending(key, dims, d, AddToTreeSet(key, d, dims[1..]));
      }
    }
  }

  lemma PrependKeepsAscending(key: Key, dims: Dimensions, d: (Bytes, Bytes), r: Dimensions)
    requires dims != [] && Ascending(key, dims) && Ascending(key, r) && Compare(key, dims[0], d) < 0
    requires forall e :: e in r ==> e == d || e in dims[1..]
    ensures Ascending(key, [dims[0]] + r)
  {
    forall j | 0 <= j < |r| ensures Compare(key, dims[0], r[j]) < 0 {
      assert r[j] in r;
      if r[j] != d {
        var m :| 0 <= m < |dims[1..]| && dims[1..][m] == r[j];
        assert dims[m + 1] == r[j];
      }
    }
  }

  // dims is what a tree set of the entries of m holds: ascending entries, one for each class of entries that compare
  // equal.
  ghost predicate TreeSetOf(key: Key, dims: Dimensions, m: map<Bytes, Bytes>) {
    Ascending(key, dims) && EntriesOf(dims, m) && Represents(key, dims, m)
  }

  ghost predicate EntriesOf(dims: Dimensions, m: map<Bytes, Bytes>) {
    forall d | d in dims :: d.0 in m && m[d.0] == d.1
  }

  ghost predicate Represents(key: Key, dims: Dimensions, m: map<Bytes, Bytes>) {
    forall k | k in m :: exists d :: d in dims && Compare(key, (k, m[k]), d) == 0
  }

  method BuildSortedDimSet(key: Key, dimMap: map<Bytes, Bytes>) returns (dimTreeSet: Dimensions)
    ensures TreeSetOf(key, dimTreeSet, dimMap)
  {
    dimTreeSet := [];
    var names := dimMap.Keys;
    while names != {}
      invariant names <= dimMap.Keys && Ascending(key, dimTreeSet)
      invariant forall d | d in dimTreeSet :: d.0 in dimMap && dimMap[d.0] == d.1
      invariant forall k | k in dimMap && k !in names :: exists d ::
                d in dimTreeSet && Compare(key, (k, dimMap[k]), d) == 0
      decreases names
    {
      var dimName :| dimName in names;
      var dim := (dimName, dimMap[dimName]);
      AddKeepsAscending(key, dim, dimTreeSet);
      ghost var before := dimTreeSet;
      dimTreeSet := AddToTreeSet(key, dim, dimTreeSet);
      names := names - {dimName};
      forall k | k in dimMap && k !in names
        ensures exists d :: d in dimTreeSet && Compare(key, (k, dimMap[k]), d) == 0
      {
        if k != dimName {
          var d :| d in before && Compare(key, (k, dimMap[k]), d) == 0;
          assert d in dimTreeSet;
        }
      }
    }
  }

  // No two entries of the query compare equal: none is lost in the tree set.
  predicate NoTies(key: Key, m: map<Bytes, Bytes>) {
    forall k, l | k in m && l in m && k != l :: Compare(key, (k, m[k]), (l, m[l])) != 0
  }

  ghost predicate Holds(dims: Dimensions, m: map<Bytes, Bytes>) {
    forall k | k in m :: (k, m[k]) in dims
  }

  lemma NoTiesHolds(key: Key, dims: Dimensions, m: map<Bytes, Bytes>)
    requires TreeSetOf(key, dims, m) && NoTies(key, m)
    ensures Holds(dims, m)
  {
    forall k | k in m ensures (k, m[k]) in dims {
      var d :| d in dims && Compare(key, (k, m[k]), d) == 0;
      assert d == (d.0, m[d.0]);
    }
  }

  lemma AscendingNeverTies(key: Key, dims: Dimensions, a: (Bytes, Bytes), b: (Bytes, Bytes))
    requires Ascending(key, dims) && a in dims && b in dims && a != b
    ensures Compare(key, a, b) != 0
  {
    var i :| 0 <= i < |dims| && dims[i] == a;
    var j :| 0 <= j < |dims| && dims[j] == b;
    assert Compare(key, a, b) == -Compare(key, b, a) by { CompareLaws(key, a, b, a); }
  }

  lemma HoldsNoTies(key: Key, dims: Dimensions, m: map<Bytes, Bytes>)
    requires Ascending(key, dims) && Holds(dims, m)
    ensures NoTies(key, m)
  {
    forall k, l | k in m && l in m && k != l ensures Compare(key, (k, m[k]), (l, m[l])) != 0 {
      AscendingNeverTies(key, dims, (k, m[k]), (l, m[l]));
    }
  }

  // --- the text of the regular expression ---

  function DimensionsRegex(enc: Bytes -> string, dims: Dimensions): string {
    if dims == [] then ""
    else SKIP + (enc(dims[0].0) + (['='] + (enc(dims[0].1) + (BOUNDARY + DimensionsRegex(enc, dims[1..])))))
  }

  function NameRegex(enc: Bytes -> string, name: Option<Bytes>): string {
    if name.None? then "" else ['&'] + (enc(name.value) + BOUNDARY)
  }

  function RegexText(enc: Bytes -> string, tenant: Bytes, region: Bytes, name: Option<Bytes>,
                     dims: Dimensions): string {
    ['^'] + (enc(tenant) + ("\\" + (['?'] + (enc(region) + (NameRegex(enc, name) + DimensionsRegex(enc, dims))))))
  }

  lemma {:induction false} DimensionsRegexAppends(enc: Bytes -> string, dims: Dimensions, d: (Bytes, Bytes))
    ensures DimensionsRegex(enc, dims + [d]) ==
            DimensionsRegex(enc, dims) + (SKIP + (enc(d.0) + (['='] + (enc(d.1) + BOUNDARY))))
  {
    if dims == [] {
      assert dims + [d] == [d];
      assert DimensionsRegex(enc, []) == "";
      assert BOUNDARY + "" == BOUNDARY;
    } else {
      DimensionsRegexAppends(enc, dims[1..], d);
      assert (dims + [d])[0] == dims[0] && (dims + [d])[1..] == dims[1..] + [d];
      var tail := SKIP + (enc(d.0) + (['='] + (enc(d.1) + BOUNDARY)));
      Regroup(SKIP, enc(dims[0].0), ['='], enc(dims[0].1), BOUNDARY, DimensionsRegex(enc, dims[1..]), tail);
    }
  }

  lemma Regroup(a: string, b: string, c: string, d: string, e: string, f: string, g: string)
    ensures a + (b + (c + (d + (e + (f + g))))) == (a + (b + (c + (d + (e + f))))) + g
  {
  }

  // The StringBuilder of buildSerieNameRegex, with URLEncoder; _build_from_clause is the same with urllib.quote.
  method BuildSerieNameRegex(enc: Bytes -> string, key: Key, tenantId: Bytes, region: Bytes, name: Option<Bytes>,
                             dimensions: map<Bytes, Bytes>)
    returns (regex: string)
    ensures exists dims :: TreeSetOf(key, dims, dimensions) && regex == RegexText(enc, tenantId, region, name, dims)
  {
    regex := FrontRegex(enc, tenantId, region, name);
    ghost var front := regex;
    var dimSortedSet := BuildSortedDimSet(key, dimensions);
    for i := 0 to |dimSortedSet|
      invariant regex == front + DimensionsRegex(enc, dimSortedSet[..i])
    {
      var dim := dimSortedSet[i];
      StepText(enc, dimSortedSet, i, front);
      regex := regex + SKIP;
      regex := regex + enc(dim.0);
      regex := regex + "=";
      regex := regex + enc(dim.1);
      regex := regex + BOUNDARY;
    }
    assert dimSortedSet[..|dimSortedSet|] == dimSortedSet;
    FrontText(enc, tenantId, region, name, DimensionsRegex(enc, dimSortedSet));
  }

  // The part in front of the dimensions
  method FrontRegex(enc: Bytes -> string, tenantId: Bytes, region: Bytes, name: Option<Bytes>) returns (regex: string)
    ensures regex == "^" + enc(tenantId) + "\\?" + enc(region) + NameRegex(enc, name)
  {
    regex := "^";
    regex := regex + enc(tenantId);
    regex := regex + "\\?";
    regex := regex + enc(region);
    if name.Some? {
      ghost var before := regex;
      regex := regex + "&";
      regex := regex + enc(name.value);
      regex := regex + BOUNDARY;
      assert regex == before + (['&'] + (enc(name.value) + BOUNDARY));
    }
  }

  lemma StepText(enc: Bytes -> string, dims: Dimensions, i: nat, front: string)
    requires i < |dims|
    ensures front + DimensionsRegex(enc, dims[..i]) + SKIP + enc(dims[i].0) + "=" + enc(dims[i].1) + BOUNDARY ==
            front + DimensionsRegex(enc, dims[..i + 1])
  {
    assert dims[..i + 1] == dims[..i] + [dims[i]];
    DimensionsRegexAppends(enc, dims[..i], dims[i]);
    AppendFive(front, DimensionsRegex(enc, dims[..i]), SKIP, enc(dims[i].0), ['='], enc(dims[i].1), BOUNDARY);
  }

  lemma AppendFive(front: string, before: string, a: string, b: string, c: string, d: string, e: string)
    ensures front + before + a + b + c + d + e == front + (before + (a + (b + (c + (d + e)))))
  {
  }

  lemma FrontText(enc: Bytes -> string, tenant: Bytes, region: Bytes, name: Option<Bytes>, tail: string)
    ensures "^" + enc(tenant) + "\\?" + enc(region) + NameRegex(enc, name) + tail ==
            ['^'] + (enc(tenant) + ("\\" + (['?'] + (enc(region) + (NameRegex(enc, name) + tail)))))
  {
  }

  // --- the pieces of a query whose tokens mean themselves ---

  function DimensionPieces(segs: seq<string>): seq<Piece> {
    if segs == [] then [] else [Skip] + (Literals(segs[0]) + ([Boundary] + DimensionPieces(segs[1..])))
  }

  ghost predicate PlainDimensions(enc: Bytes -> string, dims: Dimensions) {
    forall i :: 0 <= i < |dims| ==> AllLiteral(enc(dims[i].0)) && AllLiteral(enc(dims[i].1))
  }

  lemma {:induction false} DimensionsRead(enc: Bytes -> string, dims: Dimensions)
    requires PlainDimensions(enc, dims)
    ensures Pieces(DimensionsRegex(enc, dims)) == Some(DimensionPieces(Segments(enc, dims)))
  {
    if dims != [] {
      var more := DimensionsRegex(enc, dims[1..]);
      DimensionsRead(enc, dims[1..]);
      SegmentRead(Segment(enc, dims[0]), more, DimensionPieces(Segments(enc, dims[1..]))) by {
        assert MeansItself('=');
      }
      assert enc(dims[0].0) + (['='] + (enc(dims[0].1) + (BOUNDARY + more))) ==
        Segment(enc, dims[0]) + (BOUNDARY + more);
      assert Segments(enc, dims)[1..] == Segments(enc, dims[1..]);
    }
  }

  lemma SegmentRead(seg: string, more: string, ps: seq<Piece>)
    requires AllLiteral(seg) && Pieces(more) == Some(ps)
    ensures Pieces(SKIP + (seg + (BOUNDARY + more))) == Some([Skip] + (Literals(seg) + ([Boundary] + ps)))
  {
    BoundaryPiece(more);
    assert (BOUNDARY + more)[0] == '(';
    LiteralPieces(seg, BOUNDARY + more);
    SkipPiece(seg + (BOUNDARY + more));
  }

  // region&name(&|$) and what follows
  lemma NamePartRead(w: string, more: string, ps: seq<Piece>)
    requires AllLiteral(w) && Pieces(more) == Some(ps)
    ensures Pieces(w + (BOUNDARY + more)) == Some(Literals(w) + ([Boundary] + ps))
  {
    BoundaryPiece(more);
    assert (BOUNDARY + more)[0] == '(';
    LiteralPieces(w, BOUNDARY + more);
  }

  lemma TenantPartRead(t: string, s2: string, ps: seq<Piece>)
    requires AllLiteral(t) && Pieces(s2) == Some(ps) && s2 != "" && !IsQuantifier(s2[0])
    ensures Read(['^'] + (t + ("\\" + (['?'] + s2)))) ==
            Some(Regex(true, Literals(t) + ([Repeat(Literal('?'), One)] + ps)))
  {
    var s1 := "\\" + (['?'] + s2);
    EscapedPiece('?', s2);
    assert s1[0] == '\\';
    LiteralPieces(t, s1);
    assert (t + s1)[0] == if t == "" then '\\' else t[0];
    assert (['^'] + (t + s1))[1..] == t + s1;
  }

  lemma RegroupName(r: string, n: string, more: string)
    ensures r + ((['&'] + (n + BOUNDARY)) + more) == (r + (['&'] + n)) + (BOUNDARY + more)
  {
  }

  lemma QueryRead(t: string, r: string, n: string, more: string, ps: seq<Piece>)
    requires AllLiteral(t) && AllLiteral(r) && AllLiteral(n) && Pieces(more) == Some(ps)
    ensures Read(['^'] + (t + ("\\" + (['?'] + (r + ((['&'] + (n + BOUNDARY)) + more)))))) ==
            Some(Regex(true, Literals(t) +
                       ([Repeat(Literal('?'), One)] + (Literals(r + (['&'] + n)) + ([Boundary] + ps)))))
  {
    var w := r + (['&'] + n);
    assert AllLiteral(w) by { assert MeansItself('&'); }
    NamePartRead(w, more, ps);
    RegroupName(r, n, more);
    var s2 := w + (BOUNDARY + more);
    assert s2[0] == w[0];
    TenantPartRead(t, s2, Literals(w) + ([Boundary] + ps));
  }

  // --- matching a query against a series name ---

  // The segments of a name from one of them on
  function Tail(segs: seq<string>): string {
    if segs == [] then "" else segs[0] + Behind(segs[1..])
  }

  predicate NoAmpersand(segs: seq<string>) {
    forall i :: 0 <= i < |segs| ==> '&' !in segs[i] && '\n' !in segs[i]
  }

  // A word and the boundary behind it match a segment just if it is that segment.
  lemma MatchWord(w: string, ps: seq<Piece>, seg: string, more: seq<string>)
    requires '&' !in w && '&' !in seg
    ensures Matches(Literals(w) + ([Boundary] + ps), seg + Behind(more)) <==> w == seg && Matches(ps, Tail(more))
  {
    var s := seg + Behind(more);
    MatchLiterals(w, [Boundary] + ps, s);
    if w <= s {
      PrefixOfSegment(w, seg, more);
      MatchBoundary(ps, s[|w|..]);
      if w == seg {
        assert s[|w|..] == Behind(more);
        BehindIsTail(more);
      }
    }
    if w == seg {
      assert w <= s;
    }
  }

  lemma BehindIsTail(more: seq<string>)
    ensures if more == [] then Behind(more) == "" && Tail(more) == ""
            else Behind(more) != "" && Behind(more)[0] == '&' && Behind(more)[1..] == Tail(more)
  {
  }

  // Inside a segment no boundary can follow.
  lemma {:induction false} PrefixOfSegment(w: string, seg: string, more: seq<string>)
    requires '&' !in w && '&' !in seg && w <= seg + Behind(more)
    ensures |w| <= |seg|
    ensures w != seg ==> var s := seg + Behind(more); s[|w|..] != "" && s[|w|..][0] != '&'
  {
    var s := seg + Behind(more);
    BehindIsTail(more);
    if w != "" {
      assert w[0] == s[0];
      if seg != "" {
        assert s[1..] == seg[1..] + Behind(more);
        PrefixOfSegment(w[1..], seg[1..], more);
        assert s[|w|..] == s[1..][|w| - 1..];
        assert w == [w[0]] + w[1..] && seg == [seg[0]] + seg[1..];
      }
    }
  }

  lemma MatchBoundary(ps: seq<Piece>, s: string)
    ensures Matches([Boundary] + ps, s) <==> if s == "" then Matches(ps, s) else s[0] == '&' && Matches(ps, s[1..])
  {
    var qs := [Boundary] + ps;
    assert qs[0] == Boundary && qs[1..] == ps;
    if s == "" {
      assert Matches(ps, s) ==> Spans(qs[0], s, 0) && Matches(qs[1..], s[0..]);
    } else if s[0] == '&' && Matches(ps, s[1..]) {
      assert Spans(qs[0], s, 1);
    }
  }

  // The segments ws occur among segs in this order.
  ghost predicate Subsequence(ws: seq<string>, segs: seq<string>) {
    ws == [] || exists j: nat :: j < |segs| && segs[j] == ws[0] && Subsequence(ws[1..], segs[j + 1..])
  }

  lemma PastFirst(seg: string, b: string, k: nat)
    requires '&' !in seg && 0 < k <= |seg + b| && (seg + b)[k - 1] == '&'
    ensures k > |seg| && (seg + b)[k..] == b[1..][k - |seg| - 1..]
    ensures k > |seg| + 1 ==> b[1..][k - |seg| - 2] == '&'
  {
    var s := seg + b;
    forall i | 0 <= i < |seg| ensures s[i] != '&' {
      assert s[i] == seg[i] && seg[i] in seg;
    }
  }

  // A cut behind an ampersand is one of the segments behind the first.
  lemma CutInTail(segs: seq<string>, k: nat)
    requires NoAmpersand(segs) && segs != [] && 0 < k <= |Tail(segs)| && Tail(segs)[k - 1] == '&'
    ensures var rest, n := Tail(segs[1..]), |segs[0]| + 1;
            n <= k <= |rest| + n && segs[1..] != [] && NoAmpersand(segs[1..]) && Tail(segs)[k..] == rest[k - n..] &&
              (k > n ==> rest[k - n - 1] == '&')
  {
    BehindIsTail(segs[1..]);
    PastFirst(segs[0], Behind(segs[1..]), k);
  }

  // Behind an ampersand, and at the front, there is a segment.
  lemma {:induction false} CutsAtSegment(segs: seq<string>, k: nat) returns (j: nat)
    requires NoAmpersand(segs) && k <= |Tail(segs)|
    requires k == 0 || Tail(segs)[k - 1] == '&'
    ensures j <= |segs| && Tail(segs)[k..] == Tail(segs[j..]) && (j == |segs| ==> segs == [])
  {
    if k == 0 {
      j := 0;
      assert segs[0..] == segs;
    } else {
      var n := |segs[0]| + 1;
      CutInTail(segs, k);
      var more := segs[1..];
      j := CutsAtSegment(more, k - n);
      assert more[j..] == segs[j + 1..];
      j := j + 1;
    }
  }

  // The first k characters can be skipped, and rest is left.
  predicate SkipsTo(s: string, k: nat, rest: string) {
    k <= |s| && s[k..] == rest && Spans(Skip, s, k)
  }

  lemma SkipFurther(a: string, t: string, m: nat, rest: string)
    requires '\n' !in a && SkipsTo(t, m, rest)
    ensures SkipsTo(a + (['&'] + t), |a| + 1 + m, rest)
  {
    var s, k := a + (['&'] + t), |a| + 1 + m;
    assert s[k..] == t[m..];
    assert s[k - 1] == if m == 0 then '&' else t[m - 1];
    assert s[..k] == a + (['&'] + t[..m]);
  }

  lemma TailOf(segs: seq<string>)
    requires |segs| > 1
    ensures Tail(segs) == segs[0] + (['&'] + Tail(segs[1..]))
  {
    BehindIsTail(segs[1..]);
  }

  // The front of the text up to a segment can be skipped.
  lemma {:induction false} SkipsToSegment(segs: seq<string>, j: nat) returns (k: nat)
    requires NoAmpersand(segs) && j < |segs|
    ensures SkipsTo(Tail(segs), k, Tail(segs[j..]))
  {
    if j == 0 {
      k := 0;
      assert segs[0..] == segs;
    } else {
      var more := segs[1..];
      var m := SkipsToSegment(more, j - 1);
      TailOf(segs);
      SkipFurther(segs[0], Tail(more), m, Tail(more[j - 1..]));
      assert more[j - 1..] == segs[j..];
      k := |segs[0]| + 1 + m;
    }
  }

  lemma MatchSkip(ps: seq<Piece>, s: string)
    ensures Matches([Skip] + ps, s) <==> exists k: nat :: k <= |s| && Spans(Skip, s, k) && Matches(ps, s[k..])
  {
    var qs := [Skip] + ps;
    assert qs[0] == Skip && qs[1..] == ps;
  }

  predicate NoneEmptyNoAmpersand(ws: seq<string>) {
    forall i :: 0 <= i < |ws| ==> ws[i] != "" && '&' !in ws[i]
  }

  // A word behind a skip matches the rest of the name just if it is one of the segments left.
  lemma MatchAhead(w: string, ps: seq<Piece>, segs: seq<string>)
    requires w != "" && '&' !in w && NoAmpersand(segs)
    ensures Matches([Skip] + (Literals(w) + ([Boundary] + ps)), Tail(segs)) <==>
            exists j: nat :: j < |segs| && segs[j] == w && Matches(ps, Tail(segs[j + 1..]))
  {
    var qs := Literals(w) + ([Boundary] + ps);
    var s := Tail(segs);
    MatchSkip(qs, s);
    if Matches([Skip] + qs, s) {
      var k: nat :| k <= |s| && Spans(Skip, s, k) && Matches(qs, s[k..]);
      var j := CutsAtSegment(segs, k);
      MatchLiterals(w, [Boundary] + ps, s[k..]);
      assert j < |segs|;
      MatchWord(w, ps, segs[j], segs[j + 1..]);
      assert segs[j..][0] == segs[j] && segs[j..][1..] == segs[j + 1..];
    }
    forall j: nat | j < |segs| && segs[j] == w && Matches(ps, Tail(segs[j + 1..]))
      ensures Matches([Skip] + qs, s)
    {
      MatchWord(w, ps, segs[j], segs[j + 1..]);
      assert segs[j..][0] == segs[j] && segs[j..][1..] == segs[j + 1..];
      var k := SkipsToSegment(segs, j);
    }
  }

  /** The dimension part of a query matches just if its segments are a subsequence of those of the name. */
  lemma {:induction false} MatchIsSubsequence(ws: seq<string>, segs: seq<string>)
    requires NoneEmptyNoAmpersand(ws) && NoAmpersand(segs)
    ensures Matches(DimensionPieces(ws), Tail(segs)) <==> Subsequence(ws, segs)
    decreases |ws|
  {
    if ws != [] {
      var ps := DimensionPieces(ws[1..]);
      MatchAhead(ws[0], ps, segs);
      forall j: nat | j < |segs| && segs[j] == ws[0]
        ensures Matches(ps, Tail(segs[j + 1..])) <==> Subsequence(ws[1..], segs[j + 1..])
      {
        MatchIsSubsequence(ws[1..], segs[j + 1..]);
      }
    }
  }

  // --- a subsequence of ascending dimensions is a subset ---

  lemma SegmentsDiffer(enc: Bytes -> string, a: (Bytes, Bytes), b: (Bytes, Bytes))
    requires TokenEncoding(enc) && Segment(enc, a) == Segment(enc, b)
    ensures a == b
  {
    PlainExcludes(enc(a.0), '=');
    PlainExcludes(enc(b.0), '=');
    Onto(enc(a.0), '=', enc(a.1));
    Onto(enc(b.0), '=', enc(b.1));
    SplitUnique(enc(a.0), enc(a.1), enc(b.0), enc(b.1), '=');
  }

  predicate SubsetOf(ds: Dimensions, sd: Dimensions) {
    forall d | d in ds :: d in sd
  }

  lemma {:induction false} SubsequenceGivesSubset(enc: Bytes -> string, ds: Dimensions, sd: Dimensions)
    requires TokenEncoding(enc) && Subsequence(Segments(enc, ds), Segments(enc, sd))
    ensures SubsetOf(ds, sd)
    decreases |ds|
  {
    if ds != [] {
      var j := FirstIsFound(enc, ds, sd);
      SubsequenceGivesSubset(enc, ds[1..], sd[j + 1..]);
      FirstAndRest(ds, sd, j);
    }
  }

  lemma FirstIsFound(enc: Bytes -> string, ds: Dimensions, sd: Dimensions) returns (j: nat)
    requires TokenEncoding(enc) && ds != [] && Subsequence(Segments(enc, ds), Segments(enc, sd))
    ensures j < |sd| && sd[j] == ds[0] && Subsequence(Segments(enc, ds[1..]), Segments(enc, sd[j + 1..]))
  {
    var segs := Segments(enc, sd);
    j :| j < |segs| && segs[j] == Segments(enc, ds)[0] && Subsequence(Segments(enc, ds)[1..], segs[j + 1..]);
    SegmentsFrom(enc, sd, j);
    SegmentsDiffer(enc, ds[0], sd[j]);
  }

  lemma FirstAndRest(ds: Dimensions, sd: Dimensions, j: nat)
    requires ds != [] && j < |sd| && sd[j] == ds[0] && SubsetOf(ds[1..], sd[j + 1..])
    ensures SubsetOf(ds, sd)
  {
    assert ds == [ds[0]] + ds[1..];
  }

  lemma {:induction false} SegmentsFrom(enc: Bytes -> string, sd: Dimensions, j: nat)
    requires j < |sd|
    ensures Segments(enc, sd)[j] == Segment(enc, sd[j]) && Segments(enc, sd)[j + 1..] == Segments(enc, sd[j + 1..])
  {
    if j > 0 {
      SegmentsFrom(enc, sd[1..], j - 1);
      assert sd[1..][j..] == sd[j + 1..];
    }
  }

  // What follows the first query dimension in the query follows it in the series.
  lemma RestStaysSubset(key: Key, ds: Dimensions, sd: Dimensions, j: nat)
    requires Ascending(key, ds) && Ascending(key, sd) && ds != [] && SubsetOf(ds, sd)
    requires j < |sd| && sd[j] == ds[0]
    ensures SubsetOf(ds[1..], sd[j + 1..])
  {
    forall d | d in ds[1..] ensures d in sd[j + 1..] {
      var i :| 0 <= i < |ds[1..]| && ds[1..][i] == d;
      assert ds[i + 1] == d && d in ds && Compare(key, ds[0], d) < 0;
      var m :| 0 <= m < |sd| && sd[m] == d;
      NotBefore(key, sd, j, m);
      assert sd[j + 1..][m - j - 1] == d;
    }
  }

  lemma NotBefore(key: Key, sd: Dimensions, j: nat, m: nat)
    requires Ascending(key, sd) && j < |sd| && m < |sd| && Compare(key, sd[j], sd[m]) < 0
    ensures j < m
  {
    CompareLaws(key, sd[m], sd[j], sd[m]);
    if m == j { CompareLaws(key, sd[j], sd[j], sd[j]); }
  }

  lemma {:induction false} SubsetGivesSubsequence(enc: Bytes -> string, key: Key, ds: Dimensions, sd: Dimensions)
    requires Ascending(key, ds) && Ascending(key, sd) && SubsetOf(ds, sd)
    ensures Subsequence(Segments(enc, ds), Segments(enc, sd))
    decreases |ds|
  {
    if ds != [] {
      assert ds[0] in ds;
      var j: nat :| j < |sd| && sd[j] == ds[0];
      RestStaysSubset(key, ds, sd, j);
      SubsetGivesSubsequence(enc, key, ds[1..], sd[j + 1..]);
      SegmentsFrom(enc, sd, j);
    }
  }
}
