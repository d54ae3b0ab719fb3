/**
 What a query finds at least: while no token is written with a star or a plus sign, a query finds every series it wants,
 because a dot stands for itself as well. Percent encoded queries always do; a form encoded one with a space does not.
 */
module QueryCompleteness {
  import opened Text
  import opened UrlCodec
  import opened SeriesName
  import opened SeriesRegex
  import opened SeriesQuery
  import opened QueryExactness

  // Every character means itself or is a dot.
  predicate Mild(w: string) {
    forall i :: 0 <= i < |w| ==> MeansItself(w[i]) || w[i] == '.'
  }

  ghost predicate MildQuery(enc: Bytes -> string, q: Query) {
    Mild(enc(q.tenant)) && Mild(enc(q.region)) && Mild(enc(q.name)) &&
    forall k | k in q.dims :: Mild(enc(k)) && Mild(enc(q.dims[k]))
  }

  ghost predicate MildDimensions(enc: Bytes -> string, ds: Dimensions) {
    forall i :: 0 <= i < |ds| ==> Mild(enc(ds[i].0)) && Mild(enc(ds[i].1))
  }

  function AtomOf(c: char): Piece {
    Repeat(if c == '.' then AnyChar else Literal(c), One)
  }

  // The pieces of such a text
  function Atoms(w: string): (ps: seq<Piece>)
    ensures |ps| == |w|
  {
    if w == "" then [] else [AtomOf(w[0])] + Atoms(w[1..])
  }

  // No quantifier stands at the front.
  predicate NoQuantifierAt(s: string) {
    s == "" || !IsQuantifier(s[0])
  }

  // --- reading ---

  lemma AtomStep(c: char, tail: string)
    requires (MeansItself(c) || c == '.') && NoQuantifierAt(tail)
    ensures Pieces([c] + tail) == Then(AtomOf(c), Pieces(tail))
  {
    var s := [c] + tail;
    assert s[0] == c && s[1..] == tail;
    assert !(BOUNDARY <= s) && !(SKIP <= s) by { assert BOUNDARY[0] == '(' && SKIP[0] == '('; }
  }

  lemma MildFront(w: string, rest: string)
    requires Mild(w) && NoQuantifierAt(rest)
    ensures NoQuantifierAt(w + rest)
  {
    assert w != "" ==> (w + rest)[0] == w[0];
    assert w == "" ==> w + rest == rest;
  }

  // read takes a character off the front as its atom.
  ghost predicate TakesAtoms(read: string -> Option<seq<Piece>>) {
    forall c: char, tail: string | (MeansItself(c) || c == '.') && NoQuantifierAt(tail) && read(tail).Some? ::
      read([c] + tail) == Some([AtomOf(c)] + read(tail).value)
  }

  lemma AtomsHead(w: string, ps: seq<Piece>)
    requires w != ""
    ensures Atoms(w) + ps == [AtomOf(w[0])] + (Atoms(w[1..]) + ps)
  {
  }

  lemma {:induction false} AtomsTaken(read: string -> Option<seq<Piece>>, w: string, rest: string)
    requires TakesAtoms(read) && Mild(w) && NoQuantifierAt(rest) && read(rest).Some?
    ensures read(w + rest) == Some(Atoms(w) + read(rest).value)
  {
    if w == "" {
      assert w + rest == rest && Atoms(w) + read(rest).value == read(rest).value;
    } else {
      AtomsTaken(read, w[1..], rest);
      MildFront(w[1..], rest);
      assert w + rest == [w[0]] + (w[1..] + rest);
      AtomsHead(w, read(rest).value);
    }
  }

  lemma AtomPieces(w: string, rest: string)
    requires Mild(w) && NoQuantifierAt(rest) && Pieces(rest).Some?
    ensures Pieces(w + rest) == Some(Atoms(w) + Pieces(rest).value)
  {
    forall c: char, tail: string | (MeansItself(c) || c == '.') && NoQuantifierAt(tail) && Pieces(tail).Some?
      ensures Pieces([c] + tail) == Some([AtomOf(c)] + Pieces(tail).value)
    {
      AtomStep(c, tail);
    }
    AtomsTaken(Pieces, w, rest);
  }

  // A word with a boundary behind it
  lemma WordRead(w: string, more: string, ps: seq<Piece>)
    requires Mild(w) && Pieces(more) == Some(ps)
    ensures Pieces(w + (BOUNDARY + more)) == Some(Atoms(w) + ([Boundary] + ps))
  {
    BoundaryPiece(more);
    assert (BOUNDARY + more)[0] == '(';
    AtomPieces(w, BOUNDARY + more);
  }

  function MildPieces(segs: seq<string>): seq<Piece> {
    if segs == [] then [] else [Skip] + (Atoms(segs[0]) + ([Boundary] + MildPieces(segs[1..])))
  }

  lemma MildSegment(a: string, b: string)
    requires Mild(a) && Mild(b)
    ensures Mild(a + (['='] + b))
  {
    assert MeansItself('=');
  }

  lemma {:induction false} MildDimensionsRead(enc: Bytes -> string, ds: Dimensions)
    requires MildDimensions(enc, ds)
    ensures Pieces(DimensionsRegex(enc, ds)) == Some(MildPieces(Segments(enc, ds)))
  {
    if ds != [] {
      var more := DimensionsRegex(enc, ds[1..]);
      MildDimensionsRead(enc, ds[1..]);
      MildSegment(enc(ds[0].0), enc(ds[0].1));
      WordRead(Segment(enc, ds[0]), more, MildPieces(Segments(enc, ds[1..])));
      SkipPiece(Segment(enc, ds[0]) + (BOUNDARY + more));
      RegexHead(enc, ds);
      assert Segments(enc, ds)[1..] == Segments(enc, ds[1..]);
    }
  }

  function MildFrontPieces(t: string, r: string, n: string, ps: seq<Piece>): seq<Piece> {
    Atoms(t) + ([Repeat(Literal('?'), One)] + (Atoms(r + (['&'] + n)) + ([Boundary] + ps)))
  }

  lemma MildQueryRead(t: string, r: string, n: string, more: string, ps: seq<Piece>)
    requires Mild(t) && Mild(r) && Mild(n) && Pieces(more) == Some(ps)
    ensures Read(['^'] + QueryBody(t, r, n, more)) == Some(Regex(true, MildFrontPieces(t, r, n, ps)))
  {
    var w := r + (['&'] + n);
    assert Mild(w) by { assert MeansItself('&'); }
    WordRead(w, more, ps);
    RegroupName(r, n, more);
    MildTenantRead(t, w + (BOUNDARY + more), Atoms(w) + ([Boundary] + ps)) by {
      assert (w + (BOUNDARY + more))[0] == w[0];
    }
  }

  lemma MildTenantRead(t: string, s2: string, ps: seq<Piece>)
    requires Mild(t) && Pieces(s2) == Some(ps) && s2 != "" && !IsQuantifier(s2[0])
    ensures Read(['^'] + (t + ("\\" + (['?'] + s2)))) ==
            Some(Regex(true, Atoms(t) + ([Repeat(Literal('?'), One)] + ps)))
  {
    var s1 := "\\" + (['?'] + s2);
    EscapedPiece('?', s2);
    assert s1[0] == '\\';
    AtomPieces(t, s1);
    assert (t + s1)[0] == if t == "" then '\\' else t[0];
    assert (['^'] + (t + s1))[1..] == t + s1;
  }

  // --- matching ---

  lemma AtomMatches(c: char, ps: seq<Piece>, s: string)
    requires c != '\n' && Matches(ps, s)
    ensures Matches([AtomOf(c)] + ps, [c] + s)
  {
    var qs, u := [AtomOf(c)] + ps, [c] + s;
    assert qs[0] == AtomOf(c) && qs[1..] == ps && u[1..] == s;
    assert Spans(qs[0], u, 1);
  }

  // Behind a character and its atom, what matched still matches.
  ghost predicate Carries(matches: (seq<Piece>, string) -> bool) {
    forall c: char, ps: seq<Piece>, s: string | c != '\n' && matches(ps, s) :: matches([AtomOf(c)] + ps, [c] + s)
  }

  lemma {:induction false} AtomsCarry(matches: (seq<Piece>, string) -> bool, w: string, ps: seq<Piece>, s: string)
    requires Carries(matches) && '\n' !in w && matches(ps, s)
    ensures matches(Atoms(w) + ps, w + s)
  {
    if w == "" {
      assert Atoms(w) + ps == ps && w + s == s;
    } else {
      AtomsCarry(matches, w[1..], ps, s);
      AtomsHead(w, ps);
      assert w + s == [w[0]] + (w[1..] + s);
    }
  }

  lemma MatchesCarry()
    ensures Carries(Matches)
  {
    forall c: char, ps: seq<Piece>, s: string | c != '\n' && Matches(ps, s) ensures Matches([AtomOf(c)] + ps, [c] + s) {
      AtomMatches(c, ps, s);
    }
  }

  lemma WordMatches(w: string, ps: seq<Piece>, more: seq<string>)
    requires '\n' !in w && Matches(ps, Tail(more))
    ensures Matches(Atoms(w) + ([Boundary] + ps), w + Behind(more))
  {
    BehindIsTail(more);
    MatchBoundary(ps, Behind(more));
    MatchesCarry();
    AtomsCarry(Matches, w, [Boundary] + ps, Behind(more));
  }

  lemma {:induction false} SubsequenceMatches(ws: seq<string>, segs: seq<string>)
    requires NoAmpersand(segs) && Subsequence(ws, segs)
    ensures Matches(MildPieces(ws), Tail(segs))
    decreases |ws|
  {
    if ws != [] {
      var ps := MildPieces(ws[1..]);
      var j: nat :| j < |segs| && segs[j] == ws[0] && Subsequence(ws[1..], segs[j + 1..]);
      SubsequenceMatches(ws[1..], segs[j + 1..]);
      WordMatches(ws[0], ps, segs[j + 1..]);
      assert segs[j..][0] == segs[j] && segs[j..][1..] == segs[j + 1..];
      var k := SkipsToSegment(segs, j);
      MatchSkip(Atoms(ws[0]) + ([Boundary] + ps), Tail(segs));
    }
  }

  lemma NoNewline(enc: Bytes -> string, bs: Bytes)
    requires TokenEncoding(enc)
    ensures '\n' !in enc(bs)
  {
    assert Plain(enc(bs));
  }

  lemma FrontCarries(matches: (seq<Piece>, string) -> bool, t: string, qs: seq<Piece>, s: string)
    requires Carries(matches) && '\n' !in t && matches(qs, s)
    ensures matches(Atoms(t) + ([Repeat(Literal('?'), One)] + qs), t + (['?'] + s))
  {
    assert AtomOf('?') == Repeat(Literal('?'), One);
    assert matches([AtomOf('?')] + qs, ['?'] + s);
    AtomsCarry(matches, t, [AtomOf('?')] + qs, ['?'] + s);
  }

  lemma FrontMatches(t: string, r: string, n: string, ps: seq<Piece>, segs: seq<string>)
    requires '\n' !in t && '\n' !in r && '\n' !in n && Matches(ps, Tail(segs))
    ensures Matches(MildFrontPieces(t, r, n, ps), t + (['?'] + (r + (['&'] + (n + Behind(segs))))))
  {
    var w := r + (['&'] + n);
    WordMatches(w, ps, segs);
    NameJoins(r, n, Behind(segs));
    MatchesCarry();
    FrontCarries(Matches, t, Atoms(w) + ([Boundary] + ps), w + Behind(segs));
  }

  lemma NameJoins(r: string, n: string, more: string)
    ensures (r + (['&'] + n)) + more == r + (['&'] + (n + more))
  {
  }

  lemma MildTreeSet(enc: Bytes -> string, q: Query, ds: Dimensions)
    requires MildQuery(enc, q) && EntriesOf(ds, q.dims)
    ensures MildDimensions(enc, ds)
  {
    forall i | 0 <= i < |ds| ensures Mild(enc(ds[i].0)) && Mild(enc(ds[i].1)) {
      assert ds[i] in ds;
    }
  }

  lemma WantedHasAll(q: Query, ds: Dimensions, s: Series)
    requires EntriesOf(ds, q.dims) && Wanted(q, s)
    ensures SubsetOf(ds, s.dims)
  {
    forall d | d in ds ensures d in s.dims {
      assert d == (d.0, q.dims[d.0]);
    }
  }

  // The pieces of the query
  function QueryAtoms(enc: Bytes -> string, q: Query, ds: Dimensions): seq<Piece> {
    MildFrontPieces(enc(q.tenant), enc(q.region), enc(q.name), MildPieces(Segments(enc, ds)))
  }

  lemma QueryReads(enc: Bytes -> string, q: Query, ds: Dimensions)
    requires MildQuery(enc, q) && EntriesOf(ds, q.dims)
    ensures Read(RegexText(enc, q.tenant, q.region, Some(q.name), ds)) == Some(Regex(true, QueryAtoms(enc, q, ds)))
  {
    MildTreeSet(enc, q, ds);
    MildDimensionsRead(enc, ds);
    MildQueryRead(enc(q.tenant), enc(q.region), enc(q.name), DimensionsRegex(enc, ds), MildPieces(Segments(enc, ds)));
  }

  lemma QueryMatches(enc: Bytes -> string, key: Key, q: Query, ds: Dimensions, s: Series)
    requires TokenEncoding(enc) && TreeSetOf(key, ds, q.dims) && Ascending(key, s.dims) && Wanted(q, s)
    ensures Matches(QueryAtoms(enc, q, ds), NameOf(enc, s))
  {
    WantedHasAll(q, ds, s);
    SubsetGivesSubsequence(enc, key, ds, s.dims);
    NoMetaInSegments(enc, s.dims);
    SubsequenceMatches(Segments(enc, ds), Segments(enc, s.dims));
    NoNewline(enc, q.tenant);
    NoNewline(enc, q.region);
    NoNewline(enc, q.name);
    FrontMatches(enc(q.tenant), enc(q.region), enc(q.name), MildPieces(Segments(enc, ds)), Segments(enc, s.dims));
  }

  lemma FindsIf(enc: Bytes -> string, q: Query, ds: Dimensions, s: Series, ps: seq<Piece>)
    requires Read(RegexText(enc, q.tenant, q.region, Some(q.name), ds)) == Some(Regex(true, ps)) &&
             Matches(ps, NameOf(enc, s))
    ensures s in Found(enc, q, ds)
  {
  }

  /** A query of tokens without quantifiers finds every series it wants. */
  lemma FindsWanted(enc: Bytes -> string, key: Key, q: Query, ds: Dimensions, s: Series)
    requires TokenEncoding(enc) && MildQuery(enc, q) && TreeSetOf(key, ds, q.dims)
    requires Ascending(key, s.dims) && Wanted(q, s)
    ensures s in Found(enc, q, ds)
  {
    QueryReads(enc, q, ds);
    QueryMatches(enc, key, q, ds, s);
    FindsIf(enc, q, ds, s, QueryAtoms(enc, q, ds));
  }

  lemma MildThroughout(enc: Bytes -> string, q: Query, free: Bytes -> bool)
    requires (forall bs | free(bs) :: Mild(enc(bs))) && Throughout(q, free)
    ensures MildQuery(enc, q)
  {
  }

  // --- the two encodings ---

  lemma MildConcat(a: string, b: string)
    requires Mild(a) && Mild(b)
    ensures Mild(a + b)
  {
  }

  lemma PercentByteIsMild(b: byte)
    ensures Mild(PercentByte(b))
  {
  }

  lemma {:induction false} PercentIsMild(bs: Bytes)
    ensures Mild(PercentEncode(bs))
  {
    if bs != [] {
      PercentIsMild(bs[1..]);
      PercentByteIsMild(bs[0]);
      MildConcat(PercentByte(bs[0]), PercentEncode(bs[1..]));
    }
  }

  // Neither a star nor a space
  predicate NothingRepeats(bs: Bytes) {
    forall i :: 0 <= i < |bs| ==> bs[i] != 42 && bs[i] != 32
  }

  lemma FormByteIsMild(b: byte)
    requires b != 42 && b != 32
    ensures Mild(FormByte(b))
  {
  }

  lemma {:induction false} FormIsMild(bs: Bytes)
    requires NothingRepeats(bs)
    ensures Mild(FormEncode(bs))
  {
    if bs != [] {
      FormIsMild(bs[1..]);
      assert bs[0] != 42 && bs[0] != 32;
      FormByteIsMild(bs[0]);
      MildConcat(FormByte(bs[0]), FormEncode(bs[1..]));
    }
  }

  lemma PercentQueryIsMild(q: Query)
    ensures MildQuery(PercentEncode, q)
  {
    forall bs ensures Mild(PercentEncode(bs)) {
      PercentIsMild(bs);
    }
  }

  lemma FormQueryIsMild(q: Query)
    requires Throughout(q, NothingRepeats)
    ensures MildQuery(FormEncode, q)
  {
    forall bs | NothingRepeats(bs) ensures Mild(FormEncode(bs)) {
      FormIsMild(bs);
    }
    MildThroughout(FormEncode, q, NothingRepeats);
  }

  /** With percent encoding every query finds every series it wants, dots and ties among its dimensions or not. */
  lemma PercentFindsWanted(key: Key, q: Query, ds: Dimensions, s: Series)
    requires TreeSetOf(key, ds, q.dims) && Ascending(key, s.dims) && Wanted(q, s)
    ensures s in Found(PercentEncode, q, ds)
  {
    PercentIsTokenEncoding();
    PercentQueryIsMild(q);
    FindsWanted(PercentEncode, key, q, ds, s);
  }

  /** With URLEncoder every query without stars and spaces does. */
  lemma FormFindsWanted(key: Key, q: Query, ds: Dimensions, s: Series)
    requires TreeSetOf(key, ds, q.dims) && Ascending(key, s.dims) && Wanted(q, s) && Throughout(q, NothingRepeats)
    ensures s in Found(FormEncode, q, ds)
  {
    FormIsTokenEncoding();
    FormQueryIsMild(q);
    FindsWanted(FormEncode, key, q, ds, s);
  }

  // --- a query that misses what it wants ---

  lemma PlusPiece(c: char, rest: string)
    requires MeansItself(c)
    ensures Pieces([c] + (['+'] + rest)) == Then(Repeat(Literal(c), Plus), Pieces(rest))
  {
    var s := [c] + (['+'] + rest);
    assert s[0] == c && s[1..] == ['+'] + rest && s[1..][1..] == rest;
    assert !(BOUNDARY <= s) && !(SKIP <= s) by { assert BOUNDARY[0] == '(' && SKIP[0] == '('; }
  }

  // The pieces of a+b(&|$)
  function SpacedPieces(): seq<Piece> {
    [Repeat(Literal('a'), Plus)] + (Literals("b") + [Boundary])
  }

  lemma SpacedNameReads()
    ensures Pieces("a+b" + BOUNDARY) == Some(SpacedPieces())
  {
    assert BOUNDARY + "" == BOUNDARY && Pieces("") == Some([]);
    BoundaryPiece("");
    assert [Boundary] + [] == [Boundary] && Pieces(BOUNDARY) == Some([Boundary]);
    LiteralPieces("b", BOUNDARY);
    PlusPiece('a', "b" + BOUNDARY);
    assert "a+b" + BOUNDARY == ['a'] + (['+'] + ("b" + BOUNDARY));
  }

  // a+ takes the letter, and then the plus sign of the name is no b.
  lemma SpacedNameMisses()
    ensures !Matches(SpacedPieces(), "a+b")
  {
    var ps, s := SpacedPieces(), "a+b";
    assert ps[0] == Repeat(Literal('a'), Plus) && ps[1..] == Literals("b") + [Boundary];
    forall k: nat | k <= |s| && Spans(ps[0], s, k) ensures !Matches(ps[1..], s[k..]) {
      assert s[1] == '+' && (k > 1 ==> Takes(Literal('a'), s[1]));
      assert k == 1 && s[1..] == "+b" && Literals("b")[0] == Repeat(Literal('b'), One);
      MatchLiterals("b", [Boundary], "+b");
    }
  }

  lemma SpacedReads(t: string, r: string)
    requires AllLiteral(t) && AllLiteral(r)
    ensures Read(['^'] + (t + ("\\" + (['?'] + ((r + ['&']) + ("a+b" + BOUNDARY)))))) ==
            Some(Regex(true, Literals(t) + ([Repeat(Literal('?'), One)] + (Literals(r + ['&']) + SpacedPieces()))))
  {
    var w := r + ['&'];
    assert AllLiteral(w) by { assert MeansItself('&'); }
    SpacedNameReads();
    LiteralPieces(w, "a+b" + BOUNDARY);
    assert (w + ("a+b" + BOUNDARY))[0] == w[0];
    TenantPartRead(t, w + ("a+b" + BOUNDARY), Literals(w) + SpacedPieces());
  }

  lemma SpacedMisses(t: string, r: string)
    ensures !Matches(Literals(t) + ([Repeat(Literal('?'), One)] + (Literals(r + ['&']) + SpacedPieces())),
                     t + (['?'] + ((r + ['&']) + "a+b")))
  {
    var w := r + ['&'];
    var qs := Literals(w) + SpacedPieces();
    var s := ['?'] + (w + "a+b");
    MatchLiterals(t, [Repeat(Literal('?'), One)] + qs, t + s);
    assert (t + s)[|t|..] == s && s[1..] == w + "a+b";
    MatchOne([Repeat(Literal('?'), One)] + qs, s);
    assert ([Repeat(Literal('?'), One)] + qs)[1..] == qs;
    MatchLiterals(w, SpacedPieces(), w + "a+b");
    assert (w + "a+b")[|w|..] == "a+b";
    SpacedNameMisses();
  }

  // The metric name "a b", and no dimensions
  const SPACED := Query([116], [114], [97, 32, 98], map[])
  const SPACED_SERIES := Series([116], [114], [97, 32, 98], [])

  lemma SpacedTokens()
    ensures FormEncode([116]) == "t" && FormEncode([114]) == "r" && FormEncode([97, 32, 98]) == "a+b"
  {
    assert [116][1..] == [] && [114][1..] == [];
    assert [97, 32, 98][1..] == [32, 98] && [32, 98][1..] == [98] && [98][1..] == [];
    assert FormEncode([98]) == "b" && FormEncode([32, 98]) == "+b";
  }

  /** With URLEncoder the query for a name with a space does not find the very series of that name. */
  lemma SpaceMissesItself(key: Key)
    ensures Wanted(SPACED, SPACED_SERIES) && Ascending(key, SPACED_SERIES.dims) && TreeSetOf(key, [], SPACED.dims)
    ensures SPACED_SERIES !in Found(FormEncode, SPACED, [])
  {
    SpacedTokens();
    SpacedReads("t", "r");
    SpacedMisses("t", "r");
    SpacedTexts("t", "r");
  }

  lemma SpacedTexts(t: string, r: string)
    requires FormEncode([116]) == t && FormEncode([114]) == r && FormEncode([97, 32, 98]) == "a+b"
    ensures RegexText(FormEncode, [116], [114], Some([97, 32, 98]), []) ==
            ['^'] + (t + ("\\" + (['?'] + ((r + ['&']) + ("a+b" + BOUNDARY)))))
    ensures NameOf(FormEncode, SPACED_SERIES) == t + (['?'] + ((r + ['&']) + "a+b"))
  {
    assert r + ((['&'] + ("a+b" + BOUNDARY)) + "") == (r + ['&']) + ("a+b" + BOUNDARY);
    assert r + (['&'] + ("a+b" + "")) == (r + ['&']) + "a+b";
  }
}
