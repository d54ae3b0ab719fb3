/**
 When a metric query is exact: it finds a series just if tenant, region and name agree and the query's
 dimensions are among those of the series. Tokens go into the regular expression as they are encoded,
 so a token that keeps a dot, a star or a plus sign takes part in the matching.
 */
module QueryExactness {
  import opened Text
  import opened UrlCodec
  import opened SeriesName
  import opened SeriesRegex
  import opened SeriesQuery

  datatype Query = Query(tenant: Bytes, region: Bytes, name: Bytes, dims: map<Bytes, Bytes>)

  // A stored series lists its dimensions in the order of the comparator.
  datatype Series = Series(tenant: Bytes, region: Bytes, name: Bytes, dims: Dimensions)

  function NameOf(enc: Bytes -> string, s: Series): string {
    Print(enc, s.tenant, s.region, s.name, s.dims)
  }

  // The specification of a query
  ghost predicate Wanted(q: Query, s: Series) {
    SameFront(q, s) && Holds(s.dims, q.dims)
  }

  // No token of the query holds a character with a meaning in regular expressions.
  ghost predicate PlainQuery(enc: Bytes -> string, q: Query) {
    AllLiteral(enc(q.tenant)) && AllLiteral(enc(q.region)) && AllLiteral(enc(q.name)) &&
    PlainEntries(enc, q.dims)
  }

  ghost predicate PlainEntries(enc: Bytes -> string, m: map<Bytes, Bytes>) {
    forall k | k in m :: AllLiteral(enc(k)) && AllLiteral(enc(m[k]))
  }

  lemma SplitFront(a: string, c: char, w: string, b: string, s: string)
    requires c !in a && c !in b
    ensures a + ([c] + w) <= b + ([c] + s) <==> a == b && w <= s
  {
    var l, r := a + ([c] + w), b + ([c] + s);
    if l <= r {
      var rest := r[|l|..];
      assert r == a + [c] + (w + rest);
      Onto(b, c, s);
      SplitUnique(a, w + rest, b, s, c);
    }
  }

  // tenant?region&name(&|$)...
  lemma MatchFront(t: string, r: string, n: string, ps: seq<Piece>, t': string, r': string, n': string,
                   segs: seq<string>)
    requires '?' !in t && '?' !in t' && '&' !in r && '&' !in r' && '&' !in n && '&' !in n'
    ensures Matches(Literals(t) + ([Repeat(Literal('?'), One)] + (Literals(r + (['&'] + n)) + ([Boundary] + ps))),
                    t' + (['?'] + (r' + (['&'] + (n' + Behind(segs)))))) <==>
            t == t' && r == r' && n == n' && Matches(ps, Tail(segs))
  {
    var s2 := r' + (['&'] + (n' + Behind(segs)));
    var s := t' + (['?'] + s2);
    var qs := Literals(r + (['&'] + n)) + ([Boundary] + ps);
    MatchLiterals(t, [Repeat(Literal('?'), One)] + qs, s);
    FrontToken(t, '?', t', s2);
    if t <= s {
      MatchOne([Repeat(Literal('?'), One)] + qs, s[|t|..]);
    }
    MatchNamePart(r, n, ps, r', n', segs);
  }

  // A word with the separator behind it is at the front just if it is the first token.
  lemma FrontToken(w: string, c: char, token: string, rest: string)
    requires c !in w && c !in token
    ensures var s := token + ([c] + rest);
            (w <= s && s[|w|..] != "" && s[|w|..][0] == c) <==> w == token
    ensures w == token ==> (token + ([c] + rest))[|w|..][1..] == rest
  {
    var s := token + ([c] + rest);
    if w <= s && s[|w|..] != "" && s[|w|..][0] == c {
      assert s == w + [c] + s[|w| + 1..];
      Onto(token, c, rest);
      SplitUnique(w, s[|w| + 1..], token, rest, c);
    }
  }

  lemma MatchNamePart(r: string, n: string, ps: seq<Piece>, r': string, n': string, segs: seq<string>)
    requires '&' !in r && '&' !in r' && '&' !in n && '&' !in n'
    ensures Matches(Literals(r + (['&'] + n)) + ([Boundary] + ps), r' + (['&'] + (n' + Behind(segs)))) <==>
            r == r' && n == n' && Matches(ps, Tail(segs))
  {
    var w := r + (['&'] + n);
    var s2 := n' + Behind(segs);
    var s := r' + (['&'] + s2);
    MatchLiterals(w, [Boundary] + ps, s);
    SplitFront(r, '&', n, r', s2);
    MatchLiterals(n, [Boundary] + ps, s2);
    MatchWord(n, ps, n', segs);
    if r == r' && n <= s2 {
      SameBehind(r, '&', n, s2);
    }
  }

  lemma SameBehind(r: string, c: char, n: string, s: string)
    requires n <= s
    ensures var w := r + ([c] + n); w <= r + ([c] + s) && (r + ([c] + s))[|w|..] == s[|n|..]
  {
  }

  lemma NoMetaInSegments(enc: Bytes -> string, dims: Dimensions)
    requires TokenEncoding(enc)
    ensures NoAmpersand(Segments(enc, dims)) && NoneEmptyNoAmpersand(Segments(enc, dims))
  {
    SegmentsExclude(enc, dims, '&');
    forall i | 0 <= i < |dims| ensures '\n' !in Segments(enc, dims)[i] && Segments(enc, dims)[i] != "" {
      assert Plain(enc(dims[i].0)) && Plain(enc(dims[i].1));
    }
  }

  function FrontPieces(t: string, r: string, n: string, ps: seq<Piece>): seq<Piece> {
    Literals(t) + ([Repeat(Literal('?'), One)] + (Literals(r + (['&'] + n)) + ([Boundary] + ps)))
  }

  lemma PlainTreeSet(enc: Bytes -> string, q: Query, ds: Dimensions)
    requires PlainEntries(enc, q.dims) && EntriesOf(ds, q.dims)
    ensures PlainDimensions(enc, ds)
  {
    forall i | 0 <= i < |ds| ensures AllLiteral(enc(ds[i].0)) && AllLiteral(enc(ds[i].1)) {
      assert ds[i] in ds;
    }
  }

  // The pieces of a query, written for a query of plain tokens
  function PlainPieces(enc: Bytes -> string, q: Query, ds: Dimensions): seq<Piece> {
    FrontPieces(enc(q.tenant), enc(q.region), enc(q.name), DimensionPieces(Segments(enc, ds)))
  }

  lemma QueryPieces(enc: Bytes -> string, q: Query, ds: Dimensions)
    requires AllLiteral(enc(q.tenant)) && AllLiteral(enc(q.region)) && AllLiteral(enc(q.name)) &&
             PlainDimensions(enc, ds)
    ensures Read(RegexText(enc, q.tenant, q.region, Some(q.name), ds)) == Some(Regex(true, PlainPieces(enc, q, ds)))
  {
    DimensionsRead(enc, ds);
    QueryRead(enc(q.tenant), enc(q.region), enc(q.name), DimensionsRegex(enc, ds), DimensionPieces(Segments(enc, ds)));
  }

  predicate SameFront(q: Query, s: Series) {
    q.tenant == s.tenant && q.region == s.region && q.name == s.name
  }

  lemma FrontsAgree(enc: Bytes -> string, q: Query, s: Series)
    requires TokenEncoding(enc)
    ensures SameFront(q, s) <==>
            enc(q.tenant) == enc(s.tenant) && enc(q.region) == enc(s.region) && enc(q.name) == enc(s.name)
  {
  }

  lemma PiecesMatch(enc: Bytes -> string, q: Query, ds: Dimensions, s: Series)
    requires TokenEncoding(enc)
    ensures Matches(PlainPieces(enc, q, ds), NameOf(enc, s)) <==>
            SameFront(q, s) && Matches(DimensionPieces(Segments(enc, ds)), Tail(Segments(enc, s.dims)))
  {
    FrontsAgree(enc, q, s);
    PlainExcludes(enc(q.tenant), '?');
    PlainExcludes(enc(s.tenant), '?');
    PlainExcludes(enc(q.region), '&');
    PlainExcludes(enc(s.region), '&');
    PlainExcludes(enc(q.name), '&');
    PlainExcludes(enc(s.name), '&');
    MatchFront(enc(q.tenant), enc(q.region), enc(q.name), DimensionPieces(Segments(enc, ds)),
      enc(s.tenant), enc(s.region), enc(s.name), Segments(enc, s.dims));
  }

  lemma DimensionsMatch(enc: Bytes -> string, key: Key, ds: Dimensions, sd: Dimensions)
    requires TokenEncoding(enc) && Ascending(key, ds) && Ascending(key, sd)
    ensures Matches(DimensionPieces(Segments(enc, ds)), Tail(Segments(enc, sd))) <==> SubsetOf(ds, sd)
  {
    NoMetaInSegments(enc, ds);
    NoMetaInSegments(enc, sd);
    MatchIsSubsequence(Segments(enc, ds), Segments(enc, sd));
    if SubsetOf(ds, sd) {
      SubsetGivesSubsequence(enc, key, ds, sd);
    }
    if Subsequence(Segments(enc, ds), Segments(enc, sd)) {
      SubsequenceGivesSubset(enc, ds, sd);
    }
  }

  /**
   What a query of plain tokens finds: the series of that tenant, region and name that have every dimension of its tree
   set.
   */
  lemma PlainQueryFinds(enc: Bytes -> string, key: Key, q: Query, ds: Dimensions, s: Series)
    requires TokenEncoding(enc) && PlainQuery(enc, q) && TreeSetOf(key, ds, q.dims) && Ascending(key, s.dims)
    ensures Finds(RegexText(enc, q.tenant, q.region, Some(q.name), ds), NameOf(enc, s)) <==>
            SameFront(q, s) && SubsetOf(ds, s.dims)
  {
    PlainTreeSet(enc, q, ds);
    QueryPieces(enc, q, ds);
    PiecesMatch(enc, q, ds, s);
    DimensionsMatch(enc, key, ds, s.dims);
  }

  // The series a query finds
  ghost function Found(enc: Bytes -> string, q: Query, ds: Dimensions): iset<Series> {
    iset s: Series | Finds(RegexText(enc, q.tenant, q.region, Some(q.name), ds), NameOf(enc, s))
  }

  // The query finds every series it wants and no other.
  ghost predicate Exact(key: Key, q: Query, found: iset<Series>) {
    forall s: Series | Ascending(key, s.dims) :: s in found <==> Wanted(q, s)
  }

  lemma WantedIsSubset(q: Query, ds: Dimensions, s: Series)
    requires Holds(ds, q.dims) && EntriesOf(ds, q.dims)
    ensures SubsetOf(ds, s.dims) <==> Holds(s.dims, q.dims)
  {
    if Holds(s.dims, q.dims) {
      forall d | d in ds ensures d in s.dims {
        assert d == (d.0, q.dims[d.0]);
      }
    }
  }

  lemma TiesLoseOne(key: Key, dims: Dimensions, m: map<Bytes, Bytes>)
    requires Ascending(key, dims) && !NoTies(key, m)
    ensures !Holds(dims, m)
  {
    if Holds(dims, m) {
      HoldsNoTies(key, dims, m);
    }
  }

  // found are the series that have every dimension of ds.
  ghost predicate FoundBy(key: Key, q: Query, ds: Dimensions, found: iset<Series>) {
    forall s: Series | Ascending(key, s.dims) :: s in found <==> SameFront(q, s) && SubsetOf(ds, s.dims)
  }

  // A list that holds every dimension of the query asks for just the right series, and no other list does.
  lemma ExactJustWhenNothingIsLost(key: Key, q: Query, ds: Dimensions, found: iset<Series>)
    requires Ascending(key, ds) && EntriesOf(ds, q.dims) && FoundBy(key, q, ds, found)
    ensures Exact(key, q, found) <==> Holds(ds, q.dims)
  {
    if Holds(ds, q.dims) {
      forall s: Series | Ascending(key, s.dims) ensures s in found <==> Wanted(q, s) {
        WantedIsSubset(q, ds, s);
      }
    } else {
      var s := Series(q.tenant, q.region, q.name, ds);
      assert Ascending(key, s.dims) && s in found && !Wanted(q, s);
    }
  }

  /**
   Query translation is exact for plain tokens just if no two of the query's dimensions compare equal.
   Otherwise the tree set drops one of them and the query also finds series without it.
   */
  lemma PlainQueryIsExact(enc: Bytes -> string, key: Key, q: Query, ds: Dimensions)
    requires TokenEncoding(enc) && PlainQuery(enc, q) && TreeSetOf(key, ds, q.dims)
    ensures Exact(key, q, Found(enc, q, ds)) <==> NoTies(key, q.dims)
  {
    PlainQueryFoundBy(enc, key, q, ds);
    ExactJustWhenNothingIsLost(key, q, ds, Found(enc, q, ds));
    if NoTies(key, q.dims) {
      NoTiesHolds(key, ds, q.dims);
    } else {
      TiesLoseOne(key, ds, q.dims);
    }
  }

  lemma PlainQueryFoundBy(enc: Bytes -> string, key: Key, q: Query, ds: Dimensions)
    requires TokenEncoding(enc) && PlainQuery(enc, q) && TreeSetOf(key, ds, q.dims)
    ensures FoundBy(key, q, ds, Found(enc, q, ds))
  {
    forall s: Series | Ascending(key, s.dims)
      ensures s in Found(enc, q, ds) <==> SameFront(q, s) && SubsetOf(ds, s.dims)
    {
      PlainQueryFinds(enc, key, q, ds, s);
    }
  }

  // --- which tokens are plain ---

  // The bytes URLEncoder turns into a character with a meaning in regular expressions: '.', '*' and, as '+', the space
  predicate IsSpecial(b: byte) {
    b == 46 || b == 42 || b == 32
  }

  predicate NothingSpecial(bs: Bytes) {
    forall i :: 0 <= i < |bs| ==> !IsSpecial(bs[i])
  }

  lemma FormBytePlain(b: byte)
    ensures AllLiteral(FormByte(b)) <==> !IsSpecial(b)
  {
    if IsSpecial(b) {
      assert FormByte(b)[0] == '.' || IsQuantifier(FormByte(b)[0]);
    }
  }

  lemma {:induction false} FormPlain(bs: Bytes)
    ensures AllLiteral(FormEncode(bs)) <==> NothingSpecial(bs)
  {
    if bs != [] {
      FormPlain(bs[1..]);
      FormBytePlain(bs[0]);
      var a, b := FormByte(bs[0]), FormEncode(bs[1..]);
      assert AllLiteral(a + b) ==> AllLiteral(a) && AllLiteral(b) by {
        assert forall i :: 0 <= i < |a| ==> (a + b)[i] == a[i];
        assert forall i :: 0 <= i < |b| ==> (a + b)[|a| + i] == b[i];
      }
    }
  }

  lemma PercentBytePlain(b: byte)
    ensures AllLiteral(PercentByte(b)) <==> b != 46
  {
    if b == 46 {
      assert PercentByte(b)[0] == '.';
    }
  }

  predicate NoDot(bs: Bytes) {
    forall i :: 0 <= i < |bs| ==> bs[i] != 46
  }

  // With percent encoding only the dot is special.
  lemma {:induction false} PercentPlain(bs: Bytes)
    ensures AllLiteral(PercentEncode(bs)) <==> NoDot(bs)
  {
    if bs != [] {
      PercentPlain(bs[1..]);
      PercentBytePlain(bs[0]);
      var a, b := PercentByte(bs[0]), PercentEncode(bs[1..]);
      assert AllLiteral(a + b) ==> AllLiteral(a) && AllLiteral(b) by {
        assert forall i :: 0 <= i < |a| ==> (a + b)[i] == a[i];
        assert forall i :: 0 <= i < |b| ==> (a + b)[|a| + i] == b[i];
      }
      assert bs == [bs[0]] + bs[1..];
    }
  }

  // --- queries that are not plain ---

  // A text the pieces match whatever they repeat: each repeated character once, a dot as A.
  function Word(ps: seq<Piece>): string {
    if ps == [] then ""
    else (match ps[0]
          case Repeat(a, _) => (if a.AnyChar? then "A" else [a.c])
          case Boundary => (if |ps| == 1 then "" else "&")
          case Skip => "") + Word(ps[1..])
  }

  lemma {:induction false} WordMatches(ps: seq<Piece>)
    ensures Matches(ps, Word(ps))
  {
    if ps != [] {
      WordMatches(ps[1..]);
      var s := Word(ps);
      var k: nat := if ps[0].Repeat? || (ps[0].Boundary? && |ps| > 1) then 1 else 0;
      assert s[k..] == Word(ps[1..]);
      assert Spans(ps[0], s, k);
    }
  }

  // The same text, read off the regular expression: quantifiers dropped, boundaries inside as ampersands
  function WordText(x: string): string
    decreases |x|
  {
    if x == "" then ""
    else if BOUNDARY <= x then (if x == BOUNDARY then "" else "&") + WordText(x[|BOUNDARY|..])
    else if SKIP <= x then WordText(x[|SKIP|..])
    else if x[0] == '.' then "A" + WordText(x[1..])
    else if IsQuantifier(x[0]) || x[0] == '\\' || x[0] == '^' then WordText(x[1..])
    else [x[0]] + WordText(x[1..])
  }

  lemma CountDropped(x: string)
    ensures WordText(CountOf(x).1) == WordText(x)
  {
  }

  // Escapes in the text are those of question marks.
  predicate EscapesOnlyQuestionMarks(x: string) {
    forall i :: 0 <= i < |x| && x[i] == '\\' ==> i + 1 < |x| && x[i + 1] == '?'
  }

  lemma {:induction false} WordOfPieces(x: string, ps: seq<Piece>)
    requires Pieces(x) == Some(ps) && EscapesOnlyQuestionMarks(x)
    ensures Word(ps) == WordText(x)
    decreases |x|
  {
    if x != "" {
      if BOUNDARY <= x {
        WordOfPieces(x[|BOUNDARY|..], ps[1..]);
        assert x == BOUNDARY + x[|BOUNDARY|..];
        assert Pieces("") == Some([]);
        LastPiece(x[|BOUNDARY|..], ps[1..]);
      } else if SKIP <= x {
        WordOfPieces(x[|SKIP|..], ps[1..]);
      } else if x[0] == '\\' {
        CountDropped(x[2..]);
        CountSuffix(x[2..]);
        WordOfPieces(CountOf(x[2..]).1, ps[1..]);
        assert x[1..][0] == '?' && x[1..][1..] == x[2..];
        assert WordText(x[1..]) == "?" + WordText(x[2..]);
      } else {
        CountDropped(x[1..]);
        CountSuffix(x[1..]);
        WordOfPieces(CountOf(x[1..]).1, ps[1..]);
      }
    }
  }

  lemma CountSuffix(x: string)
    requires EscapesOnlyQuestionMarks(x)
    ensures EscapesOnlyQuestionMarks(CountOf(x).1) && |CountOf(x).1| <= |x|
  {
  }

  lemma LastPiece(x: string, ps: seq<Piece>)
    requires Pieces(x) == Some(ps)
    ensures ps == [] <==> x == ""
  {
  }

  // --- what a query of any tokens finds ---

  // A token as the regular expression spells it: a dot as A, quantifiers dropped
  function Cleaned(w: string): string {
    if w == "" then ""
    else (if w[0] == '.' then "A" else if IsQuantifier(w[0]) then "" else [w[0]]) + Cleaned(w[1..])
  }

  predicate IsTokenText(w: string) {
    forall i :: 0 <= i < |w| ==> w[i] != '(' && w[i] != '\\' && w[i] != '^'
  }

  lemma WordOfCharacter(c: char, rest: string)
    requires c != '(' && c != '\\' && c != '^'
    ensures WordText([c] + rest) == (if c == '.' then "A" else if IsQuantifier(c) then "" else [c]) + WordText(rest)
  {
    var s := [c] + rest;
    assert s[0] == c && s[1..] == rest;
  }

  lemma {:induction false} WordOfToken(w: string, rest: string)
    requires IsTokenText(w)
    ensures WordText(w + rest) == Cleaned(w) + WordText(rest)
  {
    if w == "" {
      assert w + rest == rest;
    } else {
      var tail := w[1..] + rest;
      var head := if w[0] == '.' then "A" else if IsQuantifier(w[0]) then "" else [w[0]];
      assert WordText(tail) == Cleaned(w[1..]) + WordText(rest) by { WordOfToken(w[1..], rest); }
      assert WordText([w[0]] + tail) == head + WordText(tail) by { WordOfCharacter(w[0], tail); }
      assert w + rest == [w[0]] + tail;
      Associate(head, Cleaned(w[1..]), WordText(rest));
    }
  }

  lemma Associate(a: string, b: string, c: string)
    ensures a + (b + c) == (a + b) + c
  {
  }

  lemma {:induction false} CleanedConcat(a: string, b: string)
    ensures Cleaned(a + b) == Cleaned(a) + Cleaned(b)
  {
    if a == "" {
      assert a + b == b;
    } else {
      assert (a + b)[1..] == a[1..] + b;
      CleanedConcat(a[1..], b);
    }
  }

  // The bytes the cleaned token stands for
  function Sanitised(bs: Bytes): Bytes {
    if bs == [] then []
    else (if bs[0] == 46 then [65] else if IsSpecial(bs[0]) then [] else [bs[0]]) + Sanitised(bs[1..])
  }

  lemma CleanedByte(b: byte)
    ensures Cleaned(FormByte(b)) == if b == 46 then FormByte(65) else if IsSpecial(b) then "" else FormByte(b)
  {
    FormBytePlain(b);
    if IsSpecial(b) {
      assert FormByte(b)[1..] == "";
    } else {
      CleanedLiteral(FormByte(b));
    }
  }

  lemma {:induction false} CleanedLiteral(w: string)
    requires AllLiteral(w)
    ensures Cleaned(w) == w && IsTokenText(w)
  {
    if w != "" {
      CleanedLiteral(w[1..]);
    }
  }

  lemma {:induction false} CleanedToken(bs: Bytes)
    ensures Cleaned(FormEncode(bs)) == FormEncode(Sanitised(bs)) && IsTokenText(FormEncode(bs))
  {
    if bs != [] {
      CleanedToken(bs[1..]);
      CleanedByte(bs[0]);
      CleanedConcat(FormByte(bs[0]), FormEncode(bs[1..]));
      var head: Bytes := if bs[0] == 46 then [65] else if IsSpecial(bs[0]) then [] else [bs[0]];
      assert Sanitised(bs) == head + Sanitised(bs[1..]);
      FormEncodeHead(head, Sanitised(bs[1..]));
    }
  }

  lemma FormEncodeHead(head: Bytes, rest: Bytes)
    requires |head| <= 1
    ensures FormEncode(head + rest) == (if head == [] then "" else FormByte(head[0])) + FormEncode(rest)
  {
    if head == [] {
      assert head + rest == rest;
    } else {
      assert (head + rest)[1..] == rest;
    }
  }

  lemma {:induction false} SanitisedChanges(bs: Bytes)
    ensures Sanitised(bs) == bs <==> NothingSpecial(bs)
    ensures NothingSpecial(Sanitised(bs))
  {
    if bs != [] {
      SanitisedChanges(bs[1..]);
      assert bs == [bs[0]] + bs[1..];
    }
  }

  // san gives the bytes that the cleaned text of a token stands for; they are the token's own just when its text is
  // literal.
  ghost predicate Cleans(enc: Bytes -> string, san: Bytes -> Bytes) {
    forall bs :: IsCleaned(enc, san, bs)
  }

  ghost predicate IsCleaned(enc: Bytes -> string, san: Bytes -> Bytes, bs: Bytes) {
    Cleaned(enc(bs)) == enc(san(bs)) && IsTokenText(enc(bs)) &&
    AllLiteral(enc(san(bs))) && (AllLiteral(enc(bs)) <==> san(bs) == bs)
  }

  lemma FormCleans()
    ensures Cleans(FormEncode, Sanitised)
  {
    forall bs ensures IsCleaned(FormEncode, Sanitised, bs) {
      CleanedToken(bs);
      FormPlain(bs);
      SanitisedChanges(bs);
      FormPlain(Sanitised(bs));
    }
  }

  // The bytes a cleaned percent encoded token stands for
  function WithoutDots(bs: Bytes): Bytes {
    if bs == [] then [] else [if bs[0] == 46 then 65 else bs[0]] + WithoutDots(bs[1..])
  }

  lemma CleanedPercentByte(b: byte)
    ensures Cleaned(PercentByte(b)) == PercentByte(if b == 46 then 65 else b)
  {
    PercentBytePlain(b);
    if b == 46 {
      assert PercentByte(b)[1..] == "";
    } else {
      CleanedLiteral(PercentByte(b));
    }
  }

  lemma TokenTextConcat(a: string, b: string)
    requires IsTokenText(a) && IsTokenText(b)
    ensures IsTokenText(a + b)
  {
  }

  lemma {:induction false} CleanedPercentToken(bs: Bytes)
    ensures Cleaned(PercentEncode(bs)) == PercentEncode(WithoutDots(bs)) && IsTokenText(PercentEncode(bs))
  {
    if bs != [] {
      CleanedPercentToken(bs[1..]);
      CleanedPercentByte(bs[0]);
      CleanedConcat(PercentByte(bs[0]), PercentEncode(bs[1..]));
      TokenTextConcat(PercentByte(bs[0]), PercentEncode(bs[1..]));
      PercentEncodeHead(if bs[0] == 46 then 65 else bs[0], WithoutDots(bs[1..]));
    }
  }

  lemma {:induction false} WithoutDotsChanges(bs: Bytes)
    ensures WithoutDots(bs) == bs <==> NoDot(bs)
    ensures NoDot(WithoutDots(bs))
  {
    if bs != [] {
      WithoutDotsChanges(bs[1..]);
      assert bs == [bs[0]] + bs[1..];
      assert NoDot(bs) <==> bs[0] != 46 && NoDot(bs[1..]) by {
        assert forall i :: 0 < i < |bs| ==> bs[i] == bs[1..][i - 1];
      }
    }
  }

  lemma PercentEncodeHead(b: byte, rest: Bytes)
    ensures PercentEncode([b] + rest) == PercentByte(b) + PercentEncode(rest)
  {
    assert ([b] + rest)[1..] == rest;
  }

  lemma PercentCleans()
    ensures Cleans(PercentEncode, WithoutDots)
  {
    forall bs ensures IsCleaned(PercentEncode, WithoutDots, bs) {
      CleanedPercentToken(bs);
      WithoutDotsChanges(bs);
      PercentPlain(bs);
      PercentPlain(WithoutDots(bs));
    }
  }

  function SanitisedDimensions(san: Bytes -> Bytes, ds: Dimensions): (r: Dimensions)
    ensures |r| == |ds| && forall i :: 0 <= i < |ds| ==> r[i] == (san(ds[i].0), san(ds[i].1))
  {
    seq(|ds|, i requires 0 <= i < |ds| => (san(ds[i].0), san(ds[i].1)))
  }

  lemma CleanedSegment(enc: Bytes -> string, san: Bytes -> Bytes, d: (Bytes, Bytes))
    requires Cleans(enc, san)
    ensures Cleaned(Segment(enc, d)) == Segment(enc, (san(d.0), san(d.1)))
    ensures IsTokenText(Segment(enc, d))
  {
    assert IsCleaned(enc, san, d.0) && IsCleaned(enc, san, d.1);
    CleanedConcat(enc(d.0), ['='] + enc(d.1));
    CleanedConcat(['='], enc(d.1));
    assert ['='][1..] == "";
  }

  lemma BoundaryWord(more: string)
    ensures WordText(BOUNDARY + more) == if more == "" then "" else "&" + WordText(more)
  {
    assert (BOUNDARY + more)[|BOUNDARY|..] == more;
    assert more == "" ==> BOUNDARY + more == BOUNDARY;
    assert more != "" ==> |BOUNDARY + more| > |BOUNDARY|;
  }

  lemma SkipWord(more: string)
    ensures WordText(SKIP + more) == WordText(more)
  {
    var s := SKIP + more;
    assert s[|SKIP|..] == more;
    assert s[1] == '.' && BOUNDARY[1] == '&';
  }

  lemma {:induction false} WordOfDimensions(enc: Bytes -> string, san: Bytes -> Bytes, ds: Dimensions)
    requires Cleans(enc, san)
    ensures WordText(BOUNDARY + DimensionsRegex(enc, ds)) == Behind(Segments(enc, SanitisedDimensions(san, ds)))
  {
    BoundaryWord(DimensionsRegex(enc, ds));
    if ds != [] {
      WordOfDimensions(enc, san, ds[1..]);
      WordOfDimension(enc, san, ds[0], BOUNDARY + DimensionsRegex(enc, ds[1..]));
      RegexHead(enc, ds);
      assert SanitisedDimensions(san, ds)[1..] == SanitisedDimensions(san, ds[1..]);
    }
  }

  lemma RegexHead(enc: Bytes -> string, ds: Dimensions)
    requires ds != []
    ensures DimensionsRegex(enc, ds) ==
            SKIP + (Segment(enc, ds[0]) + (BOUNDARY + DimensionsRegex(enc, ds[1..])))
  {
    SegmentOnto(enc(ds[0].0), enc(ds[0].1), BOUNDARY + DimensionsRegex(enc, ds[1..]));
  }

  lemma SegmentOnto(a: string, b: string, more: string)
    ensures a + (['='] + (b + more)) == (a + (['='] + b)) + more
  {
  }

  lemma WordOfDimension(enc: Bytes -> string, san: Bytes -> Bytes, d: (Bytes, Bytes), more: string)
    requires Cleans(enc, san)
    ensures WordText(SKIP + (Segment(enc, d) + more)) == Segment(enc, (san(d.0), san(d.1))) + WordText(more)
  {
    CleanedSegment(enc, san, d);
    WordOfToken(Segment(enc, d), more);
    SkipWord(Segment(enc, d) + more);
  }

  // The text behind the caret
  function QueryBody(t: string, r: string, n: string, more: string): string {
    t + ("\\" + (['?'] + (r + ((['&'] + (n + BOUNDARY)) + more))))
  }

  lemma WordOfEscape(rest: string)
    ensures WordText("\\" + (['?'] + rest)) == ['?'] + WordText(rest)
  {
    var s := ['?'] + rest;
    assert s[0] == '?' && s[1..] == rest;
    var x := "\\" + s;
    assert x[0] == '\\' && x[1..] == s;
  }

  lemma WordOfName(r: string, n: string, more: string)
    requires IsTokenText(r) && IsTokenText(n)
    ensures WordText(r + ((['&'] + (n + BOUNDARY)) + more)) ==
            Cleaned(r) + (['&'] + (Cleaned(n) + WordText(BOUNDARY + more)))
  {
    WordOfNameOnto(r, n, BOUNDARY + more);
    NameOnto(n, BOUNDARY, more);
  }

  lemma WordOfNameOnto(r: string, n: string, tail: string)
    requires IsTokenText(r) && IsTokenText(n)
    ensures WordText(r + (['&'] + (n + tail))) == Cleaned(r) + (['&'] + (Cleaned(n) + WordText(tail)))
  {
    WordOfToken(r, ['&'] + (n + tail));
    WordOfCharacter('&', n + tail);
    WordOfToken(n, tail);
  }

  lemma NameOnto(n: string, b: string, more: string)
    ensures (['&'] + (n + b)) + more == ['&'] + (n + (b + more))
  {
  }

  lemma WordOfQuery(t: string, r: string, n: string, more: string)
    requires IsTokenText(t) && IsTokenText(r) && IsTokenText(n)
    ensures WordText(QueryBody(t, r, n, more)) ==
            Cleaned(t) + (['?'] + (Cleaned(r) + (['&'] + (Cleaned(n) + WordText(BOUNDARY + more)))))
  {
    var rest := r + ((['&'] + (n + BOUNDARY)) + more);
    WordOfToken(t, "\\" + (['?'] + rest));
    WordOfEscape(rest);
    WordOfName(r, n, more);
  }

  predicate NoEscape(w: string) {
    forall i :: 0 <= i < |w| ==> w[i] != '\\'
  }

  lemma {:induction false} NoEscapeInDimensions(enc: Bytes -> string, san: Bytes -> Bytes, ds: Dimensions)
    requires Cleans(enc, san)
    ensures NoEscape(DimensionsRegex(enc, ds))
  {
    if ds != [] {
      NoEscapeInDimensions(enc, san, ds[1..]);
      NoEscapeInToken(enc, san, ds[0].0);
      NoEscapeInToken(enc, san, ds[0].1);
      assert NoEscape(SKIP) && NoEscape(BOUNDARY) && NoEscape(['=']);
      assert NoEscape(BOUNDARY + DimensionsRegex(enc, ds[1..]));
      assert NoEscape(enc(ds[0].1) + (BOUNDARY + DimensionsRegex(enc, ds[1..])));
      assert NoEscape(['='] + (enc(ds[0].1) + (BOUNDARY + DimensionsRegex(enc, ds[1..]))));
    }
  }

  lemma NoEscapeInToken(enc: Bytes -> string, san: Bytes -> Bytes, bs: Bytes)
    requires Cleans(enc, san)
    ensures NoEscape(enc(bs))
  {
    assert IsCleaned(enc, san, bs);
  }

  lemma QueryEscapes(t: string, r: string, n: string, more: string)
    requires NoEscape(t) && NoEscape(r) && NoEscape(n) && NoEscape(more)
    ensures EscapesOnlyQuestionMarks(QueryBody(t, r, n, more))
  {
    var name := (['&'] + (n + BOUNDARY)) + more;
    assert NoEscape(name);
    var rest := r + name;
    assert NoEscape(rest);
    var s := "\\" + (['?'] + rest);
    assert s[1] == '?' && s[2..] == rest;
  }

  // A regular expression finds the text its pieces match whatever they repeat.
  lemma FindsWord(body: string)
    requires EscapesOnlyQuestionMarks(body) && Read(['^'] + body).Some?
    ensures Finds(['^'] + body, WordText(body))
  {
    var text := ['^'] + body;
    assert text[1..] == body;
    var rest, ps := CountOf(body).1, Read(text).value.pieces;
    CountSuffix(body);
    CountDropped(body);
    WordOfPieces(rest, ps);
    WordMatches(ps);
    assert WordText(body)[0..] == WordText(body);
  }

  function SanitisedSeries(san: Bytes -> Bytes, q: Query, ds: Dimensions): Series {
    Series(san(q.tenant), san(q.region), san(q.name), SanitisedDimensions(san, ds))
  }

  lemma SanitisedName(enc: Bytes -> string, san: Bytes -> Bytes, q: Query, ds: Dimensions)
    requires Cleans(enc, san)
    ensures WordText(QueryBody(enc(q.tenant), enc(q.region), enc(q.name), DimensionsRegex(enc, ds))) ==
            NameOf(enc, SanitisedSeries(san, q, ds))
  {
    assert IsCleaned(enc, san, q.tenant);
    assert IsCleaned(enc, san, q.region);
    assert IsCleaned(enc, san, q.name);
    WordOfDimensions(enc, san, ds);
    WordOfQuery(enc(q.tenant), enc(q.region), enc(q.name), DimensionsRegex(enc, ds));
  }

  /**
   A query whose text is a regular expression finds the series named by its tokens with dots, stars and spaces replaced.
   */
  lemma QueryFindsSanitised(enc: Bytes -> string, san: Bytes -> Bytes, q: Query, ds: Dimensions)
    requires Cleans(enc, san)
    requires var text := RegexText(enc, q.tenant, q.region, Some(q.name), ds); Read(text).Some?
    ensures SanitisedSeries(san, q, ds) in Found(enc, q, ds)
  {
    var more := DimensionsRegex(enc, ds);
    var body := QueryBody(enc(q.tenant), enc(q.region), enc(q.name), more);
    NoEscapeInToken(enc, san, q.tenant);
    NoEscapeInToken(enc, san, q.region);
    NoEscapeInToken(enc, san, q.name);
    NoEscapeInDimensions(enc, san, ds);
    QueryEscapes(enc(q.tenant), enc(q.region), enc(q.name), more);
    SanitisedName(enc, san, q, ds);
    assert RegexText(enc, q.tenant, q.region, Some(q.name), ds) == ['^'] + body;
    FindsWord(body);
  }

  // --- the exact condition ---

  // No two of the query's dimension names are equal up to the folding of the comparator.
  predicate NamesDistinct(key: Key, m: map<Bytes, Bytes>) {
    forall k, l | k in m && l in m && k != l :: key(k) != key(l)
  }

  predicate NamesPlain(enc: Bytes -> string, m: map<Bytes, Bytes>) {
    forall k | k in m :: AllLiteral(enc(k))
  }

  lemma NotItself(key: Key, a: (Bytes, Bytes), b: (Bytes, Bytes))
    requires Compare(key, a, b) < 0
    ensures a != b
  {
    CompareLaws(key, a, a, a);
  }

  lemma AscendingByName(key: Key, ds: Dimensions, m: map<Bytes, Bytes>, i: nat, j: nat)
    requires Ascending(key, ds) && EntriesOf(ds, m) && NamesDistinct(key, m) && i < j < |ds|
    ensures key(ds[i].0) != key(ds[j].0)
  {
    assert ds[i] in ds && ds[j] in ds;
    NotItself(key, ds[i], ds[j]);
  }

  // The list of the query's dimensions is still in order when its bytes are replaced: it is for a single dimension.
  predicate StaysAscending(san: Bytes -> Bytes, key: Key, ds: Dimensions) {
    Ascending(key, SanitisedDimensions(san, ds))
  }

  /** It is, and nothing is lost in the tree set, for plain dimension names that are distinct up to case. */
  lemma DistinctNamesStayAscending(enc: Bytes -> string, san: Bytes -> Bytes, key: Key, ds: Dimensions,
                                   m: map<Bytes, Bytes>)
    requires Cleans(enc, san) && Ascending(key, ds) && EntriesOf(ds, m) && NamesDistinct(key, m) && NamesPlain(enc, m)
    ensures NoTies(key, m) && StaysAscending(san, key, ds)
  {
    forall i | 0 <= i < |ds| ensures san(ds[i].0) == ds[i].0 {
      assert ds[i] in ds;
      assert IsCleaned(enc, san, ds[i].0);
    }
    forall i, j | 0 <= i < j < |ds|
      ensures Compare(key, SanitisedDimensions(san, ds)[i], SanitisedDimensions(san, ds)[j]) < 0 {
      AscendingByName(key, ds, m, i, j);
      assert Compare(key, ds[i], ds[j]) < 0;
    }
  }

  // Replaced bytes are wanted only by a query in which there is nothing to replace.
  lemma WantsSanitised(enc: Bytes -> string, san: Bytes -> Bytes, q: Query, ds: Dimensions)
    requires Cleans(enc, san) && Wanted(q, SanitisedSeries(san, q, ds))
    ensures PlainQuery(enc, q)
  {
    assert IsCleaned(enc, san, q.tenant);
    assert IsCleaned(enc, san, q.region);
    assert IsCleaned(enc, san, q.name);
    forall k | k in q.dims ensures AllLiteral(enc(k)) && AllLiteral(enc(q.dims[k])) {
      var i :| 0 <= i < |ds| && SanitisedDimensions(san, ds)[i] == (k, q.dims[k]);
      assert IsCleaned(enc, san, ds[i].0) && IsCleaned(enc, san, ds[i].1);
    }
  }

  lemma ExactForcesPlain(enc: Bytes -> string, san: Bytes -> Bytes, key: Key, q: Query, ds: Dimensions)
    requires Cleans(enc, san) && TreeSetOf(key, ds, q.dims) && NoTies(key, q.dims) && StaysAscending(san, key, ds)
    requires Exact(key, q, Found(enc, q, ds))
    ensures PlainQuery(enc, q)
  {
    NoTiesHolds(key, ds, q.dims);
    var own := Series(q.tenant, q.region, q.name, ds);
    assert Wanted(q, own) && Ascending(key, own.dims);
    assert own in Found(enc, q, ds);
    QueryFindsSanitised(enc, san, q, ds);
    WantsSanitised(enc, san, q, ds);
  }

  /**
   Query translation with an encoding whose texts are cleaned to encoded texts, when no two dimensions of the query
   compare equal and their order does not depend on the bytes that are replaced: it is exact just if all tokens are
   plain.
   */
  lemma ExactIffPlain(enc: Bytes -> string, san: Bytes -> Bytes, key: Key, q: Query, ds: Dimensions)
    requires Cleans(enc, san) && TokenEncoding(enc)
    requires TreeSetOf(key, ds, q.dims) && NoTies(key, q.dims) && StaysAscending(san, key, ds)
    ensures Exact(key, q, Found(enc, q, ds)) <==> PlainQuery(enc, q)
  {
    if Exact(key, q, Found(enc, q, ds)) {
      ExactForcesPlain(enc, san, key, q, ds);
    }
    if PlainQuery(enc, q) {
      PlainQueryIsExact(enc, key, q, ds);
    }
  }

  // Tenant, region, name and the names and values of the dimensions
  ghost predicate Throughout(q: Query, free: Bytes -> bool) {
    free(q.tenant) && free(q.region) && free(q.name) && forall k | k in q.dims :: free(k) && free(q.dims[k])
  }

  lemma PlainThroughout(enc: Bytes -> string, q: Query, free: Bytes -> bool)
    requires forall bs :: AllLiteral(enc(bs)) <==> free(bs)
    ensures PlainQuery(enc, q) <==> Throughout(q, free)
  {
  }

  /** With URLEncoder: it is exact just if no dot, star or space is in the query. */
  lemma QueryIsExact(key: Key, q: Query, ds: Dimensions)
    requires TreeSetOf(key, ds, q.dims) && NoTies(key, q.dims) && StaysAscending(Sanitised, key, ds)
    ensures Exact(key, q, Found(FormEncode, q, ds)) <==> Throughout(q, NothingSpecial)
  {
    FormCleans();
    FormIsTokenEncoding();
    ExactIffPlain(FormEncode, Sanitised, key, q, ds);
    forall bs ensures AllLiteral(FormEncode(bs)) <==> NothingSpecial(bs) {
      FormPlain(bs);
    }
    PlainThroughout(FormEncode, q, NothingSpecial);
  }

  /** With percent encoding: just if no dot is. */
  lemma PercentQueryIsExact(key: Key, q: Query, ds: Dimensions)
    requires TreeSetOf(key, ds, q.dims) && NoTies(key, q.dims) && StaysAscending(WithoutDots, key, ds)
    ensures Exact(key, q, Found(PercentEncode, q, ds)) <==> Throughout(q, NoDot)
  {
    PercentCleans();
    PercentIsTokenEncoding();
    ExactIffPlain(PercentEncode, WithoutDots, key, q, ds);
    forall bs ensures AllLiteral(PercentEncode(bs)) <==> NoDot(bs) {
      PercentPlain(bs);
    }
    PlainThroughout(PercentEncode, q, NoDot);
  }

  // --- queries that are not exact ---

  // The metric name a.b, and no dimensions
  const DOTTED := Query([116], [114], [97, 46, 98], map[])

  /** A dot in the metric name: the query is not exact in either encoding. */
  lemma DotIsNotExact(key: Key)
    ensures !Exact(key, DOTTED, Found(FormEncode, DOTTED, [])) && !Exact(key, DOTTED, Found(PercentEncode, DOTTED, []))
  {
    QueryIsExact(key, DOTTED, []);
    PercentQueryIsExact(key, DOTTED, []);
    assert DOTTED.name[1] == 46 && IsSpecial(46);
  }

  // A query with one dimension
  function OneDimension(k: Bytes, v: Bytes): Query {
    Query([116], [114], [109], map[k := v])
  }

  lemma OneIsItsTreeSet(key: Key, k: Bytes, v: Bytes)
    ensures TreeSetOf(key, [(k, v)], map[k := v])
  {
    CompareLaws(key, (k, v), (k, v), (k, v));
    assert (k, v) in [(k, v)];
  }

  lemma OneStaysAscending(san: Bytes -> Bytes, key: Key, k: Bytes, v: Bytes)
    ensures NoTies(key, map[k := v]) && StaysAscending(san, key, [(k, v)])
  {
  }

  lemma NotThroughout(q: Query, free: Bytes -> bool, k: Bytes)
    requires k in q.dims && !free(k)
    ensures !Throughout(q, free)
  {
  }

  lemma DotIsSpecial(bs: Bytes)
    requires !NoDot(bs)
    ensures !NothingSpecial(bs)
  {
    var i :| 0 <= i < |bs| && bs[i] == 46;
    assert IsSpecial(bs[i]);
  }

  lemma DottedFormName(key: Key, q: Query, ds: Dimensions, k: Bytes, v: Bytes)
    requires !NoDot(k) && q == OneDimension(k, v) && ds == [(k, v)]
    ensures !Exact(key, q, Found(FormEncode, q, ds))
  {
    OneIsItsTreeSet(key, k, v);
    OneStaysAscending(Sanitised, key, k, v);
    DotIsSpecial(k);
    NotThroughout(q, NothingSpecial, k);
    QueryIsExact(key, q, ds);
  }

  lemma DottedPercentName(key: Key, q: Query, ds: Dimensions, k: Bytes, v: Bytes)
    requires !NoDot(k) && q == OneDimension(k, v) && ds == [(k, v)]
    ensures !Exact(key, q, Found(PercentEncode, q, ds))
  {
    OneIsItsTreeSet(key, k, v);
    OneStaysAscending(WithoutDots, key, k, v);
    NotThroughout(q, NoDot, k);
    PercentQueryIsExact(key, q, ds);
  }

  // host.name
  const HOST_NAME: Bytes := [104, 111, 115, 116, 46, 110, 97, 109, 101]

  /** A dot in the name of the one dimension: neither. */
  lemma HostNameIsNotExact(key: Key, v: Bytes)
    ensures !Exact(key, OneDimension(HOST_NAME, v), Found(FormEncode, OneDimension(HOST_NAME, v), [(HOST_NAME, v)]))
    ensures !Exact(key, OneDimension(HOST_NAME, v), Found(PercentEncode, OneDimension(HOST_NAME, v), [(HOST_NAME, v)]))
  {
    assert HOST_NAME[4] == 46;
    DottedFormName(key, OneDimension(HOST_NAME, v), [(HOST_NAME, v)], HOST_NAME, v);
    DottedPercentName(key, OneDimension(HOST_NAME, v), [(HOST_NAME, v)], HOST_NAME, v);
  }

  // Two dimensions with one value
  function TwoDimensions(k: Bytes, l: Bytes, v: Bytes): Query {
    Query([116], [114], [109], map[k := v, l := v])
  }

  lemma TwoArePlain(k: Bytes, l: Bytes, v: Bytes)
    requires NothingSpecial(k) && NothingSpecial(l) && NothingSpecial(v)
    ensures PlainQuery(FormEncode, TwoDimensions(k, l, v))
  {
    forall bs: Bytes | NothingSpecial(bs) ensures AllLiteral(FormEncode(bs)) {
      FormPlain(bs);
    }
    assert NothingSpecial([116]) && NothingSpecial([114]) && NothingSpecial([109]);
  }

  /** Dimensions A and a with the value v, for a comparator that folds case: one is lost, and the query is not exact. */
  lemma TieIsNotExact(key: Key, ds: Dimensions)
    requires key([65]) == key([97]) && TreeSetOf(key, ds, TwoDimensions([65], [97], [118]).dims)
    ensures var q := TwoDimensions([65], [97], [118]); !Exact(key, q, Found(FormEncode, q, ds))
  {
    var k: Bytes, l: Bytes, v: Bytes := [65], [97], [118];
    assert k[0] != l[0];
    FormIsTokenEncoding();
    TwoArePlain(k, l, v);
    Tied(key, k, l, v);
    PlainQueryIsExact(FormEncode, key, TwoDimensions(k, l, v), ds);
  }

  lemma Tied(key: Key, k: Bytes, l: Bytes, v: Bytes)
    requires k != l && key(k) == key(l)
    ensures !NoTies(key, TwoDimensions(k, l, v).dims)
  {
    var m := TwoDimensions(k, l, v).dims;
    assert k in m && l in m && Compare(key, (k, m[k]), (l, m[l])) == 0;
  }
}
