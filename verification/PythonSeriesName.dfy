/**
 The Python decoder of series names: unanchored regular expressions over runs of characters that are no
 separators, unquote_plus for the name and unquote for the dimensions.
 */
module PythonSeriesName {
  import opened Text
  import opened UrlCodec
  import opened SeriesName

  datatype JsonMetric = JsonMetric(name: Bytes, dimensions: map<Bytes, Bytes>)

  // [^?&=]
  predicate InToken(c: char) {
    c != '?' && c != '&' && c != '='
  }

  // urllib.unquote, and with plus urllib.unquote_plus: a malformed escape stays as it is.
  function Unquote(s: string, plus: bool): Bytes {
    if s == "" then []
    else if s[0] == '%' && |s| >= 3 && HexValue(s[1]) >= 0 && HexValue(s[2]) >= 0
    then [16 * HexValue(s[1]) + HexValue(s[2])] + Unquote(s[3..], plus)
    else (if plus && s[0] == '+' then [32] else Utf8(s[0])) + Unquote(s[1..], plus)
  }

  datatype Front = Front(name: string, rest: string)
  datatype Pair = Pair(name: string, value: string, rest: string)

  // [^?&=]+\?[^?&=]+&[^?&=]+ at the front: runs are as long as they can be, since no separator is in them.
  function FrontAt(s: string): (f: Option<Front>)
    ensures f.Some? ==> |f.value.rest| < |s|
  {
    var t := Run(s, InToken);
    if t == 0 || t == |s| || s[t] != '?' then None
    else
      var s1 := s[t + 1..];
      var r := Run(s1, InToken);
      if r == 0 || r == |s1| || s1[r] != '&' then None
      else
        var s2 := s1[r + 1..];
        var n := Run(s2, InToken);
        if n == 0 then None else Some(Front(s2[..n], s2[n..]))
  }

  // &[^?&=]+=[^?&=]+ at the front
  function PairAt(s: string): (p: Option<Pair>)
    ensures p.Some? ==> |p.value.rest| < |s| && p.value.name != "" && p.value.value != ""
  {
    if s == "" || s[0] != '&' then None
    else
      var n := Run(s[1..], InToken);
      var s1 := s[1 + n..];
      if n == 0 || s1 == "" || s1[0] != '=' then None
      else
        var v := Run(s1[1..], InToken);
        if v == 0 then None else Some(Pair(s[1..1 + n], s1[1..1 + v], s1[1 + v..]))
  }

  // sub('', s): every front is taken out.
  function WithoutFronts(s: string): string
    decreases |s|
  {
    if s == "" then ""
    else if FrontAt(s).Some? then WithoutFronts(FrontAt(s).value.rest)
    else [s[0]] + WithoutFronts(s[1..])
  }

  // findall
  function Pairs(s: string): (ps: seq<(string, string)>)
    ensures forall i :: 0 <= i < |ps| ==> ps[i].0 != "" && ps[i].1 != ""
    decreases |s|
  {
    if s == "" then []
    else if PairAt(s).Some? then [(PairAt(s).value.name, PairAt(s).value.value)] + Pairs(PairAt(s).value.rest)
    else Pairs(s[1..])
  }

  function Unquoted(ps: seq<(string, string)>): (ds: Dimensions)
    ensures |ds| == |ps|
  {
    seq(|ps|, i requires 0 <= i < |ps| => (Unquote(ps[i].0, false), Unquote(ps[i].1, false)))
  }

  // The dimensions are looked for only when one follows the name at once.
  function Decode(s: string): Option<JsonMetric> {
    var f := FrontAt(s);
    if f.None? then None
    else Some(JsonMetric(Unquote(f.value.name, true),
                     MapOf(DimensionsOf(s, f.value.rest))))
  }

  function DimensionsOf(s: string, rest: string): Dimensions {
    if PairAt(rest).None? then [] else Unquoted(Pairs(WithoutFronts(s)))
  }

  // The loop over the dimensions that were found
  method ReadDimensions(dimensionList: seq<(string, string)>) returns (dimensions: map<Bytes, Bytes>)
    ensures dimensions == MapOf(Unquoted(dimensionList))
  {
    dimensions := map[];
    ghost var ds := Unquoted(dimensionList);
    for i := 0 to |dimensionList|
      invariant dimensions == MapOf(ds[..i])
    {
      assert ds[..i + 1][..i] == ds[..i];
      dimensions := dimensions[Unquote(dimensionList[i].0, false) := Unquote(dimensionList[i].1, false)];
    }
    assert ds[..|ds|] == ds;
  }

  method DecodeInfluxdbSerieName(serieName: string) returns (metric: Option<JsonMetric>)
    ensures metric == Decode(serieName)
  {
    var f := FrontAt(serieName);
    if f.None? {
      return None;
    }
    var dimensions: map<Bytes, Bytes> := map[];
    if PairAt(f.value.rest).Some? {
      dimensions := ReadDimensions(Pairs(WithoutFronts(serieName)));
    }
    return Some(JsonMetric(Unquote(f.value.name, true), dimensions));
  }

  // --- printed names ---

  lemma TokenRuns(token: string, tail: string)
    requires Plain(token) && (tail == "" || !InToken(tail[0]))
    ensures Run(token + tail, InToken) == |token|
  {
    PlainExcludes(token, '?');
    PlainExcludes(token, '&');
    PlainExcludes(token, '=');
    forall i | 0 <= i < |token| ensures InToken(token[i]) { assert token[i] in token; }
    RunStops(token, tail, InToken);
  }

  lemma FrontOf(t: string, r: string, n: string, rest: string)
    requires Plain(t) && Plain(r) && Plain(n) && (rest == "" || rest[0] == '&')
    ensures FrontAt(t + (['?'] + (r + (['&'] + (n + rest))))) ==
            if t == "" || r == "" || n == "" then None else Some(Front(n, rest))
  {
    var s2 := n + rest;
    var s1 := r + (['&'] + s2);
    var s := t + (['?'] + s1);
    TokenRuns(t, ['?'] + s1);
    TokenRuns(r, ['&'] + s2);
    TokenRuns(n, rest);
    assert s[|t|] == '?' && s[|t| + 1..] == s1;
    assert s1[|r|] == '&' && s1[|r| + 1..] == s2;
    assert s2[..|n|] == n && s2[|n|..] == rest;
  }

  lemma {:induction false} NoFrontLeft(s: string)
    requires '?' !in s
    ensures WithoutFronts(s) == s
  {
    if s != "" {
      NoFrontLeft(s[1..]);
    }
  }

  lemma RegroupPair(k: string, v: string, rest: string)
    ensures (k + (['='] + v)) + rest == k + (['='] + (v + rest))
  {
  }

  lemma PairOf(k: string, v: string, rest: string)
    requires Plain(k) && Plain(v) && (rest == "" || rest[0] == '&')
    ensures PairAt(['&'] + ((k + (['='] + v)) + rest)) == if k == "" || v == "" then None else Some(Pair(k, v, rest))
  {
    RegroupPair(k, v, rest);
    TokenRuns(k, ['='] + (v + rest));
    TokenRuns(v, rest);
    PairBetween(k, v, rest);
  }

  lemma PairBetween(k: string, v: string, rest: string)
    requires Run(k + (['='] + (v + rest)), InToken) == |k| && Run(v + rest, InToken) == |v|
    ensures PairAt(['&'] + (k + (['='] + (v + rest)))) == if k == "" || v == "" then None else Some(Pair(k, v, rest))
  {
    var s2 := v + rest;
    var s1 := ['='] + s2;
    var s0 := k + s1;
    var s := ['&'] + s0;
    assert s[1..] == s0 && s[1 + |k|..] == s1 && s1[1..] == s2;
    assert s[1..1 + |k|] == k && s1[1..1 + |v|] == v && s1[1 + |v|..] == rest;
  }

  function Tokens(enc: Bytes -> string, dims: Dimensions): (r: seq<(string, string)>)
    ensures |r| == |dims|
  {
    if dims == [] then [] else [(enc(dims[0].0), enc(dims[0].1))] + Tokens(enc, dims[1..])
  }

  predicate NoneEmpty(enc: Bytes -> string, dims: Dimensions) {
    forall i :: 0 <= i < |dims| ==> enc(dims[i].0) != "" && enc(dims[i].1) != ""
  }

  lemma {:induction false} PairsOf(enc: Bytes -> string, dims: Dimensions)
    requires TokenEncoding(enc) && NoneEmpty(enc, dims)
    ensures Pairs(Behind(Segments(enc, dims))) == Tokens(enc, dims)
  {
    if dims != [] {
      PairsOf(enc, dims[1..]);
      var rest := Behind(Segments(enc, dims[1..]));
      PairOf(enc(dims[0].0), enc(dims[0].1), rest);
      assert Segments(enc, dims)[1..] == Segments(enc, dims[1..]);
    }
  }

  // --- unquoting ---

  // What unquote makes of a form encoded text: the plus signs of the spaces stay.
  function PlusForSpace(bs: Bytes): (r: Bytes)
    ensures |r| == |bs| && forall i :: 0 <= i < |bs| ==> r[i] == if bs[i] == 32 then 43 else bs[i]
  {
    seq(|bs|, i requires 0 <= i < |bs| => if bs[i] == 32 then 43 else bs[i])
  }

  lemma UnquoteHex(b: byte, tail: string, plus: bool)
    ensures Unquote(Percent(b) + tail, plus) == [b] + Unquote(tail, plus)
  {
    var s := Percent(b) + tail;
    assert s[1] == HexDigit(b / 16) && s[2] == HexDigit(b % 16) && s[3..] == tail;
    assert HexValue(HexDigit(b / 16)) == b / 16 && HexValue(HexDigit(b % 16)) == b % 16;
  }

  lemma UnquoteChar(c: char, tail: string, plus: bool)
    requires c != '%' && c < '\U{0080}'
    ensures Unquote([c] + tail, plus) == [if plus && c == '+' then 32 else c as int] + Unquote(tail, plus)
  {
    assert ([c] + tail)[1..] == tail;
  }

  lemma UnquoteFormByte(b: byte, tail: string, plus: bool)
    ensures Unquote(FormByte(b) + tail, plus) == [if b == 32 && !plus then 43 else b] + Unquote(tail, plus)
  {
    if FormSafe(b) {
      UnquoteChar(b as char, tail, plus);
    } else if b == 32 {
      UnquoteChar('+', tail, plus);
    } else {
      UnquoteHex(b, tail, plus);
    }
  }

  lemma PlusHead(bs: Bytes)
    requires bs != []
    ensures PlusForSpace(bs) == [if bs[0] == 32 then 43 else bs[0]] + PlusForSpace(bs[1..])
    ensures bs == [bs[0]] + bs[1..]
  {
  }

  lemma {:induction false} UnquoteForm(bs: Bytes, plus: bool)
    ensures Unquote(FormEncode(bs), plus) == if plus then bs else PlusForSpace(bs)
  {
    if bs != [] {
      UnquoteForm(bs[1..], plus);
      UnquoteFormByte(bs[0], FormEncode(bs[1..]), plus);
      PlusHead(bs);
    }
  }

  lemma {:induction false} UnquotePercent(bs: Bytes, plus: bool)
    ensures Unquote(PercentEncode(bs), plus) == bs
  {
    if bs != [] {
      var tail := PercentEncode(bs[1..]);
      UnquotePercent(bs[1..], plus);
      if PercentSafe(bs[0]) {
        UnquoteChar(bs[0] as char, tail, plus);
      } else {
        UnquoteHex(bs[0], tail, plus);
      }
      assert bs == [bs[0]] + bs[1..];
    }
  }

  // --- decoding printed names ---

  lemma PrintedFront(enc: Bytes -> string, tenant: Bytes, region: Bytes, name: Bytes, dims: Dimensions)
    requires TokenEncoding(enc)
    ensures FrontAt(Print(enc, tenant, region, name, dims)) ==
            if tenant == [] || region == [] || name == [] then None
            else Some(Front(enc(name), Behind(Segments(enc, dims))))
  {
    FrontOf(enc(tenant), enc(region), enc(name), Behind(Segments(enc, dims)));
  }

  lemma {:induction false} NoQuestionBehind(parts: seq<string>)
    requires forall i :: 0 <= i < |parts| ==> '?' !in parts[i]
    ensures '?' !in Behind(parts)
  {
    if parts != [] {
      NoQuestionBehind(parts[1..]);
    }
  }

  lemma PrintedPairs(enc: Bytes -> string, tenant: Bytes, region: Bytes, name: Bytes, dims: Dimensions)
    requires TokenEncoding(enc) && tenant != [] && region != [] && name != [] && NoneEmpty(enc, dims)
    ensures Pairs(WithoutFronts(Print(enc, tenant, region, name, dims))) == Tokens(enc, dims)
  {
    PrintedFront(enc, tenant, region, name, dims);
    SegmentsExclude(enc, dims, '?');
    NoQuestionBehind(Segments(enc, dims));
    NoFrontLeft(Behind(Segments(enc, dims)));
    PairsOf(enc, dims);
  }

  lemma PrintedDecodes(enc: Bytes -> string, tenant: Bytes, region: Bytes, name: Bytes, dims: Dimensions)
    requires TokenEncoding(enc) && tenant != [] && region != [] && name != [] && NoneEmpty(enc, dims)
    ensures Decode(Print(enc, tenant, region, name, dims)) ==
            Some(JsonMetric(Unquote(enc(name), true), MapOf(Unquoted(Tokens(enc, dims)))))
  {
    PrintedFront(enc, tenant, region, name, dims);
    PrintedPairs(enc, tenant, region, name, dims);
    if dims == [] {
      assert Unquoted(Tokens(enc, dims)) == [];
    } else {
      PairOf(enc(dims[0].0), enc(dims[0].1), Behind(Segments(enc, dims[1..])));
      assert Segments(enc, dims)[1..] == Segments(enc, dims[1..]);
    }
  }

  // --- exactly which names are read back ---

  predicate NamesDiffer(dims: Dimensions) {
    forall i, j :: 0 <= i < j < |dims| ==> dims[i].0 != dims[j].0
  }

  predicate AllFull(dims: Dimensions) {
    forall i :: 0 <= i < |dims| ==> dims[i].0 != [] && dims[i].1 != []
  }

  predicate Has(ds: Dimensions, k: Bytes, v: Bytes) {
    (k, v) in ds
  }

  lemma {:induction false} MapEntries(ds: Dimensions, k: Bytes)
    requires k in MapOf(ds)
    ensures Has(ds, k, MapOf(ds)[k])
  {
    var n := |ds| - 1;
    assert ds == ds[..n] + [ds[n]];
    if ds[n].0 != k {
      MapEntries(ds[..n], k);
    } else {
      assert ds[n] == (k, MapOf(ds)[k]);
    }
  }

  lemma {:induction false} EntryInMap(ds: Dimensions, i: nat)
    requires NamesDiffer(ds) && i < |ds|
    ensures ds[i].0 in MapOf(ds) && MapOf(ds)[ds[i].0] == ds[i].1
  {
    var n := |ds| - 1;
    if i < n {
      EntryInMap(ds[..n], i);
      assert ds[..n][i] == ds[i];
    }
  }

  // A map of entries that all satisfy q is not the map of dimensions of which one does not.
  lemma MapsDiffer(a: Dimensions, dims: Dimensions, i: nat, q: Bytes -> bool)
    requires forall d | d in a :: q(d.0) && q(d.1)
    requires NamesDiffer(dims) && i < |dims| && !(q(dims[i].0) && q(dims[i].1))
    ensures MapOf(a) != MapOf(dims)
  {
    EntryInMap(dims, i);
    var k := dims[i].0;
    if k in MapOf(a) {
      MapEntries(a, k);
      assert (k, MapOf(a)[k]) in a;
    }
  }

  lemma UnquoteIsFull(s: string, plus: bool)
    requires s != ""
    ensures Unquote(s, plus) != []
  {
  }

  lemma UnquotedIsFull(ps: seq<(string, string)>)
    requires forall i :: 0 <= i < |ps| ==> ps[i].0 != "" && ps[i].1 != ""
    ensures forall d | d in Unquoted(ps) :: d.0 != [] && d.1 != []
  {
    forall i | 0 <= i < |ps| ensures Unquoted(ps)[i].0 != [] && Unquoted(ps)[i].1 != [] {
      UnquoteIsFull(ps[i].0, false);
      UnquoteIsFull(ps[i].1, false);
    }
  }

  lemma ReadIsFull(s: string, rest: string)
    ensures forall d | d in DimensionsOf(s, rest) :: d.0 != [] && d.1 != []
  {
    UnquotedIsFull(Pairs(WithoutFronts(s)));
  }

  // An empty token anywhere is not read back.
  lemma EmptyIsLost(enc: Bytes -> string, tenant: Bytes, region: Bytes, name: Bytes, dims: Dimensions)
    requires TokenEncoding(enc) && NamesDiffer(dims)
    requires tenant == [] || region == [] || name == [] || !AllFull(dims)
    ensures Decode(Print(enc, tenant, region, name, dims)) != Some(JsonMetric(name, MapOf(dims)))
  {
    var s := Print(enc, tenant, region, name, dims);
    PrintedFront(enc, tenant, region, name, dims);
    if tenant != [] && region != [] && name != [] {
      var i :| 0 <= i < |dims| && !(dims[i].0 != [] && dims[i].1 != []);
      ReadIsFull(s, Behind(Segments(enc, dims)));
      MapsDiffer(DimensionsOf(s, Behind(Segments(enc, dims))), dims, i, bs => bs != []);
    }
  }

  lemma FullTokens(enc: Bytes -> string, dims: Dimensions)
    requires TokenEncoding(enc) && AllFull(dims)
    ensures NoneEmpty(enc, dims)
  {
  }

  lemma {:induction false} TokensAt(enc: Bytes -> string, dims: Dimensions, i: nat)
    requires i < |dims|
    ensures Tokens(enc, dims)[i] == (enc(dims[i].0), enc(dims[i].1))
  {
    if i > 0 {
      TokensAt(enc, dims[1..], i - 1);
    }
  }

  /** Names that are percent encoded are read back just if no part, dimension name or value is empty. */
  lemma DecodesPercent(tenant: Bytes, region: Bytes, name: Bytes, dims: Dimensions)
    requires NamesDiffer(dims)
    ensures Decode(Print(PercentEncode, tenant, region, name, dims)) == Some(JsonMetric(name, MapOf(dims))) <==>
            tenant != [] && region != [] && name != [] && AllFull(dims)
  {
    PercentIsTokenEncoding();
    if tenant != [] && region != [] && name != [] && AllFull(dims) {
      FullTokens(PercentEncode, dims);
      PrintedDecodes(PercentEncode, tenant, region, name, dims);
      UnquotePercent(name, true);
      forall i | 0 <= i < |dims| ensures Unquoted(Tokens(PercentEncode, dims))[i] == dims[i] {
        TokensAt(PercentEncode, dims, i);
        UnquotePercent(dims[i].0, false);
        UnquotePercent(dims[i].1, false);
      }
      assert Unquoted(Tokens(PercentEncode, dims)) == dims;
    } else {
      EmptyIsLost(PercentEncode, tenant, region, name, dims);
    }
  }

  predicate NoSpace(bs: Bytes) {
    32 !in bs
  }

  predicate NoSpaces(dims: Dimensions) {
    forall i :: 0 <= i < |dims| ==> NoSpace(dims[i].0) && NoSpace(dims[i].1)
  }

  lemma FormDimensions(dims: Dimensions)
    ensures var ds := Unquoted(Tokens(FormEncode, dims));
            |ds| == |dims| && forall i :: 0 <= i < |dims| ==>
              ds[i] == (PlusForSpace(dims[i].0), PlusForSpace(dims[i].1))
  {
    forall i | 0 <= i < |dims|
      ensures Unquoted(Tokens(FormEncode, dims))[i] == (PlusForSpace(dims[i].0), PlusForSpace(dims[i].1))
    {
      TokensAt(FormEncode, dims, i);
      UnquoteForm(dims[i].0, false);
      UnquoteForm(dims[i].1, false);
    }
  }

  lemma PlusKeeps(bs: Bytes)
    ensures NoSpace(PlusForSpace(bs)) && (NoSpace(bs) ==> PlusForSpace(bs) == bs)
  {
  }

  /**
   Names in the form encoding, as the Java code writes them, are read back just if in addition no dimension
   name or value holds a space: unquote leaves the plus sign, while the metric name is read with unquote_plus.
   */
  lemma DecodesForm(tenant: Bytes, region: Bytes, name: Bytes, dims: Dimensions)
    requires NamesDiffer(dims)
    ensures Decode(Print(FormEncode, tenant, region, name, dims)) == Some(JsonMetric(name, MapOf(dims))) <==>
            tenant != [] && region != [] && name != [] && AllFull(dims) && NoSpaces(dims)
  {
    FormIsTokenEncoding();
    if tenant != [] && region != [] && name != [] && AllFull(dims) {
      assert Decode(Print(FormEncode, tenant, region, name, dims)) ==
             Some(JsonMetric(name, MapOf(Unquoted(Tokens(FormEncode, dims))))) by {
        FullTokens(FormEncode, dims);
        PrintedDecodes(FormEncode, tenant, region, name, dims);
        UnquoteForm(name, true);
      }
      SpacesTell(dims);
    } else {
      EmptyIsLost(FormEncode, tenant, region, name, dims);
    }
  }

  lemma SpacesTell(dims: Dimensions)
    requires NamesDiffer(dims)
    ensures MapOf(Unquoted(Tokens(FormEncode, dims))) == MapOf(dims) <==> NoSpaces(dims)
  {
    var ds := Unquoted(Tokens(FormEncode, dims));
    FormDimensions(dims);
    forall i | 0 <= i < |dims|
      ensures NoSpace(ds[i].0) && NoSpace(ds[i].1) && (NoSpace(dims[i].0) && NoSpace(dims[i].1) ==> ds[i] == dims[i]) {
      PlusKeeps(dims[i].0);
      PlusKeeps(dims[i].1);
    }
    if NoSpaces(dims) {
      assert ds == dims;
    } else {
      var i :| 0 <= i < |dims| && !(NoSpace(dims[i].0) && NoSpace(dims[i].1));
      MapsDiffer(ds, dims, i, NoSpace);
    }
  }

  /** The dimension k with the value "a b", form encoded, is not read back. */
  lemma SpaceIsLost()
    ensures var dims: Dimensions := [([107], [97, 32, 98])];
            Decode(Print(FormEncode, [116], [114], [110], dims)) != Some(JsonMetric([110], MapOf(dims)))
  {
    var dims: Dimensions := [([107], [97, 32, 98])];
    DecodesForm([116], [114], [110], dims);
    assert dims[0].1[1] == 32;
  }
}
