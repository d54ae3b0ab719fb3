/**
 Series names: tenant?region&name[&dimension=value]..., every token encoded. The decoder reads the four
 parts back; for printed names this module says exactly when it does.
 */
module SeriesName {
  import opened Text
  import opened UrlCodec

  type Dimensions = seq<(Bytes, Bytes)>

  // --- printing, with any token encoding ---

  function Segment(enc: Bytes -> string, d: (Bytes, Bytes)): string {
    enc(d.0) + (['='] + enc(d.1))
  }

  function Segments(enc: Bytes -> string, dims: Dimensions): (r: seq<string>)
    ensures |r| == |dims|
  {
    if dims == [] then [] else [Segment(enc, dims[0])] + Segments(enc, dims[1..])
  }

  // Each part behind its own ampersand
  function Behind(parts: seq<string>): string {
    if parts == [] then "" else ['&'] + (parts[0] + Behind(parts[1..]))
  }

  function Print(enc: Bytes -> string, tenant: Bytes, region: Bytes, name: Bytes, dims: Dimensions): string {
    enc(tenant) + (['?'] + (enc(region) + (['&'] + (enc(name) + Behind(Segments(enc, dims))))))
  }

  // --- decoding ---

  datatype Decoded =
    | NotMetric   // SerieNameDecodeException
    | Crash       // an index or an escape was malformed: another exception
    | Metric(tenant: Bytes, region: Bytes, name: Bytes, dimensions: map<Bytes, Bytes>)

  // isSerieMetricName: ^.+\?.+&.+(&.+=.+)*$ matches the whole text; the optional part is swallowed by the last .+
  predicate IsMetricName(s: string) {
    (forall i :: 0 <= i < |s| ==> !IsLineTerminator(s[i])) &&
    exists i, j :: 1 <= i && i + 2 <= j <= |s| - 2 && s[i] == '?' && s[j] == '&'
  }

  function ReadPair(part: string): Option<(Bytes, Bytes)> {
    var pieces := JavaSplit(part, '=');
    if |pieces| < 2 then None
    else
      var name, value := FormDecode(pieces[0]), FormDecode(pieces[1]);
      if name.None? || value.None? then None else Some((name.value, value.value))
  }

  // dimensions.put for each pair in turn
  function ReadPairs(parts: seq<string>): Option<map<Bytes, Bytes>> {
    if parts == [] then Some(map[])
    else
      var n := |parts| - 1;
      var before, last := ReadPairs(parts[..n]), ReadPair(parts[n]);
      if before.None? || last.None? then None
      else Some(before.value[last.value.0 := last.value.1])
  }

  // What the decoder computes, read off the pieces between the separators
  function Decode(s: string): Decoded {
    if !IsMetricName(s) then NotMetric else DecodeMetricName(s)
  }

  function DecodeMetricName(s: string): Decoded {
    var q := IndexOf(s, '?');
    if q == |s| then Crash
    else
      var parts := Split(s[q + 1..], '&');
      if |parts| < 2 then Crash else DecodeParts(s[..q], parts)
  }

  function DecodeParts(tenantPart: string, parts: seq<string>): Decoded
    requires |parts| >= 2
  {
    var tenant, region, name := FormDecode(tenantPart), FormDecode(parts[0]), FormDecode(parts[1]);
    var dims := ReadPairs(parts[2..]);
    if tenant.None? || region.None? || name.None? || dims.None? then Crash
    else Metric(tenant.value, region.value, name.value, dims.value)
  }

  // A part of the pattern: .+, at least one character and no line terminator
  predicate IsLine(s: string) {
    s != "" && forall i :: 0 <= i < |s| ==> !IsLineTerminator(s[i])
  }

  // The optional part of the pattern: (&.+=.+)*
  function PairTexts(pairs: seq<(string, string)>): string {
    if pairs == [] then "" else ['&'] + (pairs[0].0 + (['='] + (pairs[0].1 + PairTexts(pairs[1..]))))
  }

  predicate AllLines(pairs: seq<(string, string)>) {
    forall p | p in pairs :: IsLine(p.0) && IsLine(p.1)
  }

  // s is put together as the pattern says, of a tenant, a region, a name and pairs.
  predicate HasPattern(s: string, t: string, r: string, n: string, pairs: seq<(string, string)>) {
    IsLine(t) && IsLine(r) && IsLine(n) && AllLines(pairs) && s == t + (['?'] + (r + (['&'] + (n + PairTexts(pairs)))))
  }

  lemma {:induction false} PairTextsAreLines(pairs: seq<(string, string)>)
    requires AllLines(pairs)
    ensures forall i :: 0 <= i < |PairTexts(pairs)| ==> !IsLineTerminator(PairTexts(pairs)[i])
  {
    if pairs != [] {
      assert pairs[0] in pairs && forall p | p in pairs[1..] :: p in pairs;
      PairTextsAreLines(pairs[1..]);
    }
  }

  lemma PatternHasSeparators(s: string, t: string, r: string, n: string, pairs: seq<(string, string)>)
    requires HasPattern(s, t, r, n, pairs)
    ensures IsMetricName(s)
  {
    PairTextsAreLines(pairs);
    assert s[|t|] == '?';
    assert s[|t| + 1 + |r|] == '&';
  }

  lemma CutAtSeparators(s: string, i: nat, j: nat)
    requires i + 2 <= j < |s| && s[i] == '?' && s[j] == '&'
    ensures s == s[..i] + (['?'] + (s[i + 1..j] + (['&'] + (s[j + 1..] + ""))))
  {
  }

  /** The check passes just the texts that the pattern ^.+\?.+&.+(&.+=.+)*$ matches. */
  lemma CheckIsPattern(s: string)
    ensures IsMetricName(s) <==> exists t, r, n, pairs :: HasPattern(s, t, r, n, pairs)
  {
    if IsMetricName(s) {
      var i, j :| 1 <= i && i + 2 <= j <= |s| - 2 && s[i] == '?' && s[j] == '&';
      CutAtSeparators(s, i, j);
      assert HasPattern(s, s[..i], s[i + 1..j], s[j + 1..], []);
    }
    if t, r, n, pairs :| HasPattern(s, t, r, n, pairs) {
      PatternHasSeparators(s, t, r, n, pairs);
    }
  }

  // An index that indexOf returned as -1 raises: a metric name has the ampersand the decoder looks for.
  lemma MetricNameHasSeparators(s: string)
    requires IsMetricName(s)
    ensures var q := IndexOf(s, '?'); q < |s| && '&' in s[q + 1..]
  {
    var i, j :| 1 <= i && i + 2 <= j <= |s| - 2 && s[i] == '?' && s[j] == '&';
    var q := IndexOf(s, '?');
    IndexOfIsFirst(s, '?', i);
    assert s[q + 1..][j - q - 1] == s[j];
  }

  lemma {:induction false} ReadPairsFails(parts: seq<string>, n: nat)
    requires n <= |parts| && ReadPairs(parts[..n]).None?
    ensures ReadPairs(parts).None?
    decreases |parts|
  {
    if n == |parts| {
      assert parts[..n] == parts;
    } else {
      assert parts[..|parts| - 1][..n] == parts[..n];
      ReadPairsFails(parts[..|parts| - 1], n);
    }
  }

  // One step of cutting: the piece in front of the first ampersand, and what is left when there is one.
  method Cut(s: string) returns (piece: string, rest: string, more: bool)
    ensures Split(s, '&') == [piece] + (if more then Split(rest, '&') else [])
    ensures more <==> '&' in s
    ensures more ==> piece == s[..IndexOf(s, '&')] && rest == s[IndexOf(s, '&') + 1..]
    ensures !more ==> piece == s
  {
    var n := IndexOf(s, '&');
    if n < |s| {
      return s[..n], s[n + 1..], true;
    }
    return s, "", false;
  }

  lemma ReadOneMore(parts: seq<string>, k: nat, dimensions: map<Bytes, Bytes>)
    requires k < |parts| && ReadPairs(parts[..k]) == Some(dimensions)
    ensures var pair := ReadPair(parts[k]);
            if pair.None? then ReadPairs(parts).None?
            else ReadPairs(parts[..k + 1]) == Some(dimensions[pair.value.0 := pair.value.1])
  {
    assert parts[..k + 1][..k] == parts[..k];
    if ReadPair(parts[k]).None? {
      ReadPairsFails(parts, k + 1);
    }
  }

  lemma TookOne(parts: seq<string>, k: nat, piece: string, rest: seq<string>)
    requires k <= |parts| && parts[k..] == [piece] + rest
    ensures k < |parts| && piece == parts[k] && parts[k + 1..] == rest
  {
    assert parts[k..][0] == piece && parts[k..][1..] == rest;
  }

  // The while loop: rest is null once the last piece is taken.
  method ReadDimensions(dimensionsPart: string) returns (r: Option<map<Bytes, Bytes>>)
    ensures r == ReadPairs(Split(dimensionsPart, '&'))
  {
    ghost var parts := Split(dimensionsPart, '&');
    var dimensions: map<Bytes, Bytes> := map[];
    var rest := dimensionsPart;
    var more := true;
    ghost var k := 0;
    while more
      invariant k <= |parts| && parts[k..] == if more then Split(rest, '&') else []
      invariant ReadPairs(parts[..k]) == Some(dimensions)
      decreases |parts| - k
    {
      var nameValPair;
      nameValPair, rest, more := Cut(rest);
      TookOne(parts, k, nameValPair, if more then Split(rest, '&') else []);
      ReadOneMore(parts, k, dimensions);
      var pair := ReadPair(nameValPair);
      if pair.None? {
        return None;
      }
      dimensions := dimensions[pair.value.0 := pair.value.1];
      k := k + 1;
    }
    assert parts[..|parts|] == parts;
    return Some(dimensions);
  }

  // The part of the constructor behind the question mark
  method DecodeRest(tenantPart: string, afterTenant: string) returns (r: Decoded)
    requires |Split(afterTenant, '&')| >= 2
    ensures r == DecodeParts(tenantPart, Split(afterTenant, '&'))
  {
    ghost var parts := Split(afterTenant, '&');
    var tenant := FormDecode(tenantPart);
    var piece, rest, more := Cut(afterTenant);
    var region := FormDecode(piece);
    assert parts[1..] == Split(rest, '&');
    piece, rest, more := Cut(rest);
    var name := FormDecode(piece);
    assert parts[2..] == parts[1..][1..];

    // A name need not have dimensions.
    var dimensions: Option<map<Bytes, Bytes>> := Some(map[]);
    if more {
      dimensions := ReadDimensions(rest);
    }
    if tenant.None? || region.None? || name.None? || dimensions.None? {
      return Crash;
    }
    return Metric(tenant.value, region.value, name.value, dimensions.value);
  }

  // The SerieNameDecoder constructor
  method SerieNameDecoder(serieName: string) returns (r: Decoded)
    ensures r == Decode(serieName)
  {
    if !IsMetricName(serieName) {
      return NotMetric;
    }
    MetricNameHasSeparators(serieName);
    var q := IndexOf(serieName, '?');
    r := DecodeRest(serieName[..q], serieName[q + 1..]);
  }

  // --- printed names ---

  function MapOf(dims: Dimensions): map<Bytes, Bytes> {
    if dims == [] then map[] else var n := |dims| - 1; MapOf(dims[..n])[dims[n].0 := dims[n].1]
  }

  // Exactly the names the decoder reads back
  predicate Decodable(tenant: Bytes, region: Bytes, name: Bytes, dims: Dimensions) {
    tenant != [] &&
    if dims == [] then region != [] && name != [] else AllValued(dims)
  }

  lemma PlainExcludes(token: string, c: char)
    requires Plain(token) && IsSeparator(c)
    ensures c !in token
  {
  }

  lemma {:induction false} SegmentsExclude(enc: Bytes -> string, dims: Dimensions, c: char)
    requires TokenEncoding(enc) && (c == '?' || c == '&')
    ensures forall i :: 0 <= i < |dims| ==>
            Segments(enc, dims)[i] == Segment(enc, dims[i]) && c !in Segments(enc, dims)[i]
  {
    if dims != [] {
      SegmentsExclude(enc, dims[1..], c);
      PlainExcludes(enc(dims[0].0), c);
      PlainExcludes(enc(dims[0].1), c);
    }
  }

  lemma Onto(a: string, c: char, b: string)
    ensures a + ([c] + b) == a + [c] + b
  {
  }

  lemma {:induction false} SplitBehind(first: string, parts: seq<string>)
    requires '&' !in first && forall i :: 0 <= i < |parts| ==> '&' !in parts[i]
    ensures Split(first + Behind(parts), '&') == [first] + parts
    decreases parts
  {
    if parts == [] {
      assert first + "" == first;
      SplitFirst(first, '&', "");
    } else {
      var rest := parts[0] + Behind(parts[1..]);
      assert Split(rest, '&') == parts by { SplitBehind(parts[0], parts[1..]); }
      Onto(first, '&', rest);
      SplitFirst(first, '&', rest);
    }
  }

  lemma JoinedParts(t: string, r: string, n: string, parts: seq<string>)
    requires '?' !in t && '&' !in r && '&' !in n && forall i :: 0 <= i < |parts| ==> '&' !in parts[i]
    ensures var s := t + (['?'] + (r + (['&'] + (n + Behind(parts)))));
            IndexOf(s, '?') == |t| < |s| && s[..|t|] == t && Split(s[|t| + 1..], '&') == [r] + ([n] + parts)
  {
    var last := n + Behind(parts);
    var rest := r + (['&'] + last);
    assert Split(last, '&') == [n] + parts by { SplitBehind(n, parts); }
    assert Split(rest, '&') == [r] + ([n] + parts) by {
      Onto(r, '&', last);
      SplitFirst(r, '&', last);
    }
    Onto(t, '?', rest);
    IndexOfConcat(t, '?', rest);
    var s := t + (['?'] + rest);
    assert s[..|t|] == t && s[|t| + 1..] == rest;
  }

  lemma PrintedParts(enc: Bytes -> string, tenant: Bytes, region: Bytes, name: Bytes, dims: Dimensions)
    requires TokenEncoding(enc)
    ensures var s := Print(enc, tenant, region, name, dims);
            IndexOf(s, '?') == |enc(tenant)| < |s| && s[..|enc(tenant)|] == enc(tenant) &&
            Split(s[|enc(tenant)| + 1..], '&') == [enc(region)] + ([enc(name)] + Segments(enc, dims))
  {
    SegmentsExclude(enc, dims, '&');
    PlainExcludes(enc(name), '&');
    PlainExcludes(enc(region), '&');
    PlainExcludes(enc(tenant), '?');
    JoinedParts(enc(tenant), enc(region), enc(name), Segments(enc, dims));
  }

  lemma PairSplits(enc: Bytes -> string, d: (Bytes, Bytes))
    requires TokenEncoding(enc)
    ensures Split(Segment(enc, d), '=') == [enc(d.0), enc(d.1)]
  {
    PlainExcludes(enc(d.0), '=');
    PlainExcludes(enc(d.1), '=');
    assert Segment(enc, d) == enc(d.0) + ['='] + enc(d.1);
    SplitFirst(enc(d.0), '=', enc(d.1));
    SplitFirst(enc(d.1), '=', "");
  }

  // A printed dimension is read back exactly when its value is not empty.
  lemma PairReads(d: (Bytes, Bytes))
    ensures ReadPair(Segment(FormEncode, d)) == if d.1 == [] then None else Some(d)
  {
    FormIsTokenEncoding();
    PairSplits(FormEncode, d);
    FormRoundTrip(d.0);
    FormRoundTrip(d.1);
    var pieces := [FormEncode(d.0), FormEncode(d.1)];
    if d.1 == [] {
      assert pieces[..1] == [FormEncode(d.0)];
      assert |DropTrailingEmpty(pieces[..1])| <= 1;
    }
  }

  lemma {:induction false} SegmentsPrefix(enc: Bytes -> string, dims: Dimensions, n: nat)
    requires n <= |dims|
    ensures Segments(enc, dims[..n]) == Segments(enc, dims)[..n]
    ensures n < |dims| ==> Segments(enc, dims)[n] == Segment(enc, dims[n])
  {
    if n > 0 {
      assert dims[..n][1..] == dims[1..][..n - 1];
      SegmentsPrefix(enc, dims[1..], n - 1);
    }
  }

  predicate AllValued(dims: Dimensions) {
    forall i :: 0 <= i < |dims| ==> dims[i].1 != []
  }

  lemma AllValuedLast(dims: Dimensions)
    requires dims != []
    ensures AllValued(dims) <==> AllValued(dims[..|dims| - 1]) && dims[|dims| - 1].1 != []
  {
  }

  lemma {:induction false} PairsRead(dims: Dimensions)
    ensures ReadPairs(Segments(FormEncode, dims)) == if AllValued(dims) then Some(MapOf(dims)) else None
  {
    if dims != [] {
      var n := |dims| - 1;
      SegmentsPrefix(FormEncode, dims, n);
      PairsRead(dims[..n]);
      PairReads(dims[n]);
      AllValuedLast(dims);
    }
  }

  // No question mark and no line terminator
  predicate Clean(s: string) {
    forall i :: 0 <= i < |s| ==> s[i] != '?' && !IsLineTerminator(s[i])
  }

  lemma CleanConcat(a: string, b: string)
    requires Clean(a) && Clean(b)
    ensures Clean(a + b)
  {
  }

  lemma {:induction false} BehindIsClean(enc: Bytes -> string, dims: Dimensions)
    requires TokenEncoding(enc)
    ensures Clean(Behind(Segments(enc, dims)))
  {
    if dims != [] {
      BehindIsClean(enc, dims[1..]);
      assert Clean(enc(dims[0].0)) && Clean(enc(dims[0].1)) by {
        assert Plain(enc(dims[0].0)) && Plain(enc(dims[0].1));
      }
      CleanConcat(['='], enc(dims[0].1));
      CleanConcat(enc(dims[0].0), ['='] + enc(dims[0].1));
      CleanConcat(Segment(enc, dims[0]), Behind(Segments(enc, dims[1..])));
      CleanConcat(['&'], Segment(enc, dims[0]) + Behind(Segments(enc, dims[1..])));
      assert Segments(enc, dims)[1..] == Segments(enc, dims[1..]);
    }
  }

  // The last segment begins at an ampersand with at least its equals sign behind it.
  lemma {:induction false} LastAmpersand(enc: Bytes -> string, dims: Dimensions) returns (j: nat)
    requires dims != []
    ensures var b := Behind(Segments(enc, dims)); j + 2 <= |b| && b[j] == '&'
  {
    var b := Behind(Segments(enc, dims));
    if |dims| == 1 {
      j := 0;
    } else {
      j := LastAmpersand(enc, dims[1..]);
      var head := ['&'] + Segment(enc, dims[0]);
      assert b == head + Behind(Segments(enc, dims[1..]));
      j := |head| + j;
    }
  }

  lemma PrintedCharacters(enc: Bytes -> string, tenant: Bytes, region: Bytes, name: Bytes, dims: Dimensions)
    requires TokenEncoding(enc)
    ensures var s := Print(enc, tenant, region, name, dims);
            (forall i :: 0 <= i < |s| ==> !IsLineTerminator(s[i])) &&
            (forall i :: 0 <= i < |s| && s[i] == '?' ==> i == |enc(tenant)|)
  {
    BehindIsClean(enc, dims);
    var r := Behind(Segments(enc, dims));
    assert Plain(enc(tenant)) && Plain(enc(region)) && Plain(enc(name));
    CleanConcat(enc(name), r);
    CleanConcat(['&'], enc(name) + r);
    CleanConcat(enc(region), ['&'] + (enc(name) + r));
    var rest := enc(region) + (['&'] + (enc(name) + r));
    var s := enc(tenant) + (['?'] + rest);
    assert forall i :: 0 <= i < |s| ==>
      s[i] == if i < |enc(tenant)| then enc(tenant)[i]
              else if i == |enc(tenant)| then '?' else rest[i - |enc(tenant)| - 1];
  }

  lemma PrintedShape(enc: Bytes -> string, tenant: Bytes, region: Bytes, name: Bytes, dims: Dimensions)
    ensures var s := Print(enc, tenant, region, name, dims);
            var t, r, n := |enc(tenant)|, |enc(region)|, |enc(name)|;
            var b := Behind(Segments(enc, dims));
            |s| == t + r + n + 2 + |b| && s[t] == '?' && s[t + 1 + r] == '&' && s[t + r + n + 2..] == b &&
            s[t + 1..t + 1 + r] == enc(region) && s[t + r + 2..t + r + n + 2] == enc(name)
  {
  }

  lemma OneAmpersand(enc: Bytes -> string, tenant: Bytes, region: Bytes, name: Bytes)
    requires TokenEncoding(enc)
    ensures var s := Print(enc, tenant, region, name, []);
            forall j :: 0 <= j < |s| && s[j] == '&' ==> j == |enc(tenant)| + 1 + |enc(region)|
  {
    assert Plain(enc(tenant)) && Plain(enc(region)) && Plain(enc(name));
  }

  lemma PrintedIsMetricName(enc: Bytes -> string, tenant: Bytes, region: Bytes, name: Bytes, dims: Dimensions)
    requires TokenEncoding(enc)
    ensures IsMetricName(Print(enc, tenant, region, name, dims)) <==>
            tenant != [] && (dims != [] || (region != [] && name != []))
  {
    var s := Print(enc, tenant, region, name, dims);
    var t, r, n := |enc(tenant)|, |enc(region)|, |enc(name)|;
    PrintedCharacters(enc, tenant, region, name, dims);
    PrintedShape(enc, tenant, region, name, dims);
    assert (t == 0 <==> tenant == []) && (r == 0 <==> region == []) && (n == 0 <==> name == []);
    if dims == [] {
      OneAmpersand(enc, tenant, region, name);
    } else {
      var b := Behind(Segments(enc, dims));
      var j := LastAmpersand(enc, dims);
      assert s[t + r + n + 2 + j] == s[t + r + n + 2..][j];
    }
  }

  lemma PartsDecode(tenant: Bytes, region: Bytes, name: Bytes, dims: Dimensions)
    ensures DecodeParts(FormEncode(tenant), [FormEncode(region)] + ([FormEncode(name)] + Segments(FormEncode, dims))) ==
            if AllValued(dims) then Metric(tenant, region, name, MapOf(dims)) else Crash
  {
    FormRoundTrip(tenant);
    FormRoundTrip(region);
    FormRoundTrip(name);
    var parts := [FormEncode(region)] + ([FormEncode(name)] + Segments(FormEncode, dims));
    assert parts[2..] == Segments(FormEncode, dims);
    PairsRead(dims);
  }

  lemma PrintedDecodes(tenant: Bytes, region: Bytes, name: Bytes, dims: Dimensions)
    ensures var s := Print(FormEncode, tenant, region, name, dims);
            IsMetricName(s) ==>
            Decode(s) == if AllValued(dims) then Metric(tenant, region, name, MapOf(dims)) else Crash
  {
    PrintedDecodesParts(tenant, region, name, dims);
    PartsDecode(tenant, region, name, dims);
  }

  lemma PrintedDecodesParts(tenant: Bytes, region: Bytes, name: Bytes, dims: Dimensions)
    ensures DecodeMetricName(Print(FormEncode, tenant, region, name, dims)) ==
            DecodeParts(FormEncode(tenant), [FormEncode(region)] + ([FormEncode(name)] + Segments(FormEncode, dims)))
  {
    FormIsTokenEncoding();
    PrintedParts(FormEncode, tenant, region, name, dims);
    DecodeUnfolds(Print(FormEncode, tenant, region, name, dims), FormEncode(tenant),
      [FormEncode(region)] + ([FormEncode(name)] + Segments(FormEncode, dims)));
  }

  lemma DecodeUnfolds(s: string, tenantPart: string, parts: seq<string>)
    requires IndexOf(s, '?') == |tenantPart| < |s| && s[..|tenantPart|] == tenantPart
    requires Split(s[|tenantPart| + 1..], '&') == parts && |parts| >= 2
    ensures DecodeMetricName(s) == DecodeParts(tenantPart, parts)
  {
  }

  /**
   The decoder inverts the documented encoding for exactly these names: a tenant, and either no dimensions
   and a region and a name, or dimensions that all have a value. An empty region or name is read back
   when dimensions follow it; an empty value raises an index error that callers do not catch.
   */
  lemma DecoderInverts(tenant: Bytes, region: Bytes, name: Bytes, dims: Dimensions)
    ensures Decode(Print(FormEncode, tenant, region, name, dims)) == Metric(tenant, region, name, MapOf(dims)) <==>
            Decodable(tenant, region, name, dims)
  {
    FormIsTokenEncoding();
    PrintedIsMetricName(FormEncode, tenant, region, name, dims);
    PrintedDecodes(tenant, region, name, dims);
  }

  /** A name that passes the check of isSerieMetricName may still make the decoder raise: tenant?region&name&d= */
  lemma CheckedNameMayCrash(tenant: Bytes, region: Bytes, name: Bytes, d: Bytes)
    requires tenant != []
    ensures var s := Print(FormEncode, tenant, region, name, [(d, [])]); IsMetricName(s) && Decode(s) == Crash
  {
    FormIsTokenEncoding();
    PrintedIsMetricName(FormEncode, tenant, region, name, [(d, [])]);
    PrintedDecodes(tenant, region, name, [(d, [])]);
    var dims: Dimensions := [(d, [])];
    assert dims[0].1 == [];
  }

  // --- which names make the decoder raise ---

  // Behind the first equals sign is something else than equals signs.
  predicate HasValue(part: string) {
    OtherThanEquals(part, IndexOf(part, '=') + 1)
  }

  predicate OtherThanEquals(s: string, from: nat) {
    exists j :: from <= j < |s| && s[j] != '='
  }

  // The text between the first equals sign and the next one
  function ValueText(part: string): string
    requires IndexOf(part, '=') < |part|
  {
    var rest := part[IndexOf(part, '=') + 1..];
    rest[..IndexOf(rest, '=')]
  }

  predicate Readable(part: string) {
    HasValue(part) && WellEscaped(part[..IndexOf(part, '=')]) && WellEscaped(ValueText(part))
  }

  predicate AnyText(parts: seq<string>, from: nat) {
    exists m :: from <= m < |parts| && parts[m] != ""
  }

  lemma {:induction false} DropKeepsText(parts: seq<string>)
    ensures |DropTrailingEmpty(parts)| >= 2 <==> AnyText(parts, 1)
    ensures DropTrailingEmpty(parts) <= parts
  {
    var n := |parts| - 1;
    if parts != [] && parts[n] == "" {
      DropKeepsText(parts[..n]);
      assert forall m :: 0 <= m < n ==> parts[..n][m] == parts[m];
    } else if |parts| >= 2 {
      assert parts[n] != "";
    }
  }

  // Cutting off a first piece
  lemma TextBehind(first: string, more: seq<string>)
    ensures AnyText([first] + more, 1) <==> AnyText(more, 0)
  {
    var parts := [first] + more;
    assert forall m :: 0 < m < |parts| ==> parts[m] == more[m - 1];
    assert forall m :: 0 <= m < |more| ==> more[m] == parts[m + 1];
  }

  lemma OtherBehind(s: string, n: nat)
    requires n <= |s|
    ensures OtherThanEquals(s, n) <==> OtherThanEquals(s[n..], 0)
  {
    if j :| n <= j < |s| && s[j] != '=' {
      assert s[n..][j - n] != '=';
    }
    if j :| 0 <= j < |s[n..]| && s[n..][j] != '=' {
      assert s[j + n] != '=';
    }
  }

  lemma {:induction false} SplitHasText(s: string)
    ensures AnyText(Split(s, '='), 0) <==> OtherThanEquals(s, 0)
    decreases |s|
  {
    var n := IndexOf(s, '=');
    if n == |s| {
      OnePiece(s);
    } else {
      var rest := s[n + 1..];
      SplitHasText(rest);
      FirstPiece(s[..n], Split(rest, '='));
      OtherInFront(s, n);
      OtherBehind(s, n + 1);
    }
  }

  lemma OnePiece(s: string)
    requires '=' !in s
    ensures AnyText(Split(s, '='), 0) <==> OtherThanEquals(s, 0)
  {
    assert Split(s, '=') == [s] && [s][0] == s;
    if s != "" { assert s[0] in s; }
  }

  lemma FirstPiece(first: string, more: seq<string>)
    ensures AnyText([first] + more, 0) <==> first != "" || AnyText(more, 0)
  {
    TextBehind(first, more);
    assert ([first] + more)[0] == first;
  }

  // Up to the first equals sign there are only other characters.
  lemma OtherInFront(s: string, n: nat)
    requires n == IndexOf(s, '=') < |s|
    ensures OtherThanEquals(s, 0) <==> n > 0 || OtherThanEquals(s, n + 1)
  {
    if n > 0 { assert s[..n][0] == s[0]; }
  }

  lemma FirstOfSplit(rest: string)
    ensures Split(rest, '=')[0] == rest[..IndexOf(rest, '=')]
  {
    assert rest[..|rest|] == rest;
  }

  lemma SplitUnfolds(s: string, c: char)
    requires IndexOf(s, c) < |s|
    ensures Split(s, c) == [s[..IndexOf(s, c)]] + Split(s[IndexOf(s, c) + 1..], c)
  {
  }

  lemma SplitAtEquals(part: string, e: nat)
    requires e == IndexOf(part, '=') < |part|
    ensures Split(part, '=') == [part[..e]] + Split(part[e + 1..], '=')
    ensures Split(part[e + 1..], '=')[0] == ValueText(part)
  {
    SplitUnfolds(part, '=');
    FirstOfSplit(part[e + 1..]);
  }

  lemma PiecesIff(part: string)
    ensures |JavaSplit(part, '=')| >= 2 <==> HasValue(part)
    ensures HasValue(part) ==>
            JavaSplit(part, '=')[0] == part[..IndexOf(part, '=')] && JavaSplit(part, '=')[1] == ValueText(part)
  {
    if '=' in part {
      var e := IndexOf(part, '=');
      SplitAtEquals(part, e);
      DropKeepsText(Split(part, '='));
      TextBehind(part[..e], Split(part[e + 1..], '='));
      SplitHasText(part[e + 1..]);
      OtherBehind(part, e + 1);
    }
  }

  lemma PairReadsIff(part: string)
    ensures ReadPair(part).Some? <==> Readable(part)
  {
    PiecesIff(part);
    if HasValue(part) {
      DecodesIff(part[..IndexOf(part, '=')]);
      DecodesIff(ValueText(part));
    }
  }

  lemma {:induction false} PairsReadIff(parts: seq<string>)
    ensures ReadPairs(parts).Some? <==> forall part | part in parts :: Readable(part)
  {
    if parts != [] {
      var n := |parts| - 1;
      PairsReadIff(parts[..n]);
      PairReadsIff(parts[n]);
      assert parts == parts[..n] + [parts[n]];
    }
  }

  // What the decoder needs of a name that passes the check
  predicate WellFormed(s: string) {
    var q := IndexOf(s, '?');
    q < |s| &&
    var parts := Split(s[q + 1..], '&');
    && |parts| >= 2 && WellEscaped(s[..q]) && WellEscaped(parts[0]) && WellEscaped(parts[1])
    && forall part | part in parts[2..] :: Readable(part)
  }

  /** The decoder raises just for names that pass the check with a malformed escape or a dimension that has no value. */
  lemma CrashIff(s: string)
    ensures Decode(s).Crash? <==> IsMetricName(s) && !WellFormed(s)
  {
    var q := IndexOf(s, '?');
    if q < |s| {
      var parts := Split(s[q + 1..], '&');
      if |parts| >= 2 {
        DecodesIff(s[..q]);
        DecodesIff(parts[0]);
        DecodesIff(parts[1]);
        PairsReadIff(parts[2..]);
      }
    }
  }
}
