/**
 What the listings list: each element has the name and the dimensions of one stored series and an id that decodes to
 the name of that series; the series are those of the query result, in order, up to the end of the page.
 */
module ListedSeries {
  import opened Text
  import opened Ordering
  import opened UrlCodec
  import opened SeriesName
  import opened LinkedPages
  import opened MetricListing
  import P = PythonListing
  import PythonSeriesName

  // --- one page over things of any kind ---

  // Those of the things that are due
  function Due<S>(things: seq<S>, due: S -> bool): seq<S> {
    if things == [] then [] else (if due(things[0]) then [things[0]] else []) + Due(things[1..], due)
  }

  // Without an offset a page holds all of them, with one no more than there is room for.
  function Front<S>(things: seq<S>, offset: bool, room: int): seq<S>
    requires offset ==> room >= 0
  {
    if !offset || |things| <= room then things else things[..room]
  }

  // The elements of these things, or the exception when one of them is not ok
  ghost predicate Lists<S(!new), D>(page: Page<D>, things: seq<S>, ok: S -> bool, element: S -> D) {
    page == if forall s :: s in things ==> ok(s) then Elements(Each(things, element)) else Raised
  }

  // A scan of the things, as both listings make it
  function Given<S, D>(things: seq<S>, due: S -> bool, ok: S -> bool, element: S -> D, offset: bool, room: int): Page<D>
  {
    if things == [] then Elements([])
    else
      var s, rest := things[0], things[1..];
      if !due(s) then Given(rest, due, ok, element, offset, room)
      else if !ok(s) then Raised
      else if offset && room <= 1 then Elements([element(s)])
      else Before(element(s), Given(rest, due, ok, element, offset, room - 1))
  }

  function Before<D>(d: D, page: Page<D>): Page<D> {
    if page.Raised? then Raised else Elements([d] + page.elements)
  }

  lemma FrontOfMore<S>(s: S, due: seq<S>, offset: bool, room: int)
    requires offset ==> room >= 1
    ensures Front([s] + due, offset, room) ==
            [s] + (if offset && room == 1 then [] else Front(due, offset, room - 1))
  {
    if offset && room <= |due| {
      assert ([s] + due)[..room] == [s] + due[..room - 1];
    }
  }

  lemma FirstLists<S(!new), D(!new)>(s: S, rest: seq<S>, page: Page<D>, ok: S -> bool, element: S -> D)
    requires Lists(page, rest, ok, element)
    ensures Lists(if ok(s) then Before(element(s), page) else Raised, [s] + rest, ok, element)
  {
    var all := [s] + rest;
    assert s == all[0] && forall x :: x in all <==> x == s || x in rest;
    assert Each(all, element) == [element(s)] + Each(rest, element);
  }

  lemma {:induction false} GivenLists<S(!new), D(!new)>(things: seq<S>, due: S -> bool, ok: S -> bool, element: S -> D,
                                                        offset: bool, room: int)
    requires offset ==> room >= 1
    ensures Lists(Given(things, due, ok, element, offset, room), Front(Due(things, due), offset, room), ok, element)
    decreases |things|
  {
    if things != [] {
      var s, rest := things[0], things[1..];
      if !due(s) {
        GivenLists(rest, due, ok, element, offset, room);
        assert [] + Due(rest, due) == Due(rest, due);
      } else {
        FrontOfMore(s, Due(rest, due), offset, room);
        if offset && room == 1 {
          FirstLists(s, [], Elements([]), ok, element);
        } else {
          GivenLists(rest, due, ok, element, offset, room - 1);
          FirstLists(s, Front(Due(rest, due), offset, room - 1), Given(rest, due, ok, element, offset, room - 1),
            ok, element);
        }
      }
    }
  }

  // --- the Java listing ---

  ghost predicate Describes(d: MetricDefinition, s: Series) {
    d.name == s.name && d.dimensions == MapOf(s.dimensions) && DecodeText(d.id) == Some(StoredName(s))
  }

  // The answer that lists the series, or the exception of one with a dimension without a value
  ghost predicate ListsSeries(page: Page<MetricDefinition>, series: seq<Series>) {
    if exists s :: s in series && !AllValued(s.dimensions) then page.Raised?
    else
      page.Elements? && |page.elements| == |series| &&
      forall i :: 0 <= i < |series| ==> Describes(page.elements[i], series[i])
  }

  // What is above the offset and passes the check of the decoder
  function IsDue(after: Option<string>): Series -> bool {
    (s: Series) => PassesCheck(s) && (after.Some? ==> Less(after.value, StoredName(s)))
  }

  function Valued(): Series -> bool {
    (s: Series) => AllValued(s.dimensions)
  }

  function ElementAt(dec: Decoder, name: Series -> string): Series -> MetricDefinition {
    (s: Series) => Definition(dec, name(s))
  }

  // What becomes of a series in the scan, by what the decoder makes of its name
  ghost predicate Decides(dec: Decoder, name: Series -> string, due: Series -> bool, ok: Series -> bool,
                          after: Option<string>) {
    (forall s :: due(s) <==> (after.Some? ==> Less(after.value, name(s))) && !dec(name(s)).NotMetric?) &&
    (forall s :: due(s) ==> (ok(s) <==> !dec(name(s)).Crash?))
  }

  lemma FirstListed(dec: Decoder, name: Series -> string, s: Series, names: seq<string>, due: Series -> bool,
                    ok: Series -> bool, after: Option<string>, room: int)
    requires Decides(dec, name, due, ok, after) && names != [] && names[0] == name(s)
    ensures Listed(dec, names, after, room) ==
            if !due(s) then Listed(dec, names[1..], after, room)
            else if !ok(s) then Raised
            else if after.Some? && room <= 1 then Elements([ElementAt(dec, name)(s)])
            else Before(ElementAt(dec, name)(s), Listed(dec, names[1..], after, room - 1))
  {
    RowListed(dec, names, names[1..], after, room);
  }

  lemma GivenFirst<S, D>(things: seq<S>, due: S -> bool, ok: S -> bool, element: S -> D, offset: bool, room: int)
    requires things != []
    ensures Given(things, due, ok, element, offset, room) ==
            if !due(things[0]) then Given(things[1..], due, ok, element, offset, room)
            else if !ok(things[0]) then Raised
            else if offset && room <= 1 then Elements([element(things[0])])
            else Before(element(things[0]), Given(things[1..], due, ok, element, offset, room - 1))
  {
  }

  lemma NoneGiven<S, D>(due: S -> bool, ok: S -> bool, element: S -> D, offset: bool, room: int)
    ensures Given([], due, ok, element, offset, room) == Elements([])
  {
  }

  lemma {:induction false} ListedIsGiven(dec: Decoder, name: Series -> string, series: seq<Series>, due: Series -> bool,
                                         ok: Series -> bool, after: Option<string>, room: int)
    requires Decides(dec, name, due, ok, after)
    ensures Listed(dec, Each(series, name), after, room) ==
            Given(series, due, ok, ElementAt(dec, name), after.Some?, room)
    decreases |series|
  {
    if series == [] {
      NoneGiven(due, ok, ElementAt(dec, name), after.Some?, room);
    } else {
      var rest := series[1..];
      var names := Each(series, name);
      assert names[1..] == Each(rest, name);
      FirstListed(dec, name, series[0], names, due, ok, after, room);
      GivenFirst(series, due, ok, ElementAt(dec, name), after.Some?, room);
      ListedIsGiven(dec, name, rest, due, ok, after, room);
      ListedIsGiven(dec, name, rest, due, ok, after, room - 1);
    }
  }

  lemma SeriesDecodes(s: Series)
    ensures Decode(StoredName(s)) ==
            if !PassesCheck(s) then NotMetric
            else if AllValued(s.dimensions) then Metric(s.tenant, s.region, s.name, MapOf(s.dimensions))
            else Crash
  {
    FormIsTokenEncoding();
    PrintedIsMetricName(FormEncode, s.tenant, s.region, s.name, s.dimensions);
    PrintedDecodes(s.tenant, s.region, s.name, s.dimensions);
  }

  lemma SeriesIsDescribed(s: Series)
    requires PassesCheck(s) && AllValued(s.dimensions)
    ensures Describes(ElementAt(Decode, StoredName)(s), s)
  {
    SeriesDecodes(s);
    var name := StoredName(s);
    assert Definition(Decode, name) == MetricDefinition(s.name, MapOf(s.dimensions), Id(name)) by {
      DefinitionIs(Decode, name);
    }
    OffsetOfId(name);
  }

  lemma DefinitionIs(dec: Decoder, name: string)
    requires dec(name).Metric?
    ensures Definition(dec, name) == MetricDefinition(dec(name).name, dec(name).dimensions, Id(name))
  {
  }

  lemma {:induction false} DueAreDue<S>(things: seq<S>, due: S -> bool)
    ensures forall s | s in Due(things, due) :: due(s)
  {
    if things != [] {
      DueAreDue(things[1..], due);
    }
  }

  lemma DescribedLists(page: Page<MetricDefinition>, series: seq<Series>)
    requires Lists(page, series, Valued(), ElementAt(Decode, StoredName)) && forall s | s in series :: PassesCheck(s)
    ensures ListsSeries(page, series)
  {
    if forall s :: s in series ==> Valued()(s) {
      forall i | 0 <= i < |series| ensures Describes(page.elements[i], series[i]) {
        assert series[i] in series && Valued()(series[i]);
        SeriesIsDescribed(series[i]);
      }
    }
  }

  lemma StoredKinds(after: Option<string>)
    ensures Decides(Decode, StoredName, IsDue(after), Valued(), after)
  {
    forall s ensures IsDue(after)(s) <==>
                     (after.Some? ==> Less(after.value, StoredName(s))) && !Decode(StoredName(s)).NotMetric?
      ensures IsDue(after)(s) ==> (Valued()(s) <==> !Decode(StoredName(s)).Crash?)
    {
      SeriesDecodes(s);
    }
  }

  lemma FrontIsDue(series: seq<Series>, after: Option<string>)
    ensures forall s | s in Front(Due(series, IsDue(after)), after.Some?, LIMIT) :: PassesCheck(s)
  {
    DueAreDue(series, IsDue(after));
  }

  lemma PageListsSeries(series: seq<Series>, after: Option<string>)
    ensures ListsSeries(Listed(Decode, Each(series, StoredName), after, LIMIT),
                        Front(Due(series, IsDue(after)), after.Some?, LIMIT))
  {
    StoredKinds(after);
    ListedIsGiven(Decode, StoredName, series, IsDue(after), Valued(), after, LIMIT);
    GivenLists(series, IsDue(after), Valued(), ElementAt(Decode, StoredName), after.Some?, LIMIT);
    FrontIsDue(series, after);
    DescribedLists(Listed(Decode, Each(series, StoredName), after, LIMIT),
      Front(Due(series, IsDue(after)), after.Some?, LIMIT));
  }

  /**
   Without an offset a call lists all stored series that pass the check; with one, the first fifty of those whose names
   are above the decoded offset; each in its place with its own name and dimensions, and an id that decodes to its own
   series name. It raises just if one of these has a dimension without a value, or the offset cannot be decoded.
   */
  lemma ListsStoredSeries(series: seq<Series>, offset: string)
    ensures ListsSeries(Listed(Decode, Each(series, StoredName), None, LIMIT), Due(series, IsDue(None)))
    ensures var after := DecodeText(offset);
            if after.None? then Answer(Decode, Each(series, StoredName), offset) == Raised
            else ListsSeries(Answer(Decode, Each(series, StoredName), offset),
                             Front(Due(series, IsDue(after)), true, LIMIT))
  {
    PageListsSeries(series, None);
    if DecodeText(offset).Some? {
      PageListsSeries(series, DecodeText(offset));
    }
  }

  // --- the Python listing ---

  function PercentName(s: Series): string {
    Print(PercentEncode, s.tenant, s.region, s.name, s.dimensions)
  }

  // A series as the Python code stores it: nothing in it is empty, and no dimension is named twice.
  predicate IsFull(s: Series) {
    s.tenant != [] && s.region != [] && s.name != [] && PythonSeriesName.AllFull(s.dimensions) &&
    PythonSeriesName.NamesDiffer(s.dimensions)
  }

  ghost predicate MetricDescribes(m: P.MetricWithId, s: Series) {
    m.metric == PythonSeriesName.JsonMetric(s.name, MapOf(s.dimensions)) && DecodeText(m.id) == Some(PercentName(s))
  }

  // What is not below the unquoted offset
  function IsNotBelow(offset: Option<string>, name: Series -> string): Series -> bool {
    (s: Series) => offset.Some? ==> !Less(name(s), P.UnquoteText(offset.value))
  }

  function Always(): Series -> bool {
    (s: Series) => true
  }

  function MetricAt(dec: P.Decoder, name: Series -> string): Series -> P.MetricWithId {
    (s: Series) => P.Element(dec, name(s))
  }

  lemma FirstMetric(dec: P.Decoder, name: Series -> string, s: Series, names: seq<string>, offset: Option<string>,
                    room: int)
    requires names != [] && names[0] == name(s) && dec(name(s)).Match? && P.Ascii(name(s))
    ensures P.Listed(dec, names, offset, room) ==
            if !IsNotBelow(offset, name)(s) then P.Listed(dec, names[1..], offset, room)
            else if offset.Some? && room <= 1 then Elements([MetricAt(dec, name)(s)])
            else Before(MetricAt(dec, name)(s), P.Listed(dec, names[1..], offset, room - 1))
  {
    P.NameListed(dec, names, names[1..], offset, room);
  }

  lemma {:induction false} MetricsAreGiven(dec: P.Decoder, name: Series -> string, series: seq<Series>,
                                           offset: Option<string>, room: int)
    requires forall s | s in series :: dec(name(s)).Match? && P.Ascii(name(s))
    ensures P.Listed(dec, Each(series, name), offset, room) ==
            Given(series, IsNotBelow(offset, name), Always(), MetricAt(dec, name), offset.Some?, room)
    decreases |series|
  {
    if series == [] {
      NoneGiven(IsNotBelow(offset, name), Always(), MetricAt(dec, name), offset.Some?, room);
    } else {
      var rest := series[1..];
      var names := Each(series, name);
      assert names[1..] == Each(rest, name);
      FirstMetric(dec, name, series[0], names, offset, room);
      GivenFirst(series, IsNotBelow(offset, name), Always(), MetricAt(dec, name), offset.Some?, room);
      MetricsAreGiven(dec, name, rest, offset, room);
      MetricsAreGiven(dec, name, rest, offset, room - 1);
    }
  }

  lemma {:induction false} PercentIsAscii(bs: Bytes)
    ensures P.Ascii(PercentEncode(bs))
  {
    if bs != [] {
      PercentIsAscii(bs[1..]);
      assert P.Ascii(PercentByte(bs[0]));
      P.AsciiConcat(PercentByte(bs[0]), PercentEncode(bs[1..]));
    }
  }

  lemma {:induction false} BehindIsAscii(dims: Dimensions)
    ensures P.Ascii(Behind(Segments(PercentEncode, dims)))
  {
    if dims != [] {
      var value := ['='] + PercentEncode(dims[0].1);
      PercentIsAscii(dims[0].0);
      PercentIsAscii(dims[0].1);
      BehindIsAscii(dims[1..]);
      P.AsciiConcat("=", PercentEncode(dims[0].1));
      P.AsciiConcat(PercentEncode(dims[0].0), value);
      P.AsciiConcat(PercentEncode(dims[0].0) + value, Behind(Segments(PercentEncode, dims[1..])));
      P.AsciiConcat("&", PercentEncode(dims[0].0) + value + Behind(Segments(PercentEncode, dims[1..])));
      assert Segments(PercentEncode, dims)[1..] == Segments(PercentEncode, dims[1..]);
    }
  }

  lemma PercentNameIsAscii(s: Series)
    ensures P.Ascii(PercentName(s))
  {
    PercentIsAscii(s.tenant);
    PercentIsAscii(s.region);
    PercentIsAscii(s.name);
    BehindIsAscii(s.dimensions);
    var behind := PercentEncode(s.name) + Behind(Segments(PercentEncode, s.dimensions));
    P.AsciiConcat(PercentEncode(s.name), Behind(Segments(PercentEncode, s.dimensions)));
    P.AsciiConcat("&", behind);
    P.AsciiConcat(PercentEncode(s.region), "&" + behind);
    P.AsciiConcat("?", PercentEncode(s.region) + ("&" + behind));
    P.AsciiConcat(PercentEncode(s.tenant), "?" + (PercentEncode(s.region) + ("&" + behind)));
  }

  lemma FullMatches(s: Series)
    requires IsFull(s)
    ensures P.Decode()(PercentName(s)) == P.Match(PythonSeriesName.JsonMetric(s.name, MapOf(s.dimensions)))
  {
    PythonSeriesName.DecodesPercent(s.tenant, s.region, s.name, s.dimensions);
  }

  lemma ElementIs(dec: P.Decoder, name: string)
    requires dec(name).Match?
    ensures P.Element(dec, name) == P.MetricWithId(dec(name).metric, P.Quote(name))
  {
  }

  lemma FullIsDescribed(s: Series)
    requires IsFull(s)
    ensures MetricDescribes(MetricAt(P.Decode(), PercentName)(s), s)
  {
    FullMatches(s);
    ElementIs(P.Decode(), PercentName(s));
    P.QuoteIsRead(PercentName(s));
  }

  lemma {:induction false} DueIsAmong<S>(things: seq<S>, due: S -> bool)
    ensures forall s | s in Due(things, due) :: s in things
  {
    if things != [] {
      DueIsAmong(things[1..], due);
    }
  }

  /**
   Without an offset a call lists all stored series; with one, the first fifty of those whose names are not below the
   unquoted offset; each in its place with its own name and dimensions, and an id that decodes to its own series name.
   */
  lemma ListsStoredMetrics(series: seq<Series>, offset: Option<string>)
    requires forall s | s in series :: IsFull(s)
    ensures var page := P.Listed(P.Decode(), Each(series, PercentName), offset, LIMIT);
            var due := Front(Due(series, IsNotBelow(offset, PercentName)), offset.Some?, LIMIT);
            page.Elements? && |page.elements| == |due| &&
            forall i :: 0 <= i < |due| ==> MetricDescribes(page.elements[i], due[i])
  {
    forall s | s in series ensures P.Decode()(PercentName(s)).Match? && P.Ascii(PercentName(s)) {
      FullMatches(s);
      PercentNameIsAscii(s);
    }
    var all := Due(series, IsNotBelow(offset, PercentName));
    var due := Front(all, offset.Some?, LIMIT);
    MetricsAreGiven(P.Decode(), PercentName, series, offset, LIMIT);
    GivenLists(series, IsNotBelow(offset, PercentName), Always(), MetricAt(P.Decode(), PercentName), offset.Some?,
      LIMIT);
    DueIsAmong(series, IsNotBelow(offset, PercentName));
    forall i | 0 <= i < |due| ensures MetricDescribes(MetricAt(P.Decode(), PercentName)(due[i]), due[i]) {
      assert due[i] == all[i];
      FullIsDescribed(due[i]);
    }
  }
}
