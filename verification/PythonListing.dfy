/**
 The Python listing of metrics. It passes over the names below the offset only, so that a page may start with the
 series that ended the last one; and the offset, which the framework has decoded, is unquoted once more. What the
 client that follows the links is given depends on what unquoting makes of the series names at the page ends.
 */
module PythonListing {
  import opened Text
  import opened Ordering
  import opened UrlCodec
  import opened LinkedPages
  import opened LinkTraversal
  import PythonSeriesName

  // What decoding a series name gives: None, an exception, or a metric
  datatype Outcome = NoMatch | Raises | Match(metric: PythonSeriesName.JsonMetric)

  type Decoder = string -> Outcome

  datatype MetricWithId = MetricWithId(metric: PythonSeriesName.JsonMetric, id: string)

  // --- quoting ---

  predicate Ascii(s: string) {
    forall i :: 0 <= i < |s| ==> s[i] < '\U{0080}'
  }

  function QuoteChar(c: char): string {
    if c >= '\U{0080}' || PercentSafe(c as int) || c == '/' then [c] else Percent(c as int)
  }

  // urllib.quote, which leaves slashes; a text with other than ASCII characters makes it raise.
  function Quote(s: string): string {
    if s == "" then ""
    else QuoteChar(s[0]) + Quote(s[1..])
  }

  // urllib.unquote of a unicode text: each escape becomes the character with that code, any other percent sign stays.
  function UnquoteText(s: string): string {
    if s == "" then ""
    else if Escape(s) then [(16 * HexValue(s[1]) + HexValue(s[2])) as char] + UnquoteText(s[3..])
    else [s[0]] + UnquoteText(s[1..])
  }

  // An escape stands at the front.
  predicate Escape(s: string) {
    |s| >= 3 && s[0] == '%' && HexValue(s[1]) >= 0 && HexValue(s[2]) >= 0
  }

  // normalize_offset
  function Normalized(offset: string): string {
    if offset == "x" then "" else offset
  }

  /** The framework decodes a quoted name to the name. */
  lemma {:induction false} QuoteDecodes(s: string)
    ensures FormDecode(Quote(s)) == Some(ToUtf8(s))
  {
    if s != "" {
      QuoteDecodes(s[1..]);
      var tail := Quote(s[1..]);
      if s[0] >= '\U{0080}' || PercentSafe(s[0] as int) || s[0] == '/' {
        assert ([s[0]] + tail)[1..] == tail;
      } else {
        PercentByteDecodes(s[0] as int, tail);
      }
    }
  }

  lemma QuoteIsRead(s: string)
    ensures DecodeText(Quote(s)) == Some(s)
  {
    QuoteDecodes(s);
    Utf8RoundTrip(s);
  }

  lemma {:induction false} UnquoteIsShorter(s: string)
    ensures |UnquoteText(s)| <= |s|
  {
    if s != "" {
      UnquoteIsShorter(if Escape(s) then s[3..] else s[1..]);
    }
  }

  // The characters with these codes
  function Latin1(bs: Bytes): string {
    seq(|bs|, i requires 0 <= i < |bs| => bs[i] as char)
  }

  /** Unquoting a percent encoded token gives one character for each byte, whatever encoding the bytes are of. */
  lemma {:induction false} UnquotesToLatin1(bs: Bytes)
    ensures UnquoteText(PercentEncode(bs)) == Latin1(bs)
  {
    if bs != [] {
      var tail := PercentEncode(bs[1..]);
      UnquotesToLatin1(bs[1..]);
      assert Latin1(bs) == [bs[0] as char] + Latin1(bs[1..]);
      UnquoteByte(bs[0], tail);
    }
  }

  lemma UnquoteByte(b: byte, tail: string)
    ensures UnquoteText(PercentByte(b) + tail) == [b as char] + UnquoteText(tail)
  {
    var s := PercentByte(b) + tail;
    if PercentSafe(b) {
      assert s[0] == b as char && s[1..] == tail;
    } else {
      HexRoundTrip(b);
      assert s[1] == HexDigit(b / 16) && s[2] == HexDigit(b % 16) && s[3..] == tail;
    }
  }

  predicate HasEscape(s: string) {
    exists i :: 0 <= i < |s| && Escape(s[i..])
  }

  lemma EscapeBehind(s: string)
    requires s != "" && !Escape(s)
    ensures HasEscape(s) <==> HasEscape(s[1..])
  {
    assert s[0..] == s;
    if i :| 0 <= i < |s| && Escape(s[i..]) {
      assert s[1..][i - 1..] == s[i..];
    }
    if i :| 0 <= i < |s[1..]| && Escape(s[1..][i..]) {
      assert s[i + 1..] == s[1..][i..];
    }
  }

  /** Unquoting leaves a text as it is just if no escape is in it. */
  lemma {:induction false} UnquoteKeepsIff(s: string)
    ensures UnquoteText(s) == s <==> !HasEscape(s)
  {
    if s != "" {
      assert s[0..] == s;
      if Escape(s) {
        UnquoteIsShorter(s[3..]);
      } else {
        UnquoteKeepsIff(s[1..]);
        EscapeBehind(s);
        assert s == [s[0]] + s[1..];
      }
    }
  }

  // --- one page ---

  function PrependAll(ms: seq<MetricWithId>, l: Page<MetricWithId>): Page<MetricWithId> {
    if l.Raised? then Raised else Elements(ms + l.elements)
  }

  // What is listed for a name that is decoded
  function Element(dec: Decoder, name: string): MetricWithId {
    match dec(name)
    case Match(metric) => MetricWithId(metric, Quote(name))
    case _ => MetricWithId(PythonSeriesName.JsonMetric([], map[]), Quote(name))
  }

  // What becomes of a name: quoting it raises as well.
  function KindOf(dec: Decoder): Kinds {
    (name: string) =>
      match dec(name)
      case NoMatch => Skipped
      case Raises => Failing
      case Match(_) => if Ascii(name) then Shown else Failing
  }

  // What one call lists
  function Listed(dec: Decoder, names: seq<string>, offset: Option<string>, room: int): Page<MetricWithId> {
    if names == [] then Elements([])
    else if offset.Some? && Less(names[0], UnquoteText(offset.value)) then Listed(dec, names[1..], offset, room)
    else
      match KindOf(dec)(names[0])
      case Skipped => Listed(dec, names[1..], offset, room)
      case Failing => Raised
      case Shown =>
        if offset.Some? && room <= 1 then Elements([Element(dec, names[0])])
        else PrependAll([Element(dec, names[0])], Listed(dec, names[1..], offset, room - 1))
  }

  // before is listed already and names are left to look at.
  ghost predicate Left(dec: Decoder, all: Page<MetricWithId>, before: seq<MetricWithId>, names: seq<string>,
                       offset: Option<string>) {
    all == PrependAll(before, Listed(dec, names, offset, LIMIT - |before|))
  }

  lemma PrependTwice(a: seq<MetricWithId>, b: seq<MetricWithId>, l: Page<MetricWithId>)
    ensures PrependAll(a, PrependAll(b, l)) == PrependAll(a + b, l)
  {
    if l.Elements? {
      assert a + (b + l.elements) == (a + b) + l.elements;
    }
  }

  lemma NameListed(dec: Decoder, names: seq<string>, rest: seq<string>, offset: Option<string>, room: int)
    requires names != [] && names[1..] == rest
    ensures var name := names[0];
            Listed(dec, names, offset, room) ==
            if (offset.Some? && Less(name, UnquoteText(offset.value))) || dec(name).NoMatch?
            then Listed(dec, rest, offset, room)
            else if dec(name).Raises? || !Ascii(name) then Raised
            else if offset.Some? && room <= 1 then Elements([Element(dec, name)])
            else PrependAll([Element(dec, name)], Listed(dec, rest, offset, room - 1))
  {
  }

  lemma MetricLeft(dec: Decoder, all: Page<MetricWithId>, before: seq<MetricWithId>, m: MetricWithId, rest: seq<string>,
                   offset: Option<string>)
    requires all == PrependAll(before, PrependAll([m], Listed(dec, rest, offset, LIMIT - |before| - 1)))
    ensures Left(dec, all, before + [m], rest, offset)
  {
    PrependTwice(before, [m], Listed(dec, rest, offset, LIMIT - |before| - 1));
    assert LIMIT - |before| - 1 == LIMIT - |before + [m]|;
  }

  lemma NameLeft(dec: Decoder, all: Page<MetricWithId>, before: seq<MetricWithId>, names: seq<string>,
                 rest: seq<string>, offset: Option<string>)
    requires names != [] && names[1..] == rest && Left(dec, all, before, names, offset)
    ensures var name := names[0];
            if (offset.Some? && Less(name, UnquoteText(offset.value))) || dec(name).NoMatch?
            then Left(dec, all, before, rest, offset)
            else if dec(name).Raises? || !Ascii(name) then all == Raised
            else if offset.Some? && |before| + 1 >= LIMIT then all == Elements(before + [Element(dec, name)])
            else Left(dec, all, before + [Element(dec, name)], rest, offset)
  {
    NameListed(dec, names, rest, offset, LIMIT - |before|);
    var name := names[0];
    if (offset.Some? && Less(name, UnquoteText(offset.value))) || !dec(name).Match? || !Ascii(name)
       || (offset.Some? && |before| + 1 >= LIMIT) {
    } else {
      MetricLeft(dec, all, before, Element(dec, name), rest, offset);
    }
  }

  method DecodeSerieNameList(dec: Decoder, seriesNames: seq<string>, offset: Option<string>)
      returns (r: Page<MetricWithId>)
    ensures r == Listed(dec, seriesNames, offset, LIMIT)
  {
    var jsonMetricList: seq<MetricWithId> := [];
    ghost var all := Listed(dec, seriesNames, offset, LIMIT);
    assert seriesNames[0..] == seriesNames;
    for i := 0 to |seriesNames|
      invariant Left(dec, all, jsonMetricList, seriesNames[i..], offset)
    {
      var serieName := seriesNames[i];
      assert seriesNames[i..][0] == serieName;
      NameLeft(dec, all, jsonMetricList, seriesNames[i..], seriesNames[i + 1..], offset);
      if offset.Some? && Less(serieName, UnquoteText(offset.value)) {
        continue;
      }
      var metric := dec(serieName);
      if metric.NoMatch? {
        continue;
      }
      if metric.Raises? || !Ascii(serieName) {
        return Raised;
      }
      jsonMetricList := jsonMetricList + [MetricWithId(metric.metric, Quote(serieName))];
      if offset.Some? && |jsonMetricList| >= LIMIT {
        return Elements(jsonMetricList);
      }
    }
    return Elements(jsonMetricList);
  }

  // --- the listing as a service ---

  function ElementOf(dec: Decoder): string -> MetricWithId {
    (name: string) => Element(dec, name)
  }

  function IdOf(): MetricWithId -> string {
    (m: MetricWithId) => m.id
  }

  // Names below a text are passed over.
  function Below(text: string): Passed {
    (name: string) => Less(name, text)
  }

  // The text stands behind ?offset= : the framework decodes it, the offset is normalised, and the repository unquotes
  // it.
  function Read(text: string): Option<Passed> {
    if DecodeText(text).None? then None else Some(Below(UnquoteText(Normalized(DecodeText(text).value))))
  }

  function Reader(): string -> Option<Passed> {
    (text: string) => Read(text)
  }

  function Endpoint(dec: Decoder, names: seq<string>): string -> Page<MetricWithId> {
    (text: string) =>
      if DecodeText(text).None? then Raised else Listed(dec, names, Some(Normalized(DecodeText(text).value)), LIMIT)
  }

  function Listing(dec: Decoder, names: seq<string>): Service<MetricWithId> {
    Service(KindOf(dec), names, ElementOf(dec), IdOf(), Reader())
  }

  lemma BelowIsDownClosed(text: string)
    ensures DownClosed(Below(text))
  {
    forall a, b | Less(a, b) && Below(text)(b) ensures Below(text)(a) {
      LessTransitive(a, b, text);
    }
  }

  lemma MapPrepend(dec: Decoder, name: string, page: Page<string>)
    ensures MapPage(ElementOf(dec), Prepend(name, page)) ==
            PrependAll([Element(dec, name)], MapPage(ElementOf(dec), page))
  {
    if page.Elements? {
      EachConcat([name], page.elements, ElementOf(dec));
      assert Each([name], ElementOf(dec)) == [Element(dec, name)];
    }
  }

  lemma {:induction false} NoneBelow(dec: Decoder, names: seq<string>, offset: string, room: int)
    requires forall i :: 0 <= i < |names| ==> !Less(names[i], UnquoteText(offset))
    ensures Listed(dec, names, Some(offset), room) == MapPage(ElementOf(dec), Scan(KindOf(dec), names, room))
  {
    if names == [] {
    } else if KindOf(dec)(names[0]).Skipped? {
      NoneBelow(dec, names[1..], offset, room);
    } else if KindOf(dec)(names[0]).Shown? {
      if room > 1 {
        NoneBelow(dec, names[1..], offset, room - 1);
        MapPrepend(dec, names[0], Scan(KindOf(dec), names[1..], room - 1));
      }
    }
  }

  // A page is the scan from the first name that is not below the unquoted offset.
  lemma {:induction false} ListedIsScan(dec: Decoder, names: seq<string>, offset: string, room: int)
    requires StrictlyAscending(names)
    ensures Listed(dec, names, Some(offset), room) ==
            MapPage(ElementOf(dec), Scan(KindOf(dec), names[Position(names, Below(UnquoteText(offset)))..], room))
  {
    var u := UnquoteText(offset);
    var p := Position(names, Below(u));
    if names != [] && Less(names[0], u) {
      ListedIsScan(dec, names[1..], offset, room);
      assert names[1..][p - 1..] == names[p..];
    } else {
      forall i | 0 <= i < |names| ensures !Less(names[i], u) {
        if i > 0 && Less(names[i], u) { LessTransitive(names[0], names[i], u); }
      }
      NoneBelow(dec, names, offset, room);
      assert names[p..] == names;
    }
  }

  lemma ListingServes(dec: Decoder, names: seq<string>)
    requires StrictlyAscending(names)
    ensures Serves(Endpoint(dec, names), Listing(dec, names)) && Listing(dec, names).Valid() &&
            Listing(dec, names).StartsWith("x")
  {
    forall text ensures Endpoint(dec, names)(text) == Listing(dec, names).Page(text) {
      if DecodeText(text).Some? { ListedIsScan(dec, names, Normalized(DecodeText(text).value), LIMIT); }
    }
    forall a, b | Element(dec, a) == Element(dec, b) ensures a == b {
      QuoteIsRead(a);
      QuoteIsRead(b);
    }
    forall text | Reader()(text).Some? ensures DownClosed(Reader()(text).value) {
      BelowIsDownClosed(UnquoteText(Normalized(DecodeText(text).value)));
    }
    FirstOffset();
    NothingPassed(names, Below(""));
  }

  lemma FirstOffset()
    ensures Read("x") == Some(Below(""))
  {
    NoEscapesStay("x");
  }

  // --- following the links ---

  // The specification: the metrics of all decodable names, in order
  function Metrics(dec: Decoder, names: seq<string>): seq<MetricWithId> {
    Each(Listable(KindOf(dec), names), ElementOf(dec))
  }

  // What a client is given that starts with offset=x and follows the links
  ghost predicate Pages(dec: Decoder, names: seq<string>, pages: seq<seq<MetricWithId>>) {
    Traversal(Endpoint(dec, names), IdOf(), "x", pages)
  }

  // The pages give every metric once and in order, apart from the o metrics that each page repeats of the one before.
  ghost predicate ListAll(dec: Decoder, names: seq<string>, o: nat, pages: seq<seq<MetricWithId>>) {
    Pages(dec, names, pages) && Overlapping(o, pages) && Joined(o, pages) == Metrics(dec, names)
  }

  // What the link behind a name is compared with
  function OffsetOf(name: string): string {
    UnquoteText(Normalized(name))
  }

  lemma Reaches(dec: Decoder, names: seq<string>, name: string)
    ensures Listing(dec, names).Reach(name) == Some(Below(OffsetOf(name)))
  {
    QuoteIsRead(name);
    assert Element(dec, name).id == Quote(name);
  }

  // The name at the page end, unquoted, lies above the decodable names in front of the last o of the page, and not
  // above the others.
  ghost predicate LinkLeadsOn(dec: Decoder, names: seq<string>, o: nat, k: nat)
    requires 0 < k <= |names|
  {
    forall i | 0 <= i < |names| && KindOf(dec)(names[i]).Shown? :: Less(names[i], OffsetOf(names[k - 1])) <==> i < k - o
  }

  ghost predicate IsLedPast(dec: Decoder, names: seq<string>, o: nat, c: nat)
    requires o <= 1 && c < |names|
  {
    exists k: nat :: PageEnd(KindOf(dec), names, o, k) && LeadsPastName(names, k, c)
  }

  predicate LeadsPastName(names: seq<string>, k: nat, c: nat)
    requires 0 < k <= |names| && c < |names|
  {
    k <= c && Less(names[c], OffsetOf(names[k - 1]))
  }

  ghost predicate LinksAreInOrder(dec: Decoder, names: seq<string>, o: nat)
    requires o <= 1
  {
    (forall k: nat | PageEnd(KindOf(dec), names, o, k) :: LinkLeadsOn(dec, names, o, k)) &&
    (forall c: nat | c < |names| && KindOf(dec)(names[c]).Failing? :: IsLedPast(dec, names, o, c))
  }

  lemma LeadsOnIff(dec: Decoder, names: seq<string>, o: nat, k: nat)
    requires 0 < k <= |names|
    ensures LinkIsRight(Listing(dec, names), o, k) <==> LinkLeadsOn(dec, names, o, k)
  {
    Reaches(dec, names, names[k - 1]);
  }

  lemma LedPastIff(dec: Decoder, names: seq<string>, o: nat, c: nat)
    requires o <= 1 && c < |names|
    ensures FailureIsPassed(Listing(dec, names), o, c) <==> IsLedPast(dec, names, o, c)
  {
    var s := Listing(dec, names);
    forall k: nat | 0 < k <= |names| ensures LinkPasses(s, k, c) <==> LeadsPastName(names, k, c) {
      Reaches(dec, names, names[k - 1]);
    }
    if k: nat :| PageEnd(KindOf(dec), names, o, k) && LinkPasses(s, k, c) {
      assert LeadsPastName(names, k, c);
    }
    if k: nat :| PageEnd(KindOf(dec), names, o, k) && LeadsPastName(names, k, c) {
      assert LinkPasses(s, k, c);
    }
  }

  lemma LinkConditions(dec: Decoder, names: seq<string>, o: nat)
    requires o <= 1
    ensures var s := Listing(dec, names);
            LinksAreRight(s, o) && FailuresArePassed(s, o) <==> LinksAreInOrder(dec, names, o)
  {
    var s := Listing(dec, names);
    assert LinksAreRight(s, o) <==>
      forall k: nat | PageEnd(KindOf(dec), names, o, k) :: LinkLeadsOn(dec, names, o, k) by {
      forall k: nat | 0 < k <= |names| ensures LinkIsRight(s, o, k) <==> LinkLeadsOn(dec, names, o, k) {
        LeadsOnIff(dec, names, o, k);
      }
    }
    assert FailuresArePassed(s, o) <==>
      forall c: nat | c < |names| && KindOf(dec)(names[c]).Failing? :: IsLedPast(dec, names, o, c) by {
      forall c: nat | c < |names| ensures FailureIsPassed(s, o, c) <==> IsLedPast(dec, names, o, c) {
        LedPastIff(dec, names, o, c);
      }
    }
  }

  /**
   Following the links gives every metric in order, each once (o is 0) or once apart from the last of each page, which
   the next page repeats (o is 1), just if at every page end the unquoted name separates the decodable names in front of
   those due from the rest, and every name that makes the request fail is led past.
   */
  lemma LinksListAllIff(dec: Decoder, names: seq<string>, o: nat)
    requires o <= 1 && StrictlyAscending(names)
    ensures (exists pages :: ListAll(dec, names, o, pages)) <==> LinksAreInOrder(dec, names, o)
  {
    ListingServes(dec, names);
    GivesElementsIff(Endpoint(dec, names), Listing(dec, names), o, "x");
    LinkConditions(dec, names, o);
    forall pages
      ensures ListAll(dec, names, o, pages) <==>
              GiveElements(Endpoint(dec, names), Listing(dec, names), o, "x", pages) {
    }
  }

  // Where the page starts to which the link behind a name leads
  function NextStart(dec: Decoder, names: seq<string>): Jump {
    Listing(dec, names).Link()
  }

  lemma NextStartIs(dec: Decoder, names: seq<string>, name: string)
    ensures NextStart(dec, names)(name) == Some(Position(names, Below(OffsetOf(name))))
  {
    Reaches(dec, names, name);
  }

  /**
   Every link leads to the first name that is not below its unquoted name. Following the links comes to an end just
   if it does within as many links as there are names; it goes on for ever just if, within one link more, a page
   starts where an earlier one did.
   */
  lemma LinksEndIff(dec: Decoder, names: seq<string>)
    requires StrictlyAscending(names)
    ensures forall name :: NextStart(dec, names)(name) == Some(Position(names, Below(OffsetOf(name))))
    ensures (exists pages :: Pages(dec, names, pages)) <==> EndIsReached(KindOf(dec), names, NextStart(dec, names))
    ensures var link := LinkedPages.Link(KindOf(dec), names, NextStart(dec, names));
            Endless(link, 0) <==> exists m: nat, n: nat :: n <= |names| + 1 && ComesBack(link, 0, m, n)
  {
    forall name ensures NextStart(dec, names)(name) == Some(Position(names, Below(OffsetOf(name)))) {
      NextStartIs(dec, names, name);
    }
    ListingServes(dec, names);
    TraversalEndsIff(Endpoint(dec, names), Listing(dec, names), "x");
    EndlessIff(KindOf(dec), names, NextStart(dec, names));
    assert Terminates(Endpoint(dec, names), IdOf(), "x") <==> exists pages :: Pages(dec, names, pages) by {
      forall pages ensures Pages(dec, names, pages) <==> Traversal(Endpoint(dec, names), IdOf(), "x", pages) {
      }
    }
  }

  // Where a page starts, against a position of the list
  predicate StartsUpTo(start: Option<nat>, i: nat) {
    start.Some? && start.value <= i
  }

  /** The page behind a name starts at the name or in front of it just if unquoting does not make the name greater. */
  lemma BoundaryFate(dec: Decoder, names: seq<string>, i: nat)
    requires StrictlyAscending(names) && i < |names|
    ensures StartsUpTo(NextStart(dec, names)(names[i]), i) <==> !Less(names[i], OffsetOf(names[i]))
  {
    NextStartIs(dec, names, names[i]);
    PositionBelow(names, OffsetOf(names[i]), i);
  }

  lemma PositionBelow(names: seq<string>, offset: string, i: nat)
    requires StrictlyAscending(names) && i < |names|
    ensures i < Position(names, Below(offset)) <==> Less(names[i], offset)
  {
    BelowIsDownClosed(offset);
    PositionSplits(names, Below(offset));
    assert Below(offset)(names[i]) <==> Less(names[i], offset);
  }

  // No decodable name is changed by normalising and unquoting.
  ghost predicate NothingToUnquote(dec: Decoder, names: seq<string>) {
    forall name | name in names && KindOf(dec)(name).Shown? :: OffsetOf(name) == name
  }

  /**
   Without escapes in decodable names, a traversal that ends repeats just the last metric of each page, and it ends
   unless a name raises.
   */
  lemma PlainNamesRepeat(dec: Decoder, names: seq<string>, pages: seq<seq<MetricWithId>>)
    requires StrictlyAscending(names) && NothingToUnquote(dec, names)
    ensures Pages(dec, names, pages) ==> ListAll(dec, names, 1, pages)
    ensures Terminates(Endpoint(dec, names), IdOf(), "x") <==>
            forall name | name in names :: !KindOf(dec)(name).Failing?
  {
    ListingServes(dec, names);
    PlainLinksAreExact(dec, names);
    ExactEndsIff(Endpoint(dec, names), Listing(dec, names), 1, "x");
    if Pages(dec, names, pages) {
      ExactTraversal(Endpoint(dec, names), Listing(dec, names), 1, "x", pages);
    }
  }

  lemma PlainLinkIsExact(dec: Decoder, names: seq<string>, i: nat)
    requires StrictlyAscending(names) && i < |names| && OffsetOf(names[i]) == names[i]
    ensures LinkIsExact(Listing(dec, names), 1, i)
  {
    Reaches(dec, names, names[i]);
    forall j | 0 <= j < |names| ensures Below(names[i])(names[j]) <==> j < i {
      LessTotal(names[i], names[j]);
    }
  }

  lemma PlainLinksAreExact(dec: Decoder, names: seq<string>)
    requires StrictlyAscending(names) && NothingToUnquote(dec, names)
    ensures LinksAreExact(Listing(dec, names), 1)
  {
    forall i: nat | i < |names| && KindOf(dec)(names[i]).Shown? ensures LinkIsExact(Listing(dec, names), 1, i) {
      assert names[i] in names;
      PlainLinkIsExact(dec, names, i);
    }
  }

  // --- links that loop, and links that skip ---

  // The decoder of series names, for names whose tokens are UTF-8
  function Decode(): Decoder {
    (name: string) =>
      var metric := PythonSeriesName.Decode(name);
      if metric.None? then NoMatch else Match(metric.value)
  }

  // Series whose metric names are an a, one further byte and a number
  function NumberedSeries(b: byte, n: nat): seq<string>
    requires n <= 100
  {
    Numbered("t?r&a" + Percent(b), n)
  }

  lemma {:induction false} UnquoteBehind(a: string, b: string)
    requires '%' !in a
    ensures UnquoteText(a + b) == a + UnquoteText(b)
  {
    if a == "" {
      assert a + b == b && "" + UnquoteText(b) == UnquoteText(b);
    } else {
      assert (a + b)[1..] == a[1..] + b;
      UnquoteBehind(a[1..], b);
    }
  }

  lemma UnquoteOne(b: byte, back: string)
    requires '%' !in back
    ensures UnquoteText(Percent(b) + back) == [b as char] + back
  {
    var s := Percent(b) + back;
    HexRoundTrip(b);
    assert s[1] == HexDigit(b / 16) && s[2] == HexDigit(b % 16) && s[3..] == back;
    UnquoteBehind(back, "");
    assert back + "" == back;
  }

  lemma NumberedUnquotes(b: byte, n: nat, i: nat)
    requires i < n <= 100
    ensures OffsetOf(NumberedSeries(b, n)[i]) == "t?r&a" + ([b as char] + [Digit(i / 10), Digit(i % 10)])
  {
    var digits := [Digit(i / 10), Digit(i % 10)];
    UnquoteOne(b, digits);
    UnquoteBehind("t?r&a", Percent(b) + digits);
    assert "t?r&a" + (Percent(b) + digits) == NumberedSeries(b, n)[i];
  }

  // An unquoted name compares with the names as the byte does with the percent sign.
  lemma NumberedCompares(b: byte, n: nat, i: nat, j: nat)
    requires i < n <= 100 && j < n && b != '%' as int
    ensures Less(NumberedSeries(b, n)[j], OffsetOf(NumberedSeries(b, n)[i])) <==> '%' < b as char
  {
    NumberedUnquotes(b, n, i);
    var x, y := [b as char] + [Digit(i / 10), Digit(i % 10)], Percent(b) + [Digit(j / 10), Digit(j % 10)];
    LessBehind("t?r&a", y, x);
    assert NumberedSeries(b, n)[j] == "t?r&a" + y;
  }

  // A token of ASCII characters
  predicate PlainAscii(s: string) {
    Plain(s) && Ascii(s)
  }

  lemma PlainAsciiConcat(a: string, b: string)
    requires PlainAscii(a) && PlainAscii(b)
    ensures PlainAscii(a + b)
  {
  }

  lemma NumberedIsPlain(b: byte, i: nat)
    requires i < 100
    ensures PlainAscii("a" + (Percent(b) + [Digit(i / 10), Digit(i % 10)]))
  {
    PlainAsciiConcat(Percent(b), [Digit(i / 10), Digit(i % 10)]);
    PlainAsciiConcat("a", Percent(b) + [Digit(i / 10), Digit(i % 10)]);
  }

  lemma NumberedIs(b: byte, n: nat, i: nat)
    requires i < n <= 100
    ensures "t?r&" + ("a" + (Percent(b) + [Digit(i / 10), Digit(i % 10)])) == NumberedSeries(b, n)[i]
  {
  }

  lemma NumberedMatch(b: byte, n: nat, i: nat)
    requires i < n <= 100
    ensures PythonSeriesName.Decode(NumberedSeries(b, n)[i]).Some? && Ascii(NumberedSeries(b, n)[i])
  {
    NumberedIsPlain(b, i);
    NumberedIs(b, n, i);
    TokenMatches("a" + (Percent(b) + [Digit(i / 10), Digit(i % 10)]));
  }

  lemma TokenMatches(name: string)
    requires PlainAscii(name) && name != ""
    ensures PythonSeriesName.Decode("t?r&" + name).Some? && Ascii("t?r&" + name)
  {
    NameMatches("t", "r", name);
    FlatFront(name);
    AsciiConcat("t?r&", name);
  }

  lemma AsciiConcat(a: string, b: string)
    requires Ascii(a) && Ascii(b)
    ensures Ascii(a + b)
  {
  }

  lemma NameMatches(t: string, r: string, name: string)
    requires t != "" && r != "" && name != "" && Plain(t) && Plain(r) && Plain(name)
    ensures PythonSeriesName.Decode(t + (['?'] + (r + (['&'] + name)))).Some?
  {
    PythonSeriesName.FrontOf(t, r, name, "");
    assert name + "" == name;
  }

  lemma FlatFront(name: string)
    ensures "t" + (['?'] + ("r" + (['&'] + name))) == "t?r&" + name
  {
  }

  lemma NumberedAreShown(b: byte, n: nat)
    requires n <= 100
    ensures forall i :: 0 <= i < n ==> KindOf(Decode())(NumberedSeries(b, n)[i]).Shown?
  {
    forall i | 0 <= i < n ensures KindOf(Decode())(NumberedSeries(b, n)[i]).Shown? {
      NumberedMatch(b, n, i);
      ShownIf(NumberedSeries(b, n)[i]);
    }
  }

  lemma ShownIf(name: string)
    requires PythonSeriesName.Decode(name).Some? && Ascii(name)
    ensures KindOf(Decode())(name).Shown?
  {
    var metric := PythonSeriesName.Decode(name).value;
    assert Decode()(name) == Match(metric);
    MatchIsShown(Decode(), name);
  }

  lemma MatchIsShown(dec: Decoder, name: string)
    requires dec(name).Match? && Ascii(name)
    ensures KindOf(dec)(name).Shown?
  {
  }

  lemma NumberedService(b: byte, n: nat)
    requires n <= 100
    ensures var names := NumberedSeries(b, n);
            var s := Listing(Decode(), names);
            StrictlyAscending(names) && Serves(Endpoint(Decode(), names), s) && s.StartsWith("x")
  {
    NumberedAscend("t?r&a" + Percent(b), n);
    ListingServes(Decode(), NumberedSeries(b, n));
  }

  /** Fifty series whose metric names hold a space: the first page is given again and again. */
  lemma LinksLoop()
    ensures var names := NumberedSeries(32, LIMIT);
            StrictlyAscending(names) && (forall i :: 0 <= i < LIMIT ==> KindOf(Decode())(names[i]).Shown?) &&
            Endless(LinkedPages.Link(KindOf(Decode()), names, NextStart(Decode(), names)), 0) &&
            !Terminates(Endpoint(Decode(), names), IdOf(), "x")
  {
    var names := NumberedSeries(32, LIMIT);
    NumberedService(32, LIMIT);
    NumberedAreShown(32, LIMIT);
    NumberedCompares(32, LIMIT, LIMIT - 1, 0);
    Reaches(Decode(), names, names[LIMIT - 1]);
    BackToStart(Endpoint(Decode(), names), Listing(Decode(), names), "x");
  }

  /** Fifty-one series whose metric names hold a slash: no page repeats one, and the last one is on no page. */
  lemma LinksSkip(pages: seq<seq<MetricWithId>>)
    ensures var names := NumberedSeries(47, LIMIT + 1);
            StrictlyAscending(names) && |Metrics(Decode(), names)| == LIMIT + 1 &&
            (Pages(Decode(), names, pages) <==> pages == [Metrics(Decode(), names)[..LIMIT], []])
  {
    var names := NumberedSeries(47, LIMIT + 1);
    NumberedService(47, LIMIT + 1);
    NumberedAreShown(47, LIMIT + 1);
    forall j | 0 <= j < |names| ensures Below(OffsetOf(names[LIMIT - 1]))(names[j]) {
      NumberedCompares(47, LIMIT + 1, LIMIT - 1, j);
    }
    Reaches(Decode(), names, names[LIMIT - 1]);
    PastTheRest(Endpoint(Decode(), names), Listing(Decode(), names), "x", pages);
    ListableOfShown(KindOf(Decode()), names);
    EachSlices(names, ElementOf(Decode()), LIMIT);
  }
}
