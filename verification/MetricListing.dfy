/**
 Listing metric definitions page by page: the scan over the series names, and the traversal a client makes by
 following the next links. A link carries the id of the last definition of its page as a query parameter; the
 framework decodes it, and the repository decodes what it is handed once more.
 */
module MetricListing {
  import opened Text
  import opened Ordering
  import opened UrlCodec
  import opened SeriesName
  import opened LinkedPages
  import opened LinkTraversal

  // What constructing a SerieNameDecoder gives; SeriesName.Decode
  type Decoder = string -> Decoded

  datatype MetricDefinition = MetricDefinition(name: Bytes, dimensions: map<Bytes, Bytes>, id: string)

  // --- ids: the URL encoding of a series name ---

  function Id(name: string): string {
    FormEncode(ToUtf8(name))
  }

  /** Decoding an id gives the series name. */
  lemma OffsetOfId(name: string)
    ensures DecodeText(Id(name)) == Some(name)
  {
    FormRoundTrip(ToUtf8(name));
    Utf8RoundTrip(name);
  }

  /** No definition is listed twice: the ids of distinct series differ. */
  lemma IdsDiffer(a: string, b: string)
    ensures Id(a) == Id(b) <==> a == b
  {
    OffsetOfId(a);
    OffsetOfId(b);
  }

  // --- one page ---

  // What is listed for a name that is decoded
  function Definition(dec: Decoder, name: string): MetricDefinition {
    match dec(name)
    case Metric(_, _, metricName, dimensions) => MetricDefinition(metricName, dimensions, Id(name))
    case _ => MetricDefinition([], map[], Id(name))
  }

  function PrependAll(defs: seq<MetricDefinition>, l: Page<MetricDefinition>): Page<MetricDefinition> {
    if l.Raised? then Raised else Elements(defs + l.elements)
  }

  // What one call lists. Names up to the offset are passed over; with an offset the page is full at LIMIT.
  function Listed(dec: Decoder, names: seq<string>, after: Option<string>, room: int): Page<MetricDefinition> {
    if names == [] then Elements([])
    else if after.Some? && !Less(after.value, names[0]) then Listed(dec, names[1..], after, room)
    else
      match dec(names[0])
      case NotMetric => Listed(dec, names[1..], after, room)
      case Crash => Raised
      case Metric(_, _, _, _) =>
        if after.Some? && room <= 1 then Elements([Definition(dec, names[0])])
        else PrependAll([Definition(dec, names[0])], Listed(dec, names[1..], after, room - 1))
  }

  // The answer to a call with an offset: it is decoded, and an exception when that fails is not caught.
  function Answer(dec: Decoder, names: seq<string>, offset: string): Page<MetricDefinition> {
    if DecodeText(offset).None? then Raised else Listed(dec, names, DecodeText(offset), LIMIT)
  }

  // The names of all rows of all series of the query result
  function Rows(result: seq<seq<string>>): seq<string> {
    if result == [] then [] else result[0] + Rows(result[1..])
  }

  lemma PrependTwice(a: seq<MetricDefinition>, b: seq<MetricDefinition>, l: Page<MetricDefinition>)
    ensures PrependAll(a, PrependAll(b, l)) == PrependAll(a + b, l)
  {
    if l.Elements? {
      assert a + (b + l.elements) == (a + b) + l.elements;
    }
  }

  lemma RowsFrom(result: seq<seq<string>>, i: nat)
    requires i < |result|
    ensures Rows(result[i..]) == result[i][0..] + Rows(result[i + 1..])
  {
    assert result[i..][1..] == result[i + 1..];
    assert result[i][0..] == result[i];
  }

  // before is listed already and names are left to look at.
  ghost predicate Left(dec: Decoder, all: Page<MetricDefinition>, before: seq<MetricDefinition>, names: seq<string>,
                       after: Option<string>) {
    all == PrependAll(before, Listed(dec, names, after, LIMIT - |before|))
  }

  lemma NothingListed(dec: Decoder, names: seq<string>, after: Option<string>)
    ensures Left(dec, Listed(dec, names, after, LIMIT), [], names, after)
  {
  }

  lemma NothingLeft(dec: Decoder, all: Page<MetricDefinition>, before: seq<MetricDefinition>, after: Option<string>)
    requires Left(dec, all, before, [], after)
    ensures all == Elements(before)
  {
  }

  lemma RowListed(dec: Decoder, names: seq<string>, rest: seq<string>, after: Option<string>, room: int)
    requires names != [] && names[1..] == rest
    ensures var name := names[0];
            Listed(dec, names, after, room) ==
            if (after.Some? && !Less(after.value, name)) || dec(name).NotMetric? then Listed(dec, rest, after, room)
            else if dec(name).Crash? then Raised
            else if after.Some? && room <= 1 then Elements([Definition(dec, name)])
            else PrependAll([Definition(dec, name)], Listed(dec, rest, after, room - 1))
  {
  }

  lemma DefinitionLeft(dec: Decoder, all: Page<MetricDefinition>, before: seq<MetricDefinition>, d: MetricDefinition,
                       rest: seq<string>, after: Option<string>)
    requires all == PrependAll(before, PrependAll([d], Listed(dec, rest, after, LIMIT - |before| - 1)))
    ensures Left(dec, all, before + [d], rest, after)
  {
    PrependTwice(before, [d], Listed(dec, rest, after, LIMIT - |before| - 1));
    assert LIMIT - |before| - 1 == LIMIT - |before + [d]|;
  }

  // One row of the scan
  lemma RowLeft(dec: Decoder, all: Page<MetricDefinition>, before: seq<MetricDefinition>, names: seq<string>,
                rest: seq<string>, after: Option<string>)
    requires names != [] && names[1..] == rest && Left(dec, all, before, names, after)
    ensures var name := names[0];
            if (after.Some? && !Less(after.value, name)) || dec(name).NotMetric?
            then Left(dec, all, before, rest, after)
            else if dec(name).Crash? then all == Raised
            else if after.Some? && |before| + 1 >= LIMIT then all == Elements(before + [Definition(dec, name)])
            else Left(dec, all, before + [Definition(dec, name)], rest, after)
  {
    RowListed(dec, names, rest, after, LIMIT - |before|);
    var name := names[0];
    if (after.Some? && !Less(after.value, name)) || !dec(name).Metric? || (after.Some? && |before| + 1 >= LIMIT) {
    } else {
      DefinitionLeft(dec, all, before, Definition(dec, name), rest, after);
    }
  }

  lemma RowsSplit(row: seq<string>, j: nat, more: seq<string>)
    requires j < |row|
    ensures (row[j..] + more)[0] == row[j] && (row[j..] + more)[1..] == row[j + 1..] + more
  {
  }

  method BuildMetricDefList(dec: Decoder, result: seq<seq<string>>, offset: Option<string>)
      returns (r: Page<MetricDefinition>)
    ensures offset.None? ==> r == Listed(dec, Rows(result), None, LIMIT)
    ensures offset.Some? ==> r == Answer(dec, Rows(result), offset.value)
  {
    var decodedOffset: Option<string> := None;
    if offset.Some? {
      decodedOffset := DecodeText(offset.value);
      if decodedOffset.None? {
        return Raised;
      }
    }
    var metricDefinitionList: seq<MetricDefinition> := [];
    ghost var all := Listed(dec, Rows(result), decodedOffset, LIMIT);
    NothingListed(dec, Rows(result), decodedOffset);
    assert result[0..] == result;
    for i := 0 to |result|
      invariant Left(dec, all, metricDefinitionList, Rows(result[i..]), decodedOffset)
    {
      RowsFrom(result, i);
      for j := 0 to |result[i]|
        invariant Left(dec, all, metricDefinitionList, result[i][j..] + Rows(result[i + 1..]), decodedOffset)
      {
        var encodedMetricName := result[i][j];
        RowsSplit(result[i], j, Rows(result[i + 1..]));
        RowLeft(dec, all, metricDefinitionList, result[i][j..] + Rows(result[i + 1..]),
          result[i][j + 1..] + Rows(result[i + 1..]), decodedOffset);

        if offset.Some? && !Less(decodedOffset.value, encodedMetricName) {
          continue;
        }
        var decoded := dec(encodedMetricName);
        if decoded.NotMetric? {
          continue;
        }
        if decoded.Crash? {
          return Raised;
        }
        metricDefinitionList :=
          metricDefinitionList + [MetricDefinition(decoded.name, decoded.dimensions, Id(encodedMetricName))];
        if offset.Some? && |metricDefinitionList| >= LIMIT {
          return Elements(metricDefinitionList);
        }
      }
      assert result[i][|result[i]|..] + Rows(result[i + 1..]) == Rows(result[i + 1..]);
    }
    NothingLeft(dec, all, metricDefinitionList, decodedOffset);
    return Elements(metricDefinitionList);
  }

  // --- the listing as a service ---

  function KindOf(dec: Decoder): Kinds {
    (name: string) => match dec(name) case NotMetric => Skipped case Crash => Failing case Metric(_, _, _, _) => Shown
  }

  function DefinitionOf(dec: Decoder): string -> MetricDefinition {
    (name: string) => Definition(dec, name)
  }

  function IdOf(): MetricDefinition -> string {
    (d: MetricDefinition) => d.id
  }

  // Names that are not above the offset are passed over.
  function UpTo(offset: string): Passed {
    (name: string) => !Less(offset, name)
  }

  function Reader(decode: string -> Option<string>): string -> Option<Passed> {
    (text: string) => if decode(text).None? then None else Some(UpTo(decode(text).value))
  }

  function Listing(dec: Decoder, names: seq<string>, decode: string -> Option<string>): Service<MetricDefinition> {
    Service(KindOf(dec), names, DefinitionOf(dec), IdOf(), Reader(decode))
  }

  // The text is handed to the repository as it is.
  function Endpoint(dec: Decoder, names: seq<string>): string -> Page<MetricDefinition> {
    (text: string) => Answer(dec, names, text)
  }

  // The text stands behind ?offset= in a link: the framework decodes it.
  function LinkEndpoint(dec: Decoder, names: seq<string>): string -> Page<MetricDefinition> {
    (text: string) => if DecodeText(text).None? then Raised else Answer(dec, names, DecodeText(text).value)
  }

  function DecodeTwice(text: string): Option<string> {
    if DecodeText(text).None? then None else DecodeText(DecodeText(text).value)
  }

  lemma UpToIsDownClosed(offset: string)
    ensures DownClosed(UpTo(offset))
  {
    forall a, b | Less(a, b) && UpTo(offset)(b) ensures UpTo(offset)(a) {
      if Less(offset, a) { LessTransitive(offset, a, b); }
    }
  }

  lemma MapPrepend(dec: Decoder, name: string, page: Page<string>)
    ensures MapPage(DefinitionOf(dec), Prepend(name, page)) ==
            PrependAll([Definition(dec, name)], MapPage(DefinitionOf(dec), page))
  {
    if page.Elements? {
      EachConcat([name], page.elements, DefinitionOf(dec));
      assert Each([name], DefinitionOf(dec)) == [Definition(dec, name)];
    }
  }

  lemma {:induction false} AllAbove(dec: Decoder, names: seq<string>, offset: string, room: int)
    requires forall i :: 0 <= i < |names| ==> Less(offset, names[i])
    ensures Listed(dec, names, Some(offset), room) == MapPage(DefinitionOf(dec), Scan(KindOf(dec), names, room))
  {
    if names == [] {
    } else if dec(names[0]).NotMetric? {
      AllAbove(dec, names[1..], offset, room);
    } else if dec(names[0]).Metric? {
      if room > 1 {
        AllAbove(dec, names[1..], offset, room - 1);
        MapPrepend(dec, names[0], Scan(KindOf(dec), names[1..], room - 1));
      }
    }
  }

  // A page is the scan from the first name above the offset.
  lemma {:induction false} ListedIsScan(dec: Decoder, names: seq<string>, offset: string, room: int)
    requires StrictlyAscending(names)
    ensures Listed(dec, names, Some(offset), room) ==
            MapPage(DefinitionOf(dec), Scan(KindOf(dec), names[Position(names, UpTo(offset))..], room))
  {
    var p := Position(names, UpTo(offset));
    if names != [] && UpTo(offset)(names[0]) {
      ListedIsScan(dec, names[1..], offset, room);
      assert names[1..][p - 1..] == names[p..];
    } else {
      forall i | 0 <= i < |names| ensures Less(offset, names[i]) {
        if i > 0 { LessTransitive(offset, names[0], names[i]); }
      }
      AllAbove(dec, names, offset, room);
      assert names[p..] == names;
    }
  }

  lemma ListingIsValid(dec: Decoder, names: seq<string>, decode: string -> Option<string>)
    requires StrictlyAscending(names)
    ensures Listing(dec, names, decode).Valid()
  {
    forall a, b | Definition(dec, a) == Definition(dec, b) ensures a == b {
      IdsDiffer(a, b);
    }
    forall text | Reader(decode)(text).Some? ensures DownClosed(Reader(decode)(text).value) {
      UpToIsDownClosed(decode(text).value);
    }
  }

  // The empty text passes over at most the empty name, which is no metric.
  lemma EmptyStarts(dec: Decoder, names: seq<string>, decode: string -> Option<string>)
    requires dec("") == NotMetric && StrictlyAscending(names) && decode("") == Some("")
    ensures Listing(dec, names, decode).StartsWith("")
  {
    if names != [] && names[0] == "" {
      assert |names| > 1 ==> Less(names[0], names[1]);
      assert names[0..][1..] == names[1..];
      assert Position(names, UpTo("")) == 1;
    } else {
      assert Position(names, UpTo("")) == 0;
    }
  }

  lemma EndpointServes(dec: Decoder, names: seq<string>)
    requires StrictlyAscending(names)
    ensures Serves(Endpoint(dec, names), Listing(dec, names, DecodeText))
  {
    forall text ensures Endpoint(dec, names)(text) == Listing(dec, names, DecodeText).Page(text) {
      if DecodeText(text).Some? { ListedIsScan(dec, names, DecodeText(text).value, LIMIT); }
    }
  }

  lemma LinkEndpointServes(dec: Decoder, names: seq<string>)
    requires StrictlyAscending(names)
    ensures Serves(LinkEndpoint(dec, names), Listing(dec, names, DecodeTwice))
  {
    forall text ensures LinkEndpoint(dec, names)(text) == Listing(dec, names, DecodeTwice).Page(text) {
      if DecodeTwice(text).Some? { ListedIsScan(dec, names, DecodeTwice(text).value, LIMIT); }
    }
  }

  // --- traversals ---

  // The specification: the definitions of all decodable names, in order
  function Definitions(dec: Decoder, names: seq<string>): seq<MetricDefinition> {
    Each(Listable(KindOf(dec), names), DefinitionOf(dec))
  }

  ghost predicate NoCrash(dec: Decoder, names: seq<string>) {
    forall name | name in names :: !dec(name).Crash?
  }

  function Concat(pages: seq<seq<MetricDefinition>>): seq<MetricDefinition> {
    if pages == [] then [] else pages[0] + Concat(pages[1..])
  }

  // What a client is given that starts with the empty offset and follows the links: Links.paginate adds one to a full
  // page.
  ghost predicate Pages(get: string -> Page<MetricDefinition>, pages: seq<seq<MetricDefinition>>) {
    Traversal(get, IdOf(), "", pages)
  }

  ghost predicate ListsAll(get: string -> Page<MetricDefinition>, dec: Decoder, names: seq<string>) {
    exists pages :: Pages(get, pages) && Concat(pages) == Definitions(dec, names)
  }

  lemma GivesAllIff(get: string -> Page<MetricDefinition>, dec: Decoder, names: seq<string>,
                    decode: string -> Option<string>)
    ensures ListsAll(get, dec, names) <==> GivesElements(get, Listing(dec, names, decode), 0, "")
  {
    var s := Listing(dec, names, decode);
    forall pages
      ensures GiveElements(get, s, 0, "", pages) <==> Pages(get, pages) && Concat(pages) == Definitions(dec, names) {
      NoRepeats(pages);
    }
  }

  lemma {:induction false} NoRepeats(pages: seq<seq<MetricDefinition>>)
    ensures Overlapping(0, pages) && Joined(0, pages) == Concat(pages)
  {
    if |pages| == 1 {
      assert Concat(pages) == pages[0] + Concat([]);
    } else if pages != [] {
      NoRepeats(pages[1..]);
      assert pages[1][..0] == pages[0][|pages[0]|..];
      assert Concat(pages[1..])[0..] == Concat(pages[1..]);
    }
  }

  // --- offsets handed over as they are ---

  lemma IdReads(dec: Decoder, names: seq<string>, i: nat)
    requires StrictlyAscending(names) && i < |names|
    ensures LinkIsExact(Listing(dec, names, DecodeText), 0, i)
  {
    OffsetOfId(names[i]);
    assert Listing(dec, names, DecodeText).Reach(names[i]) == Some(UpTo(names[i]));
    forall j | 0 <= j < |names| ensures UpTo(names[i])(names[j]) <==> j < i + 1 {
      LessTotal(names[i], names[j]);
    }
  }

  lemma UndecodedIsExact(dec: Decoder, names: seq<string>)
    requires dec("") == NotMetric && StrictlyAscending(names)
    ensures var s := Listing(dec, names, DecodeText);
            Serves(Endpoint(dec, names), s) && s.Valid() && s.StartsWith("") && LinksAreExact(s, 0)
  {
    EndpointServes(dec, names);
    ListingIsValid(dec, names, DecodeText);
    assert DecodeText("") == Some("");
    EmptyStarts(dec, names, DecodeText);
    forall i: nat | i < |names| ensures LinkIsExact(Listing(dec, names, DecodeText), 0, i) {
      IdReads(dec, names, i);
    }
  }

  /**
   When the repository is handed the ids themselves, every decodable series of an ascending list is given once and in
   order, however many names that are no metrics lie between them.
   */
  lemma TraversalListsAll(dec: Decoder, names: seq<string>, pages: seq<seq<MetricDefinition>>)
    requires dec("") == NotMetric && StrictlyAscending(names) && Pages(Endpoint(dec, names), pages)
    ensures Concat(pages) == Definitions(dec, names)
  {
    UndecodedIsExact(dec, names);
    ExactTraversal(Endpoint(dec, names), Listing(dec, names, DecodeText), 0, "", pages);
    NoRepeats(pages);
  }

  /** Such a traversal comes to its end just if no name makes the decoder raise. */
  lemma TraversalEnds(dec: Decoder, names: seq<string>)
    requires dec("") == NotMetric && StrictlyAscending(names)
    ensures Terminates(Endpoint(dec, names), IdOf(), "") <==> NoCrash(dec, names)
  {
    UndecodedIsExact(dec, names);
    ExactEndsIff(Endpoint(dec, names), Listing(dec, names, DecodeText), 0, "");
  }

  // --- the next links ---

  // A full page ends behind the first k names.
  predicate EndsAt(dec: Decoder, names: seq<string>, k: nat) {
    PageEnd(KindOf(dec), names, 0, k)
  }

  // The name of the last definition, decoded once more, lies above the decodable names of its page and below the
  // others.
  ghost predicate LinkLeadsOn(dec: Decoder, names: seq<string>, k: nat)
    requires 0 < k <= |names|
  {
    var offset := DecodeText(names[k - 1]);
    offset.Some? && forall i | 0 <= i < |names| && dec(names[i]).Metric? :: Less(offset.value, names[i]) <==> k <= i
  }

  // The link of an earlier page end leads past the name.
  ghost predicate IsLedPast(dec: Decoder, names: seq<string>, c: nat)
    requires c < |names|
  {
    exists k: nat :: EndsAt(dec, names, k) && LeadsPastName(names, k, c)
  }

  predicate LeadsPastName(names: seq<string>, k: nat, c: nat)
    requires 0 < k <= |names| && c < |names|
  {
    k <= c && DecodeText(names[k - 1]).Some? && !Less(DecodeText(names[k - 1]).value, names[c])
  }

  ghost predicate LinksAreInOrder(dec: Decoder, names: seq<string>) {
    (forall k: nat | EndsAt(dec, names, k) :: LinkLeadsOn(dec, names, k)) &&
    (forall c: nat | c < |names| && dec(names[c]).Crash? :: IsLedPast(dec, names, c))
  }

  lemma LinkedReach(dec: Decoder, names: seq<string>, name: string)
    ensures var reach := Listing(dec, names, DecodeTwice).Reach(name);
            if DecodeText(name).None? then reach.None? else reach == Some(UpTo(DecodeText(name).value))
  {
    OffsetOfId(name);
    assert Definition(dec, name).id == Id(name);
    assert DecodeTwice(Id(name)) == DecodeText(name);
  }

  lemma LeadsOnIff(dec: Decoder, names: seq<string>, k: nat)
    requires 0 < k <= |names|
    ensures LinkIsRight(Listing(dec, names, DecodeTwice), 0, k) <==> LinkLeadsOn(dec, names, k)
  {
    LinkedReach(dec, names, names[k - 1]);
    if DecodeText(names[k - 1]).Some? {
      SplitsAbove(dec, names, DecodeText(names[k - 1]).value, k);
    }
  }

  lemma SplitsAbove(dec: Decoder, names: seq<string>, offset: string, k: nat)
    ensures SplitsAt(KindOf(dec), names, UpTo(offset), k) <==>
            forall i | 0 <= i < |names| && dec(names[i]).Metric? :: Less(offset, names[i]) <==> k <= i
  {
  }

  lemma LinkConditions(dec: Decoder, names: seq<string>)
    ensures var s := Listing(dec, names, DecodeTwice);
            LinksAreRight(s, 0) && FailuresArePassed(s, 0) <==> LinksAreInOrder(dec, names)
  {
    var s := Listing(dec, names, DecodeTwice);
    assert LinksAreRight(s, 0) <==> forall k: nat | EndsAt(dec, names, k) :: LinkLeadsOn(dec, names, k) by {
      forall k: nat | 0 < k <= |names| ensures LinkIsRight(s, 0, k) <==> LinkLeadsOn(dec, names, k) {
        LeadsOnIff(dec, names, k);
      }
    }
    assert FailuresArePassed(s, 0) <==>
      forall c: nat | c < |names| && dec(names[c]).Crash? :: IsLedPast(dec, names, c) by {
      forall c: nat | c < |names| ensures FailureIsPassed(s, 0, c) <==> IsLedPast(dec, names, c) {
        LedPastIff(dec, names, c);
      }
    }
  }

  lemma LedPastIff(dec: Decoder, names: seq<string>, c: nat)
    requires c < |names|
    ensures FailureIsPassed(Listing(dec, names, DecodeTwice), 0, c) <==> IsLedPast(dec, names, c)
  {
    var s := Listing(dec, names, DecodeTwice);
    forall k: nat | 0 < k <= |names| ensures LinkPasses(s, k, c) <==> LeadsPastName(names, k, c) {
      LinkedReach(dec, names, names[k - 1]);
    }
    if k: nat :| PageEnd(KindOf(dec), names, 0, k) && LinkPasses(s, k, c) {
      assert EndsAt(dec, names, k) && LeadsPastName(names, k, c);
    }
    if k: nat :| EndsAt(dec, names, k) && LeadsPastName(names, k, c) {
      assert PageEnd(KindOf(dec), names, 0, k) && LinkPasses(s, k, c);
    }
  }

  lemma LinkedServes(dec: Decoder, names: seq<string>)
    requires dec("") == NotMetric && StrictlyAscending(names)
    ensures var s := Listing(dec, names, DecodeTwice);
            Serves(LinkEndpoint(dec, names), s) && s.Valid() && s.StartsWith("")
  {
    LinkEndpointServes(dec, names);
    ListingIsValid(dec, names, DecodeTwice);
    assert DecodeText("") == Some("");
    EmptyStarts(dec, names, DecodeTwice);
  }

  /**
   Following the next links gives every decodable series of an ascending list once and in order just if at every page
   end the name decoded once more separates the decodable names in front from those behind, and every name that makes
   the decoder raise is led past.
   */
  lemma LinksListAllIff(dec: Decoder, names: seq<string>)
    requires dec("") == NotMetric && StrictlyAscending(names)
    ensures ListsAll(LinkEndpoint(dec, names), dec, names) <==> LinksAreInOrder(dec, names)
  {
    LinkedServes(dec, names);
    GivesAllIff(LinkEndpoint(dec, names), dec, names, DecodeTwice);
    GivesElementsIff(LinkEndpoint(dec, names), Listing(dec, names, DecodeTwice), 0, "");
    LinkConditions(dec, names);
  }

  // Where the page starts to which the link behind a name leads
  function NextStart(dec: Decoder, names: seq<string>): Jump {
    Listing(dec, names, DecodeTwice).Link()
  }

  lemma NextStartIs(dec: Decoder, names: seq<string>, name: string)
    ensures LeadsBehindOffset(NextStart(dec, names), names, name)
  {
    LinkedReach(dec, names, name);
  }

  // A link leads to the first name above the name it carries, decoded once more; when that cannot be decoded it fails.
  predicate LeadsBehindOffset(next: Jump, names: seq<string>, name: string) {
    var offset := DecodeText(name);
    next(name) == if offset.None? then None else Some(Position(names, UpTo(offset.value)))
  }

  /**
   Every link leads behind its offset. Following the links comes to an end just if it does within as many links as there
   are names; it goes on for ever just if, within one link more, a page starts where an earlier one did.
   */
  lemma LinksEndIff(dec: Decoder, names: seq<string>)
    requires dec("") == NotMetric && StrictlyAscending(names)
    ensures forall name :: LeadsBehindOffset(NextStart(dec, names), names, name)
    ensures Terminates(LinkEndpoint(dec, names), IdOf(), "") <==>
            EndIsReached(KindOf(dec), names, NextStart(dec, names))
    ensures var link := LinkedPages.Link(KindOf(dec), names, NextStart(dec, names));
            Endless(link, 0) <==> exists m: nat, n: nat :: n <= |names| + 1 && ComesBack(link, 0, m, n)
  {
    forall name ensures LeadsBehindOffset(NextStart(dec, names), names, name) {
      NextStartIs(dec, names, name);
    }
    LinkedServes(dec, names);
    LinkTraversal.TraversalEndsIff(LinkEndpoint(dec, names), Listing(dec, names, DecodeTwice), "");
    EndlessIff(KindOf(dec), names, NextStart(dec, names));
  }

  /**
   Where no decodable name holds a character that decoding changes, the links list everything unless a name raises.
   */
  lemma PlainNamesAreListed(dec: Decoder, names: seq<string>)
    requires dec("") == NotMetric && StrictlyAscending(names)
    requires forall name | name in names && dec(name).Metric? :: NoEscapes(name)
    ensures ListsAll(LinkEndpoint(dec, names), dec, names) <==> NoCrash(dec, names)
  {
    forall k: nat | EndsAt(dec, names, k) ensures LinkLeadsOn(dec, names, k) {
      PlainNameLeadsOn(dec, names, k);
    }
    forall c: nat | c < |names| ensures !IsLedPast(dec, names, c) {
      forall k: nat | EndsAt(dec, names, k) && k <= c ensures !LeadsPastName(names, k, c) {
        NoEscapesStay(names[k - 1]);
      }
    }
    LinksListAllIff(dec, names);
    if NoCrash(dec, names) {
      assert forall c: nat | c < |names| :: names[c] in names;
    }
  }

  lemma PlainNameLeadsOn(dec: Decoder, names: seq<string>, k: nat)
    requires StrictlyAscending(names) && EndsAt(dec, names, k) && NoEscapes(names[k - 1])
    ensures LinkLeadsOn(dec, names, k)
  {
    NoEscapesStay(names[k - 1]);
    forall i | 0 <= i < |names| ensures Less(names[k - 1], names[i]) <==> k <= i {
      LessTotal(names[k - 1], names[i]);
    }
  }

  // --- links that loop, and links that skip ---

  // Series whose metric names are an a, one further byte and a number
  function NumberedSeries(b: byte, n: nat): seq<string>
    requires n <= 100
  {
    Numbered("t?r&a" + FormByte(b), n)
  }

  lemma NumberedIsPrinted(b: byte, n: nat, i: nat)
    requires i < n <= 100
    ensures NumberedSeries(b, n)[i] == Print(FormEncode, [116], [114], [97, b, 48 + i / 10, 48 + i % 10], [])
  {
    NumberedEncodes(b, 48 + i / 10, 48 + i % 10);
    assert FormEncode([116]) == "t" && FormEncode([114]) == "r" by {
      assert [116][1..] == [] && [114][1..] == [];
    }
    PrintedFlat("t", "r", "a" + (FormByte(b) + [Digit(i / 10), Digit(i % 10)]));
    assert "t?r&" + ("a" + (FormByte(b) + [Digit(i / 10), Digit(i % 10)])) == NumberedSeries(b, n)[i];
  }

  lemma NumberedEncodes(b: byte, x: byte, y: byte)
    requires 48 <= x < 58 && 48 <= y < 58
    ensures FormEncode([97, b, x, y]) == "a" + (FormByte(b) + [x as char, y as char])
  {
    assert FormEncode([y]) == [y as char] by { assert [y][1..] == []; }
    assert FormEncode([x, y]) == [x as char, y as char] by { assert [x, y][1..] == [y]; }
    assert [b, x, y][1..] == [x, y];
    assert [97, b, x, y][1..] == [b, x, y];
  }

  lemma PrintedFlat(t: string, r: string, name: string)
    requires t == "t" && r == "r"
    ensures t + (['?'] + (r + (['&'] + (name + Behind([]))))) == "t?r&" + name
  {
  }

  lemma NumberedAreMetrics(b: byte, n: nat)
    requires n <= 100
    ensures forall i :: 0 <= i < n ==> Decode(NumberedSeries(b, n)[i]).Metric?
  {
    forall i | 0 <= i < n ensures Decode(NumberedSeries(b, n)[i]).Metric? {
      NumberedIsPrinted(b, n, i);
      DecoderInverts([116], [114], [97, b, 48 + i / 10, 48 + i % 10], []);
    }
  }

  // Decoding a numbered name once more
  lemma NumberedDecodes(b: byte, n: nat, i: nat)
    requires i < n <= 100 && b < 0x80
    ensures DecodeText(NumberedSeries(b, n)[i]) == Some("t?r&a" + ([b as char] + [Digit(i / 10), Digit(i % 10)]))
  {
    var digits := [Digit(i / 10), Digit(i % 10)];
    EscapeInside("t?r&a", b, digits);
    assert "t?r&a" + (FormByte(b) + digits) == NumberedSeries(b, n)[i];
  }

  // Such a text compares with the names as the byte does with the first character of its encoding.
  lemma NumberedCompares(b: byte, n: nat, i: nat, j: nat)
    requires i < n <= 100 && j < n && b < 0x80 && FormByte(b)[0] != b as char
    ensures var offset := DecodeText(NumberedSeries(b, n)[i]);
            offset.Some? && (Less(offset.value, NumberedSeries(b, n)[j]) <==> (b as char) < FormByte(b)[0])
  {
    NumberedDecodes(b, n, i);
    var x, y := [b as char] + [Digit(i / 10), Digit(i % 10)], FormByte(b) + [Digit(j / 10), Digit(j % 10)];
    LessBehind("t?r&a", x, y);
    assert NumberedSeries(b, n)[j] == "t?r&a" + y;
  }

  lemma NumberedService(b: byte, n: nat)
    requires n <= 100
    ensures var names := NumberedSeries(b, n);
            var s := Listing(Decode, names, DecodeTwice);
            StrictlyAscending(names) && Serves(LinkEndpoint(Decode, names), s) && s.StartsWith("") &&
            forall i :: 0 <= i < n ==> s.kind(names[i]).Shown?
  {
    NumberedAscend("t?r&a" + FormByte(b), n);
    NumberedAreMetrics(b, n);
    assert Decode("") == NotMetric;
    LinkedServes(Decode, NumberedSeries(b, n));
  }

  /** Fifty series whose metric names hold a space: the first page is given again and again. */
  lemma LinksLoop()
    ensures var names := NumberedSeries(32, LIMIT);
            StrictlyAscending(names) && NoCrash(Decode, names) &&
            Endless(LinkedPages.Link(KindOf(Decode), names, NextStart(Decode, names)), 0) &&
            !Terminates(LinkEndpoint(Decode, names), IdOf(), "")
  {
    var names := NumberedSeries(32, LIMIT);
    NumberedService(32, LIMIT);
    NumberedAreMetrics(32, LIMIT);
    NumberedCompares(32, LIMIT, LIMIT - 1, 0);
    LinkedReach(Decode, names, names[LIMIT - 1]);
    BackToStart(LinkEndpoint(Decode, names), Listing(Decode, names, DecodeTwice), "");
  }

  /** Fifty-one series whose metric names hold a slash: the last one is on no page. */
  lemma LinksSkip(pages: seq<seq<MetricDefinition>>)
    ensures var names := NumberedSeries(47, LIMIT + 1);
            StrictlyAscending(names) && |Definitions(Decode, names)| == LIMIT + 1 &&
            (Pages(LinkEndpoint(Decode, names), pages) <==> pages == [Definitions(Decode, names)[..LIMIT], []])
  {
    var names := NumberedSeries(47, LIMIT + 1);
    NumberedService(47, LIMIT + 1);
    forall j | 0 <= j < |names|
      ensures DecodeText(names[LIMIT - 1]).Some? && UpTo(DecodeText(names[LIMIT - 1]).value)(names[j]) {
      NumberedCompares(47, LIMIT + 1, LIMIT - 1, j);
    }
    LinkedReach(Decode, names, names[LIMIT - 1]);
    PastTheRest(LinkEndpoint(Decode, names), Listing(Decode, names, DecodeTwice), "", pages);
    ListableOfShown(KindOf(Decode), names);
    EachSlices(names, DefinitionOf(Decode), LIMIT);
  }

  // --- names as they are stored ---

  datatype Series = Series(tenant: Bytes, region: Bytes, name: Bytes, dimensions: Dimensions)

  function StoredName(s: Series): string {
    Print(FormEncode, s.tenant, s.region, s.name, s.dimensions)
  }

  predicate PassesCheck(s: Series) {
    s.tenant != [] && (s.dimensions != [] || (s.region != [] && s.name != []))
  }

  lemma StoredCrashes(s: Series)
    ensures Decode(StoredName(s)).Crash? <==> PassesCheck(s) && !AllValued(s.dimensions)
  {
    FormIsTokenEncoding();
    PrintedIsMetricName(FormEncode, s.tenant, s.region, s.name, s.dimensions);
    PrintedDecodes(s.tenant, s.region, s.name, s.dimensions);
  }

  /**
   A traversal of stored series ends just if each that passes the check of the decoder has only dimensions with values.
   */
  lemma StoredTraversalEnds(series: seq<Series>)
    requires StrictlyAscending(Each(series, StoredName))
    ensures Terminates(Endpoint(Decode, Each(series, StoredName)), IdOf(), "") <==>
            forall s | s in series && PassesCheck(s) :: AllValued(s.dimensions)
  {
    var names := Each(series, StoredName);
    assert Decode("") == NotMetric;
    TraversalEnds(Decode, names);
    forall s ensures Decode(StoredName(s)).Crash? <==> PassesCheck(s) && !AllValued(s.dimensions) {
      StoredCrashes(s);
    }
    if NoCrash(Decode, names) {
      forall s | s in series && PassesCheck(s) ensures AllValued(s.dimensions) {
        var i :| 0 <= i < |series| && series[i] == s;
        assert names[i] in names;
      }
    } else {
      var name :| name in names && Decode(name).Crash?;
      var i :| 0 <= i < |names| && names[i] == name;
      assert series[i] in series;
    }
  }

  /** For any names it ends just if those that pass the check are well formed. */
  lemma CheckedTraversalEnds(names: seq<string>)
    requires StrictlyAscending(names)
    ensures Terminates(Endpoint(Decode, names), IdOf(), "") <==>
            forall name | name in names && IsMetricName(name) :: WellFormed(name)
  {
    assert Decode("") == NotMetric;
    TraversalEnds(Decode, names);
    forall name ensures Decode(name).Crash? <==> IsMetricName(name) && !WellFormed(name) {
      CrashIff(name);
    }
  }
}
