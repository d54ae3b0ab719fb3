/**
 A listing service and the client that follows its next links. A link carries the id of the last element of its
 page; the service reads from it which names to pass over. The pages of LinkedPages are what such a client is given.
 */
module LinkTraversal {
  import opened Text
  import opened Ordering
  import opened LinkedPages

  // Which names are passed over
  type Passed = string -> bool

  // The names with what becomes of each, the element made of a name, the id an element carries, and what a request
  // text passes over (None: the request fails)
  datatype Service<!T(!new)> = Service(kind: Kinds, names: seq<string>, element: string -> T, id: T -> string,
                                       read: string -> Option<Passed>) {
    // What the link behind a name passes over
    function Reach(name: string): Option<Passed> {
      read(id(element(name)))
    }

    function Link(): Jump {
      (name: string) => if Reach(name).None? then None else Some(Position(names, Reach(name).value))
    }

    function Page(text: string): Page<T> {
      if read(text).None? then Raised else MapPage(element, PageAt(kind, names)(Position(names, read(text).value)))
    }

    // Ids tell names apart, and whatever is below a name that is passed over is passed over.
    ghost predicate Valid() {
      StrictlyAscending(names) &&
      (forall a, b :: element(a) == element(b) ==> a == b) &&
      (forall text :: read(text).Some? ==> DownClosed(read(text).value))
    }

    ghost predicate StartsWith(text: string) {
      read(text).Some? && PageAt(kind, names)(Position(names, read(text).value)) == PageAt(kind, names)(0)
    }

    function Elements(): seq<T> {
      Each(Listable(kind, names), element)
    }
  }

  function Position(names: seq<string>, passed: Passed): (n: nat)
    ensures n <= |names|
  {
    if names == [] || !passed(names[0]) then 0 else 1 + Position(names[1..], passed)
  }

  ghost predicate DownClosed(passed: Passed) {
    forall a, b :: Less(a, b) && passed(b) ==> passed(a)
  }

  function MapPage<T>(element: string -> T, page: Page<string>): Page<T> {
    if page.Raised? then Raised else LinkedPages.Elements(Each(page.elements, element))
  }

  // What a client is given that starts with a request and follows the links: a full page has one.
  ghost predicate Traversal<T>(get: string -> Page<T>, id: T -> string, text: string, pages: seq<seq<T>>)
    decreases |pages|
  {
    pages != [] && get(text) == LinkedPages.Elements(pages[0]) &&
    if |pages[0]| < LIMIT then |pages| == 1
    else Traversal(get, id, id(pages[0][|pages[0]| - 1]), pages[1..])
  }

  ghost predicate Serves<T(!new)>(get: string -> Page<T>, s: Service<T>) {
    forall text :: get(text) == s.Page(text)
  }

  // --- the condition on the links ---

  // Of the names that are listed, just those in front of k are passed over.
  ghost predicate SplitsAt(kind: Kinds, names: seq<string>, passed: Passed, k: int) {
    forall i | 0 <= i < |names| && kind(names[i]).Shown? :: passed(names[i]) <==> i < k
  }

  // The link behind the first k names passes over just those in front of the last o of them.
  ghost predicate LinkIsRight<T(!new)>(s: Service<T>, o: nat, k: nat)
    requires 0 < k <= |s.names|
  {
    s.Reach(s.names[k - 1]).Some? && SplitsAt(s.kind, s.names, s.Reach(s.names[k - 1]).value, k - o)
  }

  ghost predicate LinksAreRight<T(!new)>(s: Service<T>, o: nat)
    requires o <= 1
  {
    forall k: nat | PageEnd(s.kind, s.names, o, k) :: LinkIsRight(s, o, k)
  }

  // The link of a page end in front of c passes over c.
  ghost predicate LinkPasses<T(!new)>(s: Service<T>, k: nat, c: nat)
    requires 0 < k <= |s.names| && c < |s.names|
  {
    k <= c && s.Reach(s.names[k - 1]).Some? && s.Reach(s.names[k - 1]).value(s.names[c])
  }

  ghost predicate FailureIsPassed<T(!new)>(s: Service<T>, o: nat, c: nat)
    requires o <= 1 && c < |s.names|
  {
    exists k: nat :: PageEnd(s.kind, s.names, o, k) && LinkPasses(s, k, c)
  }

  ghost predicate FailuresArePassed<T(!new)>(s: Service<T>, o: nat)
    requires o <= 1
  {
    forall c: nat | c < |s.names| && s.kind(s.names[c]).Failing? :: FailureIsPassed(s, o, c)
  }

  lemma {:induction false} PositionSplits(names: seq<string>, passed: Passed)
    requires StrictlyAscending(names) && DownClosed(passed)
    ensures forall i :: 0 <= i < |names| ==> (passed(names[i]) <==> i < Position(names, passed))
  {
    if names != [] {
      if passed(names[0]) {
        PositionSplits(names[1..], passed);
        assert forall i :: 0 < i < |names| ==> names[i] == names[1..][i - 1];
      } else {
        forall i | 0 <= i < |names| ensures !passed(names[i]) {
          assert i > 0 ==> Less(names[0], names[i]);
        }
      }
    }
  }

  lemma {:induction false} ListableNone(kind: Kinds, names: seq<string>)
    ensures Listable(kind, names) == [] <==> forall i :: 0 <= i < |names| ==> !kind(names[i]).Shown?
  {
    if names != [] {
      ListableNone(kind, names[1..]);
      if Listable(kind, names) == [] {
        forall i | 0 <= i < |names| ensures !kind(names[i]).Shown? {
          if i > 0 { assert names[i] == names[1..][i - 1]; }
        }
      } else if forall i :: 0 <= i < |names[1..]| ==> !kind(names[1..][i]).Shown? {
        assert kind(names[0]).Shown?;
      } else {
        var i :| 0 <= i < |names[1..]| && kind(names[1..][i]).Shown?;
        assert names[i + 1] == names[1..][i];
      }
    }
  }

  lemma NoneBetween(kind: Kinds, names: seq<string>, a: nat, b: nat)
    requires a <= b <= |names|
    ensures Listable(kind, names[a..]) == Listable(kind, names[b..]) <==>
            forall i :: a <= i < b ==> !kind(names[i]).Shown?
  {
    CountSplit(kind, names, a, b);
    var m := Listable(kind, names[a..b]);
    assert m == [] ==> m + Listable(kind, names[b..]) == Listable(kind, names[b..]);
    assert m != [] ==> |m + Listable(kind, names[b..])| != |Listable(kind, names[b..])|;
    ListableNone(kind, names[a..b]);
    assert forall i :: a <= i < b ==> names[i] == names[a..b][i - a];
    assert forall i :: 0 <= i < b - a ==> names[a..b][i] == names[a + i];
  }

  lemma SplitsIff(kind: Kinds, names: seq<string>, passed: Passed, e: nat)
    requires StrictlyAscending(names) && DownClosed(passed) && e <= |names|
    ensures Listable(kind, names[Position(names, passed)..]) == Listable(kind, names[e..]) <==>
            SplitsAt(kind, names, passed, e)
  {
    var p := Position(names, passed);
    PositionSplits(names, passed);
    if p <= e { NoneBetween(kind, names, p, e); } else { NoneBetween(kind, names, e, p); }
  }

  // The conditions on links are those on positions.
  lemma LeadsOnIff<T(!new)>(s: Service<T>, o: nat, k: nat)
    requires o <= 1 && s.Valid() && 0 < k <= |s.names|
    ensures LeadsOn(s.kind, s.names, s.Link(), o, k) <==> LinkIsRight(s, o, k)
  {
    var passed := s.Reach(s.names[k - 1]);
    if passed.Some? {
      SplitsIff(s.kind, s.names, passed.value, k - o);
      LeadsOnTo(s.kind, s.names, s.Link(), o, k, Position(s.names, passed.value));
    }
  }

  lemma LeadsPastIff<T(!new)>(s: Service<T>, k: nat, c: nat)
    requires s.Valid() && 0 < k <= |s.names| && c < |s.names|
    ensures LeadsPast(s.names, s.Link(), k, c) <==> LinkPasses(s, k, c)
  {
    var passed := s.Reach(s.names[k - 1]);
    if passed.Some? {
      PositionSplits(s.names, passed.value);
    }
  }

  lemma LaterIsPageEnd(kind: Kinds, names: seq<string>, o: nat, k: nat)
    requires o <= 1
    ensures Later(kind, names, o, 0, k) <==> PageEnd(kind, names, o, k)
  {
    assert names[..0] == [];
  }

  lemma ConditionsAgree<T(!new)>(s: Service<T>, o: nat)
    requires o <= 1 && s.Valid()
    ensures LinksLeadOn(s.kind, s.names, s.Link(), o, 0) <==> LinksAreRight(s, o)
    ensures FailuresPassed(s.kind, s.names, s.Link(), o, 0) <==> FailuresArePassed(s, o)
  {
    forall k: nat ensures Later(s.kind, s.names, o, 0, k) <==> PageEnd(s.kind, s.names, o, k) {
      LaterIsPageEnd(s.kind, s.names, o, k);
    }
    forall k: nat | 0 < k <= |s.names| ensures LeadsOn(s.kind, s.names, s.Link(), o, k) <==> LinkIsRight(s, o, k) {
      LeadsOnIff(s, o, k);
    }
    forall c: nat | c < |s.names|
      ensures IsPassed(s.kind, s.names, s.Link(), o, 0, c) <==> FailureIsPassed(s, o, c)
    {
      PassedIff(s, o, c);
    }
  }

  lemma PassedIff<T(!new)>(s: Service<T>, o: nat, c: nat)
    requires o <= 1 && s.Valid() && c < |s.names|
    ensures IsPassed(s.kind, s.names, s.Link(), o, 0, c) <==> FailureIsPassed(s, o, c)
  {
    if k: nat :| Later(s.kind, s.names, o, 0, k) && LeadsPast(s.names, s.Link(), k, c) {
      LaterIsPageEnd(s.kind, s.names, o, k);
      LeadsPastIff(s, k, c);
      assert FailureIsPassed(s, o, c);
    }
    if k: nat :| PageEnd(s.kind, s.names, o, k) && LinkPasses(s, k, c) {
      LaterIsPageEnd(s.kind, s.names, o, k);
      LeadsPastIff(s, k, c);
      assert IsPassed(s.kind, s.names, s.Link(), o, 0, c);
    }
  }

  // --- the elements of the pages ---

  function MapPages<T>(pages: seq<seq<string>>, element: string -> T): (r: seq<seq<T>>)
    ensures |r| == |pages| && forall i :: 0 <= i < |pages| ==> r[i] == Each(pages[i], element)
  {
    seq(|pages|, i requires 0 <= i < |pages| => Each(pages[i], element))
  }

  lemma MapFirst<T(!new)>(pages: seq<seq<string>>, element: string -> T)
    requires pages != []
    ensures MapPages(pages, element)[0] == Each(pages[0], element) &&
            MapPages(pages, element)[1..] == MapPages(pages[1..], element)
    ensures pages[0] != [] ==> Each(pages[0], element)[|pages[0]| - 1] == element(pages[0][|pages[0]| - 1])
  {
  }

  lemma MapCons<T(!new)>(page: seq<string>, more: seq<seq<string>>, mapped: seq<seq<T>>, element: string -> T)
    requires mapped != [] && mapped[0] == Each(page, element) && mapped[1..] == MapPages(more, element)
    ensures MapPages([page] + more, element) == mapped
  {
    assert mapped == [mapped[0]] + mapped[1..];
  }

  ghost predicate ChainOf<T(!new)>(s: Service<T>, start: nat, pages: seq<seq<string>>) {
    Chain(PageAt(s.kind, s.names), s.Link(), start, pages)
  }

  lemma {:induction false} ChainGives<T(!new)>(get: string -> Page<T>, s: Service<T>, text: string,
                                               pages: seq<seq<string>>)
    requires Serves(get, s) && s.read(text).Some? && ChainOf(s, Position(s.names, s.read(text).value), pages)
    ensures Traversal(get, s.id, text, MapPages(pages, s.element))
    decreases |pages|
  {
    ChainFirst(PageAt(s.kind, s.names), s.Link(), Position(s.names, s.read(text).value), pages);
    MapFirst(pages, s.element);
    assert get(text) == s.Page(text);
    if |pages[0]| >= LIMIT {
      ChainGives(get, s, s.id(s.element(pages[0][|pages[0]| - 1])), pages[1..]);
    }
  }

  lemma {:induction false} GivesChain<T(!new)>(get: string -> Page<T>, s: Service<T>, text: string, given: seq<seq<T>>)
      returns (pages: seq<seq<string>>)
    requires Serves(get, s) && Traversal(get, s.id, text, given)
    ensures s.read(text).Some? && ChainOf(s, Position(s.names, s.read(text).value), pages) &&
            MapPages(pages, s.element) == given
    decreases |given|
  {
    assert get(text) == s.Page(text);
    var start := Position(s.names, s.read(text).value);
    var page := PageAt(s.kind, s.names)(start).elements;
    if |page| < LIMIT {
      pages := [page];
    } else {
      assert given[0][|page| - 1] == s.element(page[|page| - 1]);
      var more := GivesChain(get, s, s.id(s.element(page[|page| - 1])), given[1..]);
      ChainAfter(PageAt(s.kind, s.names), s.Link(), start, page, more);
      pages := [page] + more;
      MapCons(page, more, given, s.element);
    }
  }

  lemma ChainFromStart(get: nat -> Page<string>, jump: Jump, a: nat, b: nat, pages: seq<seq<string>>)
    requires get(a) == get(b)
    ensures Chain(get, jump, a, pages) <==> Chain(get, jump, b, pages)
  {
  }

  lemma EachInjective<T(!new)>(a: seq<string>, b: seq<string>, element: string -> T)
    requires forall x, y :: element(x) == element(y) ==> x == y
    ensures Each(a, element) == Each(b, element) <==> a == b
  {
    if Each(a, element) == Each(b, element) {
      assert |a| == |b|;
      forall i | 0 <= i < |a| ensures a[i] == b[i] {
        assert Each(a, element)[i] == Each(b, element)[i];
      }
    }
  }

  lemma EachSlices<T(!new)>(a: seq<string>, element: string -> T, o: nat)
    requires o <= |a|
    ensures Each(a, element)[..o] == Each(a[..o], element) && Each(a, element)[o..] == Each(a[o..], element)
  {
  }

  lemma EachConcat<T(!new)>(a: seq<string>, b: seq<string>, element: string -> T)
    ensures Each(a + b, element) == Each(a, element) + Each(b, element)
  {
  }

  lemma MapKeepsRepeats<T(!new)>(o: nat, a: seq<string>, b: seq<string>, element: string -> T)
    requires forall x, y :: element(x) == element(y) ==> x == y
    ensures Repeats(o, Each(a, element), Each(b, element)) <==> Repeats(o, a, b)
  {
    if |a| >= o && |b| >= o {
      EachSlices(b, element, o);
      EachSlices(a, element, |a| - o);
      EachInjective(b[..o], a[|a| - o..], element);
    }
  }

  lemma {:induction false} MapKeepsOverlap<T(!new)>(o: nat, pages: seq<seq<string>>, element: string -> T)
    requires forall x, y :: element(x) == element(y) ==> x == y
    ensures Overlapping(o, MapPages(pages, element)) <==> Overlapping(o, pages)
    decreases |pages|
  {
    if |pages| > 1 {
      MapFirst(pages, element);
      MapFirst(pages[1..], element);
      MapKeepsOverlap(o, pages[1..], element);
      MapKeepsRepeats(o, pages[0], pages[1], element);
    }
  }

  lemma {:induction false} MapKeepsJoined<T(!new)>(o: nat, pages: seq<seq<string>>, element: string -> T)
    requires Overlapping(o, pages) && Overlapping(o, MapPages(pages, element))
    ensures Joined(o, MapPages(pages, element)) == Each(Joined(o, pages), element)
    decreases |pages|
  {
    if |pages| > 1 {
      MapFirst(pages, element);
      MapKeepsJoined(o, pages[1..], element);
      assert pages[1..][0] == pages[1];
      EachSlices(Joined(o, pages[1..]), element, o);
      EachConcat(pages[0], Joined(o, pages[1..])[o..], element);
    }
  }

  // The pages give every element once and in order, apart from the o elements that each page repeats.
  ghost predicate GiveElements<T(!new)>(get: string -> Page<T>, s: Service<T>, o: nat, text: string,
                                        pages: seq<seq<T>>) {
    Traversal(get, s.id, text, pages) && Overlapping(o, pages) && Joined(o, pages) == s.Elements()
  }

  ghost predicate GivesElements<T(!new)>(get: string -> Page<T>, s: Service<T>, o: nat, text: string) {
    exists pages :: GiveElements(get, s, o, text, pages)
  }

  lemma GivenIsAll<T(!new)>(get: string -> Page<T>, s: Service<T>, o: nat, text: string, given: seq<seq<T>>)
    requires Serves(get, s) && s.Valid() && s.StartsWith(text) && GiveElements(get, s, o, text, given)
    ensures GivesAll(s.kind, s.names, s.Link(), o)
  {
    var pages := GivesChain(get, s, text, given);
    ChainFromStart(PageAt(s.kind, s.names), s.Link(), Position(s.names, s.read(text).value), 0, pages);
    MapKeepsOverlap(o, pages, s.element);
    MapKeepsJoined(o, pages, s.element);
    EachInjective(Joined(o, pages), Listable(s.kind, s.names), s.element);
    assert GiveAll(s.kind, s.names, s.Link(), o, pages);
  }

  lemma AllIsGiven<T(!new)>(get: string -> Page<T>, s: Service<T>, o: nat, text: string) returns (given: seq<seq<T>>)
    requires Serves(get, s) && s.Valid() && s.StartsWith(text) && GivesAll(s.kind, s.names, s.Link(), o)
    ensures GiveElements(get, s, o, text, given)
  {
    var pages :| GiveAll(s.kind, s.names, s.Link(), o, pages);
    ChainFromStart(PageAt(s.kind, s.names), s.Link(), Position(s.names, s.read(text).value), 0, pages);
    ChainGives(get, s, text, pages);
    MapKeepsOverlap(o, pages, s.element);
    MapKeepsJoined(o, pages, s.element);
    given := MapPages(pages, s.element);
  }

  /**
   Some traversal gives every element, in order, once apart from o repeated by each page, just if at every page end
   the link passes over exactly the names in front of those due, and the links pass over every name that fails.
   */
  lemma GivesElementsIff<T(!new)>(get: string -> Page<T>, s: Service<T>, o: nat, text: string)
    requires o <= 1 && Serves(get, s) && s.Valid() && s.StartsWith(text)
    ensures GivesElements(get, s, o, text) <==> LinksAreRight(s, o) && FailuresArePassed(s, o)
  {
    RightIff(s.kind, s.names, s.Link(), o);
    ConditionsAgree(s, o);
    if GivesElements(get, s, o, text) {
      var pages :| GiveElements(get, s, o, text, pages);
      GivenIsAll(get, s, o, text, pages);
    }
    if GivesAll(s.kind, s.names, s.Link(), o) {
      var pages := AllIsGiven(get, s, o, text);
    }
  }

  /** A traversal comes to an end just if it does within as many links as there are names. */
  lemma TraversalEndsIff<T(!new)>(get: string -> Page<T>, s: Service<T>, text: string)
    requires Serves(get, s) && s.StartsWith(text)
    ensures Terminates(get, s.id, text) <==> EndIsReached(s.kind, s.names, s.Link())
  {
    EndsIff(s.kind, s.names, s.Link());
    if Terminates(get, s.id, text) {
      var pages :| Traversal(get, s.id, text, pages);
      GivenEnds(get, s, text, pages);
    }
    if Ends(s.kind, s.names, s.Link()) {
      var pages := EndIsGiven(get, s, text);
    }
  }

  ghost predicate Terminates<T(!new)>(get: string -> Page<T>, id: T -> string, text: string) {
    exists pages :: Traversal(get, id, text, pages)
  }

  lemma GivenEnds<T(!new)>(get: string -> Page<T>, s: Service<T>, text: string, given: seq<seq<T>>)
    requires Serves(get, s) && s.StartsWith(text) && Traversal(get, s.id, text, given)
    ensures Ends(s.kind, s.names, s.Link())
  {
    var pages := GivesChain(get, s, text, given);
    ChainFromStart(PageAt(s.kind, s.names), s.Link(), Position(s.names, s.read(text).value), 0, pages);
    assert Follows(s.kind, s.names, s.Link(), 0, pages);
  }

  lemma EndIsGiven<T(!new)>(get: string -> Page<T>, s: Service<T>, text: string) returns (given: seq<seq<T>>)
    requires Serves(get, s) && s.StartsWith(text) && Ends(s.kind, s.names, s.Link())
    ensures Traversal(get, s.id, text, given)
  {
    var pages :| Follows(s.kind, s.names, s.Link(), 0, pages);
    ChainFromStart(PageAt(s.kind, s.names), s.Link(), Position(s.names, s.read(text).value), 0, pages);
    ChainGives(get, s, text, pages);
    given := MapPages(pages, s.element);
  }

  // --- links that are exact ---

  // The link behind a name passes over just the names in front of it, and over the name itself when o is 0.
  ghost predicate LinkIsExact<T(!new)>(s: Service<T>, o: nat, i: nat)
    requires o <= 1 && i < |s.names|
  {
    s.Reach(s.names[i]).Some? && forall j | 0 <= j < |s.names| :: s.Reach(s.names[i]).value(s.names[j]) <==>
      j < i + 1 - o
  }

  ghost predicate LinksAreExact<T(!new)>(s: Service<T>, o: nat)
    requires o <= 1
  {
    forall i: nat | i < |s.names| && s.kind(s.names[i]).Shown? :: LinkIsExact(s, o, i)
  }

  lemma {:induction false} PositionIs(names: seq<string>, passed: Passed, n: nat)
    requires n <= |names| && forall i :: 0 <= i < |names| ==> (passed(names[i]) <==> i < n)
    ensures Position(names, passed) == n
  {
    if n > 0 {
      PositionIs(names[1..], passed, n - 1);
    }
  }

  lemma ExactLinks<T(!new)>(s: Service<T>, o: nat)
    requires o <= 1 && LinksAreExact(s, o)
    ensures Exact(s.kind, s.names, s.Link(), o)
  {
    forall i: nat | i < |s.names| && s.kind(s.names[i]).Shown? ensures s.Link()(s.names[i]) == Some(i + 1 - o) {
      assert LinkIsExact(s, o, i);
      PositionIs(s.names, s.Reach(s.names[i]).value, i + 1 - o);
    }
  }

  /**
   With exact links every traversal that ends gives all elements, apart from the repetitions once, and no name fails.
   */
  lemma ExactTraversal<T(!new)>(get: string -> Page<T>, s: Service<T>, o: nat, text: string, given: seq<seq<T>>)
    requires o <= 1 && Serves(get, s) && s.Valid() && s.StartsWith(text) && LinksAreExact(s, o) &&
             Traversal(get, s.id, text, given)
    ensures GiveElements(get, s, o, text, given) && NoneFails(s.kind, s.names)
  {
    var pages := GivesChain(get, s, text, given);
    ChainFromStart(PageAt(s.kind, s.names), s.Link(), Position(s.names, s.read(text).value), 0, pages);
    ExactLinks(s, o);
    ExactFollows(s.kind, s.names, s.Link(), o, 0, pages);
    assert s.names[0..] == s.names;
    MapKeepsOverlap(o, pages, s.element);
    MapKeepsJoined(o, pages, s.element);
  }

  lemma ExactIsRight<T(!new)>(s: Service<T>, o: nat)
    requires o <= 1 && LinksAreExact(s, o)
    ensures LinksAreRight(s, o)
  {
    forall k: nat | PageEnd(s.kind, s.names, o, k) ensures LinkIsRight(s, o, k) {
      assert LinkIsExact(s, o, k - 1);
    }
  }

  /** With exact links the traversal ends just if no name fails. */
  lemma ExactEndsIff<T(!new)>(get: string -> Page<T>, s: Service<T>, o: nat, text: string)
    requires o <= 1 && Serves(get, s) && s.Valid() && s.StartsWith(text) && LinksAreExact(s, o)
    ensures Terminates(get, s.id, text) <==> NoneFails(s.kind, s.names)
  {
    if Terminates(get, s.id, text) {
      var pages :| Traversal(get, s.id, text, pages);
      ExactTraversal(get, s, o, text, pages);
    }
    if NoneFails(s.kind, s.names) {
      GivesElementsIff(get, s, o, text);
      ExactIsRight(s, o);
      var pages :| GiveElements(get, s, o, text, pages);
      assert Traversal(get, s.id, text, pages);
    }
  }

  // --- two ways to go wrong ---

  lemma {:induction false} ScanOfShown(kind: Kinds, names: seq<string>, room: int)
    requires room >= 1 && forall i :: 0 <= i < |names| ==> kind(names[i]).Shown?
    ensures Scan(kind, names, room) == LinkedPages.Elements(if |names| <= room then names else names[..room])
  {
    if names != [] && room > 1 {
      ScanOfShown(kind, names[1..], room - 1);
      assert names == [names[0]] + names[1..];
    }
  }

  lemma {:induction false} ListableOfShown(kind: Kinds, names: seq<string>)
    requires forall i :: 0 <= i < |names| ==> kind(names[i]).Shown?
    ensures Listable(kind, names) == names
  {
    if names != [] {
      ListableOfShown(kind, names[1..]);
      assert names == [names[0]] + names[1..];
    }
  }

  lemma {:induction false} NothingPassed(names: seq<string>, passed: Passed)
    requires names != [] ==> !passed(names[0])
    ensures Position(names, passed) == 0
  {
  }

  lemma {:induction false} AllPassed(names: seq<string>, passed: Passed)
    requires forall i :: 0 <= i < |names| ==> passed(names[i])
    ensures Position(names, passed) == |names|
  {
    if names != [] { AllPassed(names[1..], passed); }
  }

  /** A link behind the first page that passes over nothing leads to the first page, for ever. */
  lemma BackToStart<T(!new)>(get: string -> Page<T>, s: Service<T>, text: string)
    requires Serves(get, s) && s.StartsWith(text) && |s.names| >= LIMIT
    requires forall i :: 0 <= i < |s.names| ==> s.kind(s.names[i]).Shown?
    requires s.Reach(s.names[LIMIT - 1]).Some? && !s.Reach(s.names[LIMIT - 1]).value(s.names[0])
    ensures Endless(LinkedPages.Link(s.kind, s.names, s.Link()), 0) && !Terminates(get, s.id, text)
  {
    var link := LinkedPages.Link(s.kind, s.names, s.Link());
    FirstIsFull(s.kind, s.names);
    NothingPassed(s.names, s.Reach(s.names[LIMIT - 1]).value);
    assert link(0) == Some(0);
    assert After(link, 0, 1) == Some(0) by { assert After(link, 0, 0) == Some(0); }
    assert ComesBack(link, 0, 0, 1);
    EndlessIff(s.kind, s.names, s.Link());
    EndlessHasNoEnd(s.kind, s.names, s.Link());
    if Terminates(get, s.id, text) {
      var pages :| Traversal(get, s.id, text, pages);
      GivenEnds(get, s, text, pages);
    }
  }

  lemma FirstIsFull(kind: Kinds, names: seq<string>)
    requires |names| >= LIMIT && forall i :: 0 <= i < |names| ==> kind(names[i]).Shown?
    ensures PageAt(kind, names)(0) == LinkedPages.Elements(names[..LIMIT])
  {
    ScanOfShown(kind, names, LIMIT);
    assert names[0..] == names;
    if |names| == LIMIT { assert names[..LIMIT] == names; }
  }

  /** A link behind the first page that passes over everything leads to an empty page, and the rest is not given. */
  lemma PastTheRest<T(!new)>(get: string -> Page<T>, s: Service<T>, text: string, given: seq<seq<T>>)
    requires Serves(get, s) && s.StartsWith(text) && |s.names| >= LIMIT
    requires forall i :: 0 <= i < |s.names| ==> s.kind(s.names[i]).Shown?
    requires s.Reach(s.names[LIMIT - 1]).Some? && forall i :: 0 <= i < |s.names| ==>
             s.Reach(s.names[LIMIT - 1]).value(s.names[i])
    ensures Traversal(get, s.id, text, given) <==> given == [Each(s.names[..LIMIT], s.element), []]
  {
    var first := Each(s.names[..LIMIT], s.element);
    FirstIsFull(s.kind, s.names);
    assert get(text) == s.Page(text) == LinkedPages.Elements(first);
    assert first[LIMIT - 1] == s.element(s.names[LIMIT - 1]);
    var next := s.id(first[LIMIT - 1]);
    assert get(next) == LinkedPages.Elements([]) by {
      assert get(next) == s.Page(next);
      AllPassed(s.names, s.Reach(s.names[LIMIT - 1]).value);
      assert s.names[|s.names|..] == [];
    }
    TwoPages(get, s.id, text, first, given);
  }

  lemma TwoPages<T(!new)>(get: string -> Page<T>, id: T -> string, text: string, first: seq<T>, given: seq<seq<T>>)
    requires get(text) == LinkedPages.Elements(first) && |first| == LIMIT
    requires get(id(first[LIMIT - 1])) == LinkedPages.Elements([])
    ensures Traversal(get, id, text, given) <==> given == [first, []]
  {
    var both: seq<seq<T>> := [first, []];
    assert both[1..] == [[]];
    assert Traversal(get, id, id(first[LIMIT - 1]), [[]]);
    if Traversal(get, id, text, given) {
      var rest := given[1..];
      assert Traversal(get, id, id(first[LIMIT - 1]), rest);
      assert rest[0] == [] && |rest| == 1;
      assert given == [given[0]] + rest;
    }
  }

  // --- names that are numbered ---

  function Digit(n: nat): char
    requires n < 10
  {
    ('0' as int + n) as char
  }

  // Up to a hundred names that differ in their last two digits
  function Numbered(front: string, n: nat): (names: seq<string>)
    requires n <= 100
    ensures |names| == n
    ensures forall i :: 0 <= i < n ==> names[i] == front + [Digit(i / 10), Digit(i % 10)]
  {
    seq(n, i requires 0 <= i < n => front + [Digit(i / 10), Digit(i % 10)])
  }

  lemma {:induction false} LessBehind(front: string, a: string, b: string)
    ensures Less(front + a, front + b) <==> Less(a, b)
  {
    if front == "" {
      assert front + a == a && front + b == b;
    } else {
      assert (front + a)[1..] == front[1..] + a && (front + b)[1..] == front[1..] + b;
      LessBehind(front[1..], a, b);
    }
  }

  lemma NumberedAscend(front: string, n: nat)
    requires n <= 100
    ensures StrictlyAscending(Numbered(front, n))
  {
    forall i, j | 0 <= i < j < n ensures Less(Numbered(front, n)[i], Numbered(front, n)[j]) {
      var a, b := [Digit(i / 10), Digit(i % 10)], [Digit(j / 10), Digit(j % 10)];
      LessBehind(front, a, b);
      assert i / 10 <= j / 10 && (i / 10 == j / 10 ==> i % 10 < j % 10);
      assert a[1..] == [a[1]] && b[1..] == [b[1]];
      assert a[0] == b[0] ==> Less(a[1..], b[1..]);
    }
  }
}
