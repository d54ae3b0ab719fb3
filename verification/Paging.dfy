/**
 Paging by key: the notification methods of a tenant behind an offset, in the order of their ids, and the
 traversal a client makes by following the next links while others create and delete methods.
 */
module Paging {
  import opened Text
  import opened Ordering

  // Paged.LIMIT
  const LIMIT: nat := 50

  datatype Row = Row(tenantId: string, name: string, kind: string, address: string)
  datatype NotificationMethod = NotificationMethod(id: string, name: string, kind: string, address: string)

  type Table = map<string, Row>

  function Of(id: string, r: Row): NotificationMethod {
    NotificationMethod(id, r.name, r.kind, r.address)
  }

  predicate Owns(t: Table, tenantId: string, id: string) {
    id in t && t[id].tenantId == tenantId
  }

  // Ids strictly ascending
  predicate Ascending(page: seq<NotificationMethod>) {
    forall i, j :: 0 <= i < j < |page| ==> Less(page[i].id, page[j].id)
  }

  function Ids(page: seq<NotificationMethod>): set<string> {
    set m | m in page :: m.id
  }

  // Rows of the tenant with an id above the offset, in order, all of them up to the last of the page; with
  // fewer than limit there are no more.
  ghost predicate IsPage(t: Table, tenantId: string, offset: string, limit: nat, page: seq<NotificationMethod>) {
    && |page| <= limit && Ascending(page)
    && (forall m | m in page :: Owns(t, tenantId, m.id) && m == Of(m.id, t[m.id]) && Less(offset, m.id))
    && (forall id | Owns(t, tenantId, id) && Less(offset, id) ::
          id in Ids(page) || (|page| == limit && forall m | m in page :: Less(m.id, id)))
  }

  /** The page is determined by the table and the offset. */
  lemma PageIsUnique(t: Table, tenantId: string, offset: string, limit: nat, a: seq<NotificationMethod>,
                     b: seq<NotificationMethod>)
    requires IsPage(t, tenantId, offset, limit, a) && IsPage(t, tenantId, offset, limit, b)
    ensures a == b
  {
    if |a| <= |b| {
      PageIsPrefix(t, tenantId, offset, limit, a, b, |a|);
    } else {
      PageIsPrefix(t, tenantId, offset, limit, b, a, |b|);
    }
    if |a| < |b| {
      PageEndsEarly(t, tenantId, offset, limit, a, b);
    } else if |b| < |a| {
      PageEndsEarly(t, tenantId, offset, limit, b, a);
    }
  }

  lemma {:induction false} PageIsPrefix(t: Table, tenantId: string, offset: string, limit: nat,
                                        a: seq<NotificationMethod>, b: seq<NotificationMethod>, n: nat)
    requires IsPage(t, tenantId, offset, limit, a) && IsPage(t, tenantId, offset, limit, b) && n <= |a| <= |b|
    ensures a[..n] == b[..n]
  {
    if n > 0 {
      PageIsPrefix(t, tenantId, offset, limit, a, b, n - 1);
      NotAbove(t, tenantId, offset, limit, a, b, n - 1);
      NotAbove(t, tenantId, offset, limit, b, a, n - 1);
      LessTotal(a[n - 1].id, b[n - 1].id);
      assert a[n - 1] in a && b[n - 1] in b;
      assert a[..n] == a[..n - 1] + [a[n - 1]] && b[..n] == b[..n - 1] + [b[n - 1]];
    }
  }

  lemma IdsDiffer(page: seq<NotificationMethod>, i: nat, j: nat)
    requires Ascending(page) && i < j < |page|
    ensures page[i].id != page[j].id
  {
    LessTotal(page[i].id, page[i].id);
  }

  // The n-th of one page is not below the n-th of the other, which would have left it out.
  lemma NotAbove(t: Table, tenantId: string, offset: string, limit: nat, a: seq<NotificationMethod>,
                 b: seq<NotificationMethod>, n: nat)
    requires IsPage(t, tenantId, offset, limit, a) && IsPage(t, tenantId, offset, limit, b)
    requires n < |a| && n < |b| && a[..n] == b[..n]
    ensures !Less(a[n].id, b[n].id)
  {
    var id := a[n].id;
    assert a[n] in a && b[n] in b;
    LessTotal(id, b[n].id);
    forall k | 0 <= k < n ensures b[k].id != id {
      assert b[..n][k] == a[..n][k];
      IdsDiffer(a, k, n);
    }
  }

  lemma PageEndsEarly(t: Table, tenantId: string, offset: string, limit: nat, a: seq<NotificationMethod>,
                      b: seq<NotificationMethod>)
    requires IsPage(t, tenantId, offset, limit, a) && |a| < |b| <= limit && Ascending(b)
    requires a == b[..|a|]
    ensures !IsPage(t, tenantId, offset, limit, b)
  {
    var m := b[|a|];
    assert m in b;
    forall k | 0 <= k < |a| ensures a[k].id != m.id {
      assert b[k] == a[k];
      IdsDiffer(b, k, |a|);
    }
  }

  // The next offset, when Links.paginate adds a next link
  function NextOffset(offset: Option<string>, elements: seq<NotificationMethod>): Option<string> {
    if offset.Some? && |elements| >= LIMIT then Some(elements[|elements| - 1].id) else None
  }

  // --- the repository ---

  datatype Outcome<T> = Done(value: T) | AlreadyExists | NotFound

  method KeysOf(t: Table, tenantId: string) returns (ids: seq<string>)
    ensures Distinct(ids) && forall id :: id in ids <==> Owns(t, tenantId, id)
  {
    ids := [];
    var left := t.Keys;
    while left != {}
      invariant left <= t.Keys && Distinct(ids)
      invariant forall id :: id in ids <==> Owns(t, tenantId, id) && id !in left
      decreases left
    {
      var id :| id in left;
      left := left - {id};
      if t[id].tenantId == tenantId {
        ids := ids + [id];
      }
    }
  }

  lemma LessIsStrictTotal()
    ensures StrictTotal(Less)
  {
    forall a, b ensures Less(a, b) || a == b || Less(b, a)
      ensures !(Less(a, b) && Less(b, a))
    {
      LessTotal(a, b);
    }
    forall a, b, c | Less(a, b) && Less(b, c) ensures Less(a, c) {
      LessTransitive(a, b, c);
    }
  }

  predicate Increasing(ids: seq<string>) {
    forall i, j :: 0 <= i < j < |ids| ==> Less(ids[i], ids[j])
  }

  function Records(t: Table, ids: seq<string>): (r: seq<NotificationMethod>)
    requires forall k :: 0 <= k < |ids| ==> ids[k] in t
    ensures |r| == |ids| && forall k :: 0 <= k < |ids| ==> r[k] == Of(ids[k], t[ids[k]])
  {
    seq(|ids|, k requires 0 <= k < |ids| => Of(ids[k], t[ids[k]]))
  }

  // Behind the first id above the offset all are.
  lemma AboveFrom(ids: seq<string>, offset: string, first: nat)
    requires Increasing(ids) && first < |ids| && Less(offset, ids[first])
    ensures forall k :: first <= k < |ids| ==> Less(offset, ids[k])
  {
    forall k | first < k < |ids| ensures Less(offset, ids[k]) {
      LessTransitive(offset, ids[first], ids[k]);
    }
  }

  lemma SliceIsPage(t: Table, tenantId: string, offset: string, ids: seq<string>, first: nat,
                    page: seq<NotificationMethod>)
    requires Increasing(ids) && forall id :: id in ids <==> Owns(t, tenantId, id)
    requires first <= |ids| && (first < |ids| ==> Less(offset, ids[first]))
    requires forall k :: 0 <= k < first ==> !Less(offset, ids[k])
    requires |page| == if |ids| - first < LIMIT then |ids| - first else LIMIT
    requires forall k :: 0 <= k < |page| ==> ids[first + k] in t && page[k] == Of(ids[first + k], t[ids[first + k]])
    ensures IsPage(t, tenantId, offset, LIMIT, page)
  {
    if first < |ids| {
      AboveFrom(ids, offset, first);
    }
    forall m | m in page ensures Owns(t, tenantId, m.id) && m == Of(m.id, t[m.id]) && Less(offset, m.id) {
      var k :| 0 <= k < |page| && page[k] == m;
      assert ids[first + k] in ids;
    }
    forall id | Owns(t, tenantId, id) && Less(offset, id)
      ensures id in Ids(page) || (|page| == LIMIT && forall m | m in page :: Less(m.id, id))
    {
      var k :| 0 <= k < |ids| && ids[k] == id;
      if k < first + |page| {
        assert page[k - first] in page;
      }
    }
  }

  class NotificationMethodRepository {
    var table: Table

    // order by id asc
    method SortedIds(tenantId: string) returns (ids: seq<string>)
      ensures forall id :: id in ids <==> Owns(table, tenantId, id)
      ensures Increasing(ids)
    {
      var keys := KeysOf(table, tenantId);
      ids := Sort(keys, Less);
      LessIsStrictTotal();
      SortSorts(keys, Less);
      DistinctCounts(keys);
      forall id ensures id in ids <==> id in keys {
        assert id in ids <==> id in multiset(ids);
        assert id in keys <==> id in multiset(keys);
      }
      forall i, j | 0 <= i < j < |ids| ensures Less(ids[i], ids[j]) {
        CountedTwice(ids, i, j);
        LessTotal(ids[i], ids[j]);
      }
    }

    // where tenant_id = ? and id > ? order by id asc limit 50
    method Find(tenantId: string, offset: string) returns (page: seq<NotificationMethod>)
      ensures IsPage(table, tenantId, offset, LIMIT, page)
    {
      var ids := SortedIds(tenantId);
      var first := 0;
      while first < |ids| && !Less(offset, ids[first])
        invariant first <= |ids| && forall k :: 0 <= k < first ==> !Less(offset, ids[k])
      {
        first := first + 1;
      }
      var n := if |ids| - first < LIMIT then |ids| - first else LIMIT;
      assert forall k :: 0 <= k < |ids| ==> ids[k] in ids;
      page := Records(table, ids[first..first + n]);
      SliceIsPage(table, tenantId, offset, ids, first, page);
    }

    method Exists(tenantId: string, name: string, kind: string, address: string) returns (found: bool)
      ensures found <==> exists id :: id in table && table[id] == Row(tenantId, name, kind, address)
    {
      found := Row(tenantId, name, kind, address) in table.Values;
    }

    // newId is the random UUID.
    method Create(tenantId: string, name: string, kind: string, address: string, newId: string)
        returns (r: Outcome<NotificationMethod>)
      requires newId !in table
      modifies this
      ensures r.AlreadyExists? <==>
              exists id :: id in old(table) && old(table)[id] == Row(tenantId, name, kind, address)
      ensures r.AlreadyExists? ==> table == old(table)
      ensures !r.AlreadyExists? ==> r == Done(Of(newId, Row(tenantId, name, kind, address))) &&
                                    table == old(table)[newId := Row(tenantId, name, kind, address)]
    {
      var found := Exists(tenantId, name, kind, address);
      if found {
        return AlreadyExists;
      }
      table := table[newId := Row(tenantId, name, kind, address)];
      return Done(Of(newId, Row(tenantId, name, kind, address)));
    }

    method DeleteById(tenantId: string, id: string) returns (r: Outcome<()>)
      modifies this
      ensures r == if Owns(old(table), tenantId, id) then Done(()) else NotFound
      ensures table == if Owns(old(table), tenantId, id) then old(table) - {id} else old(table)
    {
      if !Owns(table, tenantId, id) {
        return NotFound;
      }
      table := table - {id};
      return Done(());
    }
  }

  lemma CountedTwice(s: seq<string>, i: nat, j: nat)
    requires i < j < |s| && forall x :: multiset(s)[x] <= 1
    ensures s[i] != s[j]
  {
    assert s == s[..i] + [s[i]] + s[i + 1..];
    assert multiset(s) == multiset(s[..i]) + multiset{s[i]} + multiset(s[i + 1..]);
    assert s[i] !in multiset(s[i + 1..]) by {
      assert multiset(s)[s[i]] == multiset(s[..i])[s[i]] + 1 + multiset(s[i + 1..])[s[i]];
    }
    assert s[j] == s[i + 1..][j - i - 1];
  }

  // --- the traversal ---

  /**
   pages is what a client is given from an offset on, each page read from the table as it is at that time;
   it ends when a page has no next link.
   */
  ghost predicate Traversal(tables: seq<Table>, tenantId: string, offset: string, pages: seq<seq<NotificationMethod>>)
    decreases |pages|
  {
    && |tables| == |pages| > 0 && IsPage(tables[0], tenantId, offset, LIMIT, pages[0])
    && var next := NextOffset(Some(offset), pages[0]);
       if next.Some? then Traversal(tables[1..], tenantId, next.value, pages[1..]) else |pages| == 1
  }

  function Concat(pages: seq<seq<NotificationMethod>>): seq<NotificationMethod> {
    if pages == [] then [] else pages[0] + Concat(pages[1..])
  }

  ghost predicate AllAbove(s: seq<NotificationMethod>, offset: string) {
    forall m | m in s :: Less(offset, m.id)
  }

  lemma AppendAscending(a: seq<NotificationMethod>, b: seq<NotificationMethod>, offset: string)
    requires a != [] && Ascending(a) && Ascending(b) && AllAbove(a, offset) && AllAbove(b, a[|a| - 1].id)
    ensures Ascending(a + b) && AllAbove(a + b, offset)
  {
    var last := a[|a| - 1];
    assert last in a;
    forall m | m in b ensures Less(offset, m.id) {
      LessTransitive(offset, last.id, m.id);
    }
    forall i, j | 0 <= i < |a| && 0 <= j < |b| ensures Less(a[i].id, b[j].id) {
      assert b[j] in b;
      if i < |a| - 1 { LessTransitive(a[i].id, last.id, b[j].id); }
    }
  }

  lemma PageAscends(t: Table, tenantId: string, offset: string, page: seq<NotificationMethod>)
    requires IsPage(t, tenantId, offset, LIMIT, page)
    ensures Ascending(page) && AllAbove(page, offset)
  {
  }

  lemma {:induction false} TraversalAscends(tables: seq<Table>, tenantId: string, offset: string,
                                            pages: seq<seq<NotificationMethod>>)
    requires Traversal(tables, tenantId, offset, pages)
    ensures Ascending(Concat(pages)) && AllAbove(Concat(pages), offset)
    decreases |pages|
  {
    var next := NextOffset(Some(offset), pages[0]);
    PageAscends(tables[0], tenantId, offset, pages[0]);
    if next.Some? {
      TraversalAscends(tables[1..], tenantId, next.value, pages[1..]);
      AppendAscending(pages[0], Concat(pages[1..]), offset);
    } else {
      assert Concat(pages) == pages[0] by { assert pages[0] + [] == pages[0]; }
    }
  }

  /** No id is returned twice, whatever is written between the fetches. */
  lemma NoIdTwice(tables: seq<Table>, tenantId: string, offset: string, pages: seq<seq<NotificationMethod>>, i: nat,
                  j: nat)
    requires Traversal(tables, tenantId, offset, pages) && i < j < |Concat(pages)|
    ensures Concat(pages)[i].id != Concat(pages)[j].id
  {
    TraversalAscends(tables, tenantId, offset, pages);
    LessTotal(Concat(pages)[i].id, Concat(pages)[i].id);
  }

  /** A method that is there at every fetch is returned. */
  lemma {:induction false} PresentIsReturned(tables: seq<Table>, tenantId: string, offset: string,
                                             pages: seq<seq<NotificationMethod>>, id: string)
    requires Traversal(tables, tenantId, offset, pages)
    requires Less(offset, id) && forall t | t in tables :: Owns(t, tenantId, id)
    ensures id in Ids(Concat(pages))
    decreases |pages|
  {
    assert tables[0] in tables;
    ConcatIds(pages);
    var next := NextOffset(Some(offset), pages[0]);
    if next.Some? && id !in Ids(pages[0]) {
      assert pages[0][|pages[0]| - 1] in pages[0];
      assert forall t | t in tables[1..] :: t in tables;
      PresentIsReturned(tables[1..], tenantId, next.value, pages[1..], id);
    }
  }

  lemma ConcatIds(pages: seq<seq<NotificationMethod>>)
    requires pages != []
    ensures Ids(Concat(pages)) == Ids(pages[0]) + Ids(Concat(pages[1..]))
  {
  }

  /** What is returned was in the table when its page was read. */
  lemma {:induction false} ReturnedWasPresent(tables: seq<Table>, tenantId: string, offset: string,
                                              pages: seq<seq<NotificationMethod>>, m: NotificationMethod)
      returns (t: Table)
    requires Traversal(tables, tenantId, offset, pages) && m in Concat(pages)
    ensures t in tables && Owns(t, tenantId, m.id) && m == Of(m.id, t[m.id])
    decreases |pages|
  {
    if m in pages[0] {
      t := tables[0];
    } else {
      t := ReturnedWasPresent(tables[1..], tenantId, NextOffset(Some(offset), pages[0]).value, pages[1..], m);
    }
  }

  // --- a table nobody writes to ---

  function Repeated(t: Table, n: nat): (r: seq<Table>)
    ensures |r| == n && forall i :: 0 <= i < n ==> r[i] == t
  {
    seq(n, i => t)
  }

  /** On a fixed table the pages are the rows of the tenant in the order of their ids, cut into pages. */
  lemma FixedTable(t: Table, tenantId: string, pages: seq<seq<NotificationMethod>>)
    requires Traversal(Repeated(t, |pages|), tenantId, "", pages) && "" !in t
    ensures Ascending(Concat(pages))
    ensures forall m :: m in Concat(pages) <==> Owns(t, tenantId, m.id) && m == Of(m.id, t[m.id])
  {
    var tables := Repeated(t, |pages|);
    TraversalAscends(tables, tenantId, "", pages);
    forall m | m in Concat(pages) ensures Owns(t, tenantId, m.id) && m == Of(m.id, t[m.id]) {
      var u := ReturnedWasPresent(tables, tenantId, "", pages, m);
    }
    forall m: NotificationMethod | Owns(t, tenantId, m.id) && m == Of(m.id, t[m.id]) ensures m in Concat(pages) {
      PresentIsReturned(tables, tenantId, "", pages, m.id);
      var k :| k in Concat(pages) && k.id == m.id;
      var u := ReturnedWasPresent(tables, tenantId, "", pages, k);
    }
  }

  // --- how many pages there can be ---

  // What a client has been given so far: every page but the last has a next link.
  ghost predicate Partial(tables: seq<Table>, tenantId: string, offset: string, pages: seq<seq<NotificationMethod>>)
    decreases |pages|
  {
    |tables| == |pages| && (pages == [] ||
      (IsPage(tables[0], tenantId, offset, LIMIT, pages[0]) &&
       (|pages| > 1 ==> |pages[0]| >= LIMIT) &&
       Partial(tables[1..], tenantId, if pages[0] == [] then offset else pages[0][|pages[0]| - 1].id, pages[1..])))
  }

  // The ids of universe above the offset
  function Above(universe: set<string>, offset: string): set<string> {
    set id | id in universe && Less(offset, id)
  }

  lemma {:induction false} AscendingCount(page: seq<NotificationMethod>)
    requires Ascending(page)
    ensures |Ids(page)| == |page|
  {
    if page != [] {
      var n := |page| - 1;
      assert page == page[..n] + [page[n]];
      AscendingCount(page[..n]);
      assert Ids(page) == Ids(page[..n]) + {page[n].id};
      forall m | m in page[..n] ensures m.id != page[n].id { LessTotal(m.id, m.id); }
    }
  }

  // A page uses up as many ids as it has elements.
  lemma PageUsesUp(t: Table, tenantId: string, offset: string, page: seq<NotificationMethod>, universe: set<string>)
    requires IsPage(t, tenantId, offset, LIMIT, page) && page != [] && t.Keys <= universe
    ensures |Above(universe, page[|page| - 1].id)| + |page| <= |Above(universe, offset)|
  {
    AscendingCount(page);
    BehindPage(t, tenantId, offset, page, universe);
    DisjointCount(Above(universe, page[|page| - 1].id), Ids(page), Above(universe, offset));
  }

  lemma BehindPage(t: Table, tenantId: string, offset: string, page: seq<NotificationMethod>, universe: set<string>)
    requires IsPage(t, tenantId, offset, LIMIT, page) && page != [] && t.Keys <= universe
    ensures var rest := Above(universe, page[|page| - 1].id);
            rest !! Ids(page) && rest + Ids(page) <= Above(universe, offset)
  {
    var last := page[|page| - 1];
    assert last in page;
    var rest := Above(universe, last.id);
    forall id | id in rest ensures Less(offset, id) { LessTransitive(offset, last.id, id); }
    forall m | m in page ensures m.id !in rest {
      NotAboveLast(page, m);
    }
  }

  lemma NotAboveLast(page: seq<NotificationMethod>, m: NotificationMethod)
    requires Ascending(page) && m in page
    ensures !Less(page[|page| - 1].id, m.id)
  {
    var i :| 0 <= i < |page| && page[i] == m;
    LessTotal(m.id, page[|page| - 1].id);
  }

  lemma DisjointCount(a: set<string>, b: set<string>, c: set<string>)
    requires a !! b && a + b <= c
    ensures |a| + |b| <= |c|
  {
    SubsetCount(a + b, c);
  }

  /** Traversal terminates: with all ids that ever occur in a finite set, every next link uses up LIMIT of them. */
  lemma {:induction false} PagesAreFew(tables: seq<Table>, tenantId: string, offset: string,
                                       pages: seq<seq<NotificationMethod>>, universe: set<string>)
    requires Partial(tables, tenantId, offset, pages) && pages != []
    requires forall t | t in tables :: t.Keys <= universe
    ensures LIMIT * (|pages| - 1) <= |Above(universe, offset)| <= |universe|
    decreases |pages|
  {
    SubsetCount(Above(universe, offset), universe);
    if |pages| > 1 {
      assert tables[0] in tables && forall t | t in tables[1..] :: t in tables;
      PageUsesUp(tables[0], tenantId, offset, pages[0], universe);
      PagesAreFew(tables[1..], tenantId, pages[0][|pages[0]| - 1].id, pages[1..], universe);
    }
  }
}
