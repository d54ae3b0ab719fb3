/** The key of a metric message: tenant, name and the dimensions in a known order. */
module MetricKey {
  import opened Text
  import opened Ordering

  type Dimension = (string, string)

  // The comparator of buildSortedDimSet
  predicate Before(a: Dimension, b: Dimension) {
    Less(a.0, b.0) || (a.0 == b.0 && Less(a.1, b.1))
  }

  lemma {:induction false} BeforeLaws(a: Dimension, b: Dimension, c: Dimension)
    ensures Before(a, b) ==> !Before(b, a)
    ensures Before(a, b) && Before(b, c) ==> Before(a, c)
    ensures Before(a, b) || a == b || Before(b, a)
  {
    LessTotal(a.0, b.0);
    LessTotal(a.1, b.1);
    if Less(a.0, b.0) && Less(b.0, c.0) { LessTransitive(a.0, b.0, c.0); }
    if Less(a.1, b.1) && Less(b.1, c.1) { LessTransitive(a.1, b.1, c.1); }
    assert a == (a.0, a.1) && b == (b.0, b.1);
  }

  lemma {:induction false} BeforeIsStrictTotal()
    ensures StrictTotal(Before)
  {
    forall a, b ensures !(Before(a, b) && Before(b, a)) && (Before(a, b) || a == b || Before(b, a)) {
      BeforeLaws(a, b, a);
    }
    forall a, b, c ensures Before(a, b) && Before(b, c) ==> Before(a, c) {
      BeforeLaws(a, b, c);
    }
  }

  function DimensionsText(dims: seq<Dimension>): string {
    if dims == [] then "" else DimensionsText(dims[..|dims| - 1]) + dims[|dims| - 1].0 + dims[|dims| - 1].1
  }

  // The key, for the dimensions in the order in which the map gives its entries
  function KeyText(tenant: string, name: string, entries: seq<Dimension>): string {
    tenant + name + DimensionsText(Sort(entries, Before))
  }

  method EntriesOf(dimMap: map<string, string>) returns (entries: seq<Dimension>)
    ensures Enumerates(entries, dimMap)
  {
    entries := [];
    var left := dimMap.Keys;
    while left != {}
      invariant left <= dimMap.Keys && Distinct(entries)
      invariant forall d | d in entries :: d.0 in dimMap && dimMap[d.0] == d.1 && d.0 !in left
      invariant forall k | k in dimMap && k !in left :: (k, dimMap[k]) in entries
      decreases left
    {
      var k :| k in left;
      left := left - {k};
      entries := entries + [(k, dimMap[k])];
    }
  }

  /** Equal metrics get the same key: it does not depend on the order in which the map is iterated. */
  lemma {:induction false} KeyForgetsOrder(tenant: string, name: string, a: seq<Dimension>, b: seq<Dimension>,
                                           dimMap: map<string, string>)
    requires Enumerates(a, dimMap) && Enumerates(b, dimMap)
    ensures KeyText(tenant, name, a) == KeyText(tenant, name, b)
  {
    BeforeIsStrictTotal();
    EnumerationsAgree(a, b, dimMap);
    SortForgetsOrder(a, b, Before);
  }

  /** The key starts with tenant and name; name and value of the dimension with the greatest name stand at its end. */
  lemma KeyEndsWith(tenant: string, name: string, rest: seq<Dimension>, last: Dimension)
    requires forall d | d in rest :: Less(d.0, last.0)
    ensures KeyText(tenant, name, []) == tenant + name
    ensures KeyText(tenant, name, rest + [last]) == KeyText(tenant, name, rest) + last.0 + last.1
  {
    var sorted := Sort(rest, Before);
    assert forall d | d in rest :: Before(d, last);
    LastSortsLast(rest, last);
    assert (sorted + [last])[..|sorted|] == sorted;
    assert tenant + name + "" == tenant + name;
    Regroup(tenant + name, DimensionsText(sorted), last);
  }

  lemma Regroup(front: string, dims: string, d: Dimension)
    ensures front + (dims + d.0 + d.1) == front + dims + d.0 + d.1
  {
  }

  lemma LastSortsLast(rest: seq<Dimension>, last: Dimension)
    requires forall d | d in rest :: Before(d, last)
    ensures Sort(rest + [last], Before) == Sort(rest, Before) + [last]
  {
    BeforeIsStrictTotal();
    var sorted := Sort(rest, Before);
    SortSorts(rest, Before);
    SortSorts(rest + [last], Before);
    forall i | 0 <= i < |sorted| ensures !Before(last, sorted[i]) {
      assert sorted[i] in multiset(rest);
      BeforeLaws(sorted[i], last, last);
    }
    SortedUnique(Sort(rest + [last], Before), sorted + [last], Before);
  }

  method BuildKey(metricTenantId: string, name: string, dimensions: Option<map<string, string>>)
      returns (keyValue: string)
    ensures dimensions.None? ==> keyValue == metricTenantId + name
    ensures dimensions.Some? ==> forall entries | Enumerates(entries, dimensions.value) ::
            keyValue == KeyText(metricTenantId, name, entries)
  {
    var key := metricTenantId;
    key := key + name;
    ghost var front := key;
    if dimensions.Some? {
      var entries := EntriesOf(dimensions.value);
      var dims := Sort(entries, Before);
      for i := 0 to |dims|
        invariant key == front + DimensionsText(dims[..i])
      {
        assert dims[..i + 1][..i] == dims[..i];
        key := key + dims[i].0;
        key := key + dims[i].1;
      }
      assert dims[..|dims|] == dims;
      forall other | Enumerates(other, dimensions.value) ensures key == KeyText(metricTenantId, name, other) {
        KeyForgetsOrder(metricTenantId, name, entries, other, dimensions.value);
      }
    }
    keyValue := key;
  }

  // Different metrics may share a key: the parts are not separated.
  lemma {:induction false} KeysMayCollide(tenant: string)
    ensures KeyText(tenant, "m", [("ab", "c")]) == KeyText(tenant, "m", [("a", "bc")])
  {
    assert Sort([("ab", "c")], Before) == [("ab", "c")];
    assert Sort([("a", "bc")], Before) == [("a", "bc")];
    assert DimensionsText([("ab", "c")]) == "abc" by { assert [("ab", "c")][..0] == []; }
    assert DimensionsText([("a", "bc")]) == "abc" by { assert [("a", "bc")][..0] == []; }
  }
}
