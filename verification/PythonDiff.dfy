/**
 The same difference in update_or_patch_alarm_definition: sets of definitions, compared by all fields but the
 operator and the threshold, in two loops that only remember what to remove.
 */
module PythonDiff {
  import opened Ordering
  import opened SubExpressions

  // same_key_fields
  predicate SameKeyFields(a: SubExpression, b: SubExpression) {
    a.metric == b.metric && a.function_ == b.function_ && a.period == b.period && a.periods == b.periods
  }

  // A stale value shares its key fields with two missing values: the later one in iteration order wins.
  ghost predicate Ambiguous(rows: Rows, wanted: set<SubExpression>) {
    exists o, m, n | o in Stale(rows, wanted) && m in Missing(rows, wanted) && n in Missing(rows, wanted) ::
      m != n && SameKeyFields(o, m) && SameKeyFields(o, n)
  }

  // Two stale values share their key fields with a missing value: both become it.
  ghost predicate Merged(rows: Rows, wanted: set<SubExpression>) {
    exists o, p, n | o in Stale(rows, wanted) && p in Stale(rows, wanted) && n in Missing(rows, wanted) ::
      o != p && SameKeyFields(o, n) && SameKeyFields(p, n)
  }

  // No stale value is stored under two ids.
  ghost predicate StaleOnce(rows: Rows, wanted: set<SubExpression>) {
    forall i, j | i in rows && j in rows && rows[i] == rows[j] && rows[i] !in wanted :: i == j
  }

  // A set of definitions keeps one object of each value, and with it one id.
  ghost predicate Represents(rows: Rows, ids: map<SubExpression, string>) {
    ids.Keys == rows.Values && forall e | e in ids :: ids[e] in rows && rows[ids[e]] == e
  }

  method OldSet(rows: Rows) returns (ids: map<SubExpression, string>)
    ensures Represents(rows, ids)
  {
    ids := map[];
    var left := rows.Keys;
    while left != {}
      invariant left <= rows.Keys
      invariant forall e | e in ids :: ids[e] in rows && rows[ids[e]] == e
      invariant forall id | id in rows && id !in left :: rows[id] in ids
      decreases left
    {
      var id :| id in left;
      left := left - {id};
      if rows[id] !in ids {
        ids := ids[rows[id] := id];
      }
    }
  }

  predicate Matched(o: SubExpression, news: seq<SubExpression>) {
    exists n | n in news :: SameKeyFields(o, n)
  }

  // The last value in iteration order that shares its key fields with o
  function LastMatch(o: SubExpression, news: seq<SubExpression>): (n: SubExpression)
    requires Matched(o, news)
    ensures n in news && SameKeyFields(o, n)
  {
    var last := news[|news| - 1];
    if SameKeyFields(o, last) then last else LastMatch(o, news[..|news| - 1])
  }

  // What the loops compute, for the ids the sets kept and the iteration order of the missing values
  ghost predicate IsDifference(rows: Rows, wanted: set<SubExpression>, ids: map<SubExpression, string>,
                               news: seq<SubExpression>, d: Diff) {
    && Represents(rows, ids) && SetOf(news) == Missing(rows, wanted)
    && ChangedPart(rows, wanted, ids, news, d.changed) && DeletedPart(rows, wanted, ids, news, d.deleted)
    && KeptPart(rows, wanted, ids, d.kept) && CreatedPart(rows, wanted, d.created)
  }

  ghost predicate ChangedPart(rows: Rows, wanted: set<SubExpression>, ids: map<SubExpression, string>,
                              news: seq<SubExpression>, changed: Rows)
    requires Represents(rows, ids)
  {
    && (forall id :: id in changed <==> id in rows && Retired(rows, wanted, ids, id) && Matched(rows[id], news))
    && (forall id | id in changed :: Matched(rows[id], news) && changed[id] == LastMatch(rows[id], news))
  }

  ghost predicate DeletedPart(rows: Rows, wanted: set<SubExpression>, ids: map<SubExpression, string>,
                              news: seq<SubExpression>, deleted: Rows)
    requires Represents(rows, ids)
  {
    && (forall id :: id in deleted <==> id in rows && Retired(rows, wanted, ids, id) && !Matched(rows[id], news))
    && (forall id | id in deleted :: deleted[id] == rows[id])
  }

  ghost predicate KeptPart(rows: Rows, wanted: set<SubExpression>, ids: map<SubExpression, string>, kept: Rows)
    requires Represents(rows, ids)
  {
    && (forall id :: id in kept <==> id in rows && !Retired(rows, wanted, ids, id))
    && (forall id | id in kept :: kept[id] == rows[id])
  }

  ghost predicate CreatedPart(rows: Rows, wanted: set<SubExpression>, created: Rows) {
    && created.Keys !! rows.Keys && DistinctRows(created)
    && (forall n :: n in created.Values <==>
        n in Missing(rows, wanted) && forall o | o in Stale(rows, wanted) :: !SameKeyFields(o, n))
  }

  // The row stands for a stale value.
  ghost predicate Retired(rows: Rows, wanted: set<SubExpression>, ids: map<SubExpression, string>, id: string)
    requires id in rows && Represents(rows, ids)
  {
    rows[id] !in wanted && ids[rows[id]] == id
  }

  // --- the loops ---

  // One row of the outer loop: the inner loop over all missing values
  method MatchAll(o: SubExpression, id: string, news: seq<SubExpression>, newToRemove: set<SubExpression>,
                  changed: Rows)
      returns (removeOld: bool, newNow: set<SubExpression>, changedNow: Rows)
    ensures removeOld <==> Matched(o, news)
    ensures changedNow == if Matched(o, news) then changed[id := LastMatch(o, news)] else changed
    ensures forall n :: n in newNow <==> n in newToRemove || (n in news && SameKeyFields(o, n))
  {
    removeOld, newNow, changedNow := false, newToRemove, changed;
    for i := 0 to |news|
      invariant removeOld <==> Matched(o, news[..i])
      invariant changedNow == if Matched(o, news[..i]) then changed[id := LastMatch(o, news[..i])] else changed
      invariant forall n :: n in newNow <==> n in newToRemove || (n in news[..i] && SameKeyFields(o, n))
    {
      assert news[..i + 1] == news[..i] + [news[i]];
      assert news[..i + 1][..i] == news[..i];
      if SameKeyFields(o, news[i]) {
        assert news[i] in news[..i + 1];
        removeOld := true;
        newNow := newNow + {news[i]};
        changedNow := changedNow[id := news[i]];
      }
    }
    assert news[..|news|] == news;
  }

  // What the two loops remember when the stale values in seen are done
  ghost predicate RemembersOld(news: seq<SubExpression>, seen: set<SubExpression>, oldToRemove: set<SubExpression>) {
    forall o :: o in oldToRemove <==> o in seen && Matched(o, news)
  }

  ghost predicate MatchesOneOf(seen: set<SubExpression>, n: SubExpression) {
    exists o | o in seen :: SameKeyFields(o, n)
  }

  ghost predicate RemembersNew(news: seq<SubExpression>, seen: set<SubExpression>, newToRemove: set<SubExpression>) {
    forall n :: n in newToRemove <==> n in news && MatchesOneOf(seen, n)
  }

  ghost predicate RemembersChanged(rows: Rows, ids: map<SubExpression, string>, news: seq<SubExpression>,
                                   seen: set<SubExpression>, changed: Rows)
    requires Represents(rows, ids) && seen <= rows.Values
  {
    && (forall id :: id in changed <==>
        id in rows && rows[id] in seen && ids[rows[id]] == id && Matched(rows[id], news))
    && (forall id | id in changed :: Matched(rows[id], news) && changed[id] == LastMatch(rows[id], news))
  }

  lemma RememberOldAndNew(news: seq<SubExpression>, seen: set<SubExpression>, oldToRemove: set<SubExpression>,
                          newToRemove: set<SubExpression>, o: SubExpression, newNow: set<SubExpression>)
    requires RemembersOld(news, seen, oldToRemove) && RemembersNew(news, seen, newToRemove)
    requires forall n :: n in newNow <==> n in newToRemove || (n in news && SameKeyFields(o, n))
    ensures RemembersOld(news, seen + {o}, if Matched(o, news) then oldToRemove + {o} else oldToRemove)
    ensures RemembersNew(news, seen + {o}, newNow)
  {
    forall n ensures MatchesOneOf(seen + {o}, n) <==> MatchesOneOf(seen, n) || SameKeyFields(o, n) {
      if SameKeyFields(o, n) { assert o in seen + {o}; }
      if p :| p in seen && SameKeyFields(p, n) { assert p in seen + {o}; }
    }
  }

  lemma RememberChanged(rows: Rows, ids: map<SubExpression, string>, news: seq<SubExpression>, seen: set<SubExpression>,
                        changed: Rows, o: SubExpression)
    requires Represents(rows, ids) && seen <= rows.Values && o in rows.Values - seen
    requires RemembersChanged(rows, ids, news, seen, changed)
    ensures RemembersChanged(rows, ids, news, seen + {o},
                             if Matched(o, news) then changed[ids[o] := LastMatch(o, news)] else changed)
  {
  }

  method FindChanged(rows: Rows, wanted: set<SubExpression>, ids: map<SubExpression, string>)
      returns (news: seq<SubExpression>, oldToRemove: set<SubExpression>, newToRemove: set<SubExpression>,
               changed: Rows)
    requires Represents(rows, ids)
    ensures SetOf(news) == Missing(rows, wanted)
    ensures RemembersOld(news, Stale(rows, wanted), oldToRemove) && RemembersNew(news, Stale(rows, wanted), newToRemove)
    ensures RemembersChanged(rows, ids, news, Stale(rows, wanted), changed)
  {
    news := ListOf(Missing(rows, wanted));
    oldToRemove, newToRemove, changed := {}, {}, map[];
    var left := Stale(rows, wanted);
    while left != {}
      invariant left <= Stale(rows, wanted)
      invariant RemembersOld(news, Stale(rows, wanted) - left, oldToRemove)
      invariant RemembersNew(news, Stale(rows, wanted) - left, newToRemove)
      invariant RemembersChanged(rows, ids, news, Stale(rows, wanted) - left, changed)
      decreases left
    {
      var o :| o in left;
      var removeOld, newNow, changedNow := MatchAll(o, ids[o], news, newToRemove, changed);
      RememberOldAndNew(news, Stale(rows, wanted) - left, oldToRemove, newToRemove, o, newNow);
      RememberChanged(rows, ids, news, Stale(rows, wanted) - left, changed, o);
      assert Stale(rows, wanted) - left + {o} == Stale(rows, wanted) - (left - {o});
      if removeOld {
        oldToRemove := oldToRemove + {o};
      }
      newToRemove, changed := newNow, changedNow;
      left := left - {o};
    }
    assert Stale(rows, wanted) - left == Stale(rows, wanted);
  }

  // unchanged_sub_alarm_defs_dict_by_id after both deletions
  function KeptRows(rows: Rows, ids: map<SubExpression, string>, oldDefs: set<SubExpression>, changed: Rows): Rows
    requires Represents(rows, ids)
  {
    map id | id in rows && !(rows[id] in oldDefs && ids[rows[id]] == id) && id !in changed :: rows[id]
  }

  function DeletedRows(rows: Rows, ids: map<SubExpression, string>, oldDefs: set<SubExpression>): Rows
    requires Represents(rows, ids)
  {
    map id | id in rows && rows[id] in oldDefs && ids[rows[id]] == id :: rows[id]
  }

  lemma PartsFit(rows: Rows, wanted: set<SubExpression>, ids: map<SubExpression, string>, news: seq<SubExpression>,
                 oldToRemove: set<SubExpression>, changed: Rows)
    requires Represents(rows, ids) && RemembersOld(news, Stale(rows, wanted), oldToRemove)
    requires RemembersChanged(rows, ids, news, Stale(rows, wanted), changed)
    ensures ChangedPart(rows, wanted, ids, news, changed)
    ensures DeletedPart(rows, wanted, ids, news, DeletedRows(rows, ids, Stale(rows, wanted) - oldToRemove))
    ensures KeptPart(rows, wanted, ids, KeptRows(rows, ids, Stale(rows, wanted) - oldToRemove, changed))
  {
  }

  lemma CreatedFits(rows: Rows, wanted: set<SubExpression>, news: seq<SubExpression>, newToRemove: set<SubExpression>,
                    created: Rows)
    requires SetOf(news) == Missing(rows, wanted) && RemembersNew(news, Stale(rows, wanted), newToRemove)
    requires created.Values == Missing(rows, wanted) - newToRemove && created.Keys !! rows.Keys && DistinctRows(created)
    ensures CreatedPart(rows, wanted, created)
  {
    forall n ensures n in created.Values <==>
      n in Missing(rows, wanted) && forall o | o in Stale(rows, wanted) :: !SameKeyFields(o, n) {
      assert n in Missing(rows, wanted) <==> n in SetOf(news);
      assert MatchesOneOf(Stale(rows, wanted), n) <==> !forall o | o in Stale(rows, wanted) :: !SameKeyFields(o, n);
    }
  }

  method SubAlarmDifference(rows: Rows, subExprList: seq<SubExpression>, uuids: seq<string>) returns (d: Diff)
    requires FreshIds(uuids, rows) && |uuids| >= |SetOf(subExprList)|
    ensures exists ids, order :: IsDifference(rows, SetOf(subExprList), ids, order, d)
  {
    var wanted := SetOf(subExprList);
    var objects := OldSet(rows);
    var news, oldToRemove, newToRemove, changed := FindChanged(rows, wanted, objects);
    var oldDefs := Stale(rows, wanted) - oldToRemove;
    var newDefs := Missing(rows, wanted) - newToRemove;
    PartsFit(rows, wanted, objects, news, oldToRemove, changed);
    SubsetCount(newDefs, wanted);
    var created := CreateRows(newDefs, uuids);
    assert created.Keys !! rows.Keys;
    CreatedFits(rows, wanted, news, newToRemove, created);
    d := Diff(DeletedRows(rows, objects, oldDefs), changed, KeptRows(rows, objects, oldDefs, changed), created);
    assert IsDifference(rows, wanted, objects, news, d);
  }

  // --- the ids ---

  /** The ids are always partitioned, also when sub-expressions are duplicated. */
  lemma IdsArePartitioned(rows: Rows, wanted: set<SubExpression>, ids: map<SubExpression, string>,
                          news: seq<SubExpression>, d: Diff)
    requires IsDifference(rows, wanted, ids, news, d)
    ensures d.deleted.Keys !! d.changed.Keys && d.deleted.Keys !! d.kept.Keys && d.changed.Keys !! d.kept.Keys
    ensures d.deleted.Keys + d.changed.Keys + d.kept.Keys == rows.Keys
    ensures forall id | id in d.changed ::
            id in rows && SameKeyFields(rows[id], d.changed[id]) && d.changed[id] in Missing(rows, wanted)
  {
    ChangedIsMissing(rows, wanted, ids, news, d.changed);
    forall id ensures (id in rows <==> id in d.deleted || id in d.changed || id in d.kept) && OneOf(d, id) {
      OneOfThree(rows, wanted, ids, news, d, id);
    }
  }

  lemma ChangedIsMissing(rows: Rows, wanted: set<SubExpression>, ids: map<SubExpression, string>,
                         news: seq<SubExpression>, changed: Rows)
    requires Represents(rows, ids) && SetOf(news) == Missing(rows, wanted) &&
             ChangedPart(rows, wanted, ids, news, changed)
    ensures forall id | id in changed ::
            id in rows && SameKeyFields(rows[id], changed[id]) && changed[id] in Missing(rows, wanted)
  {
    forall id | id in changed ensures SameKeyFields(rows[id], changed[id]) && changed[id] in Missing(rows, wanted) {
      assert changed[id] in SetOf(news);
    }
  }

  predicate OneOf(d: Diff, id: string) {
    !(id in d.deleted && id in d.changed) && !(id in d.deleted && id in d.kept) && !(id in d.changed && id in d.kept)
  }

  lemma OneOfThree(rows: Rows, wanted: set<SubExpression>, ids: map<SubExpression, string>, news: seq<SubExpression>,
                   d: Diff, id: string)
    requires IsDifference(rows, wanted, ids, news, d)
    ensures (id in rows <==> id in d.deleted || id in d.changed || id in d.kept) && OneOf(d, id)
  {
  }

  // --- the table after the update ---

  lemma WrittenIsValue(row: SubExpression, value: SubExpression)
    requires SameKeyFields(row, value)
    ensures Written(row, value) == value
  {
  }

  lemma AppliedRow(rows: Rows, wanted: set<SubExpression>, ids: map<SubExpression, string>, news: seq<SubExpression>,
                   d: Diff, id: string)
    requires IsDifference(rows, wanted, ids, news, d)
    ensures id in Applied(rows, d) <==> (id in rows && id !in d.deleted) || id in d.created
    ensures id in Applied(rows, d) ==>
              Applied(rows, d)[id] ==
                if id in d.created then d.created[id] else if id in d.changed then d.changed[id] else rows[id]
  {
    if id in d.changed {
      ChangedIsMissing(rows, wanted, ids, news, d.changed);
      WrittenIsValue(rows[id], d.changed[id]);
    }
  }

  lemma AppliedAt(rows: Rows, wanted: set<SubExpression>, ids: map<SubExpression, string>, news: seq<SubExpression>,
                  d: Diff)
    requires IsDifference(rows, wanted, ids, news, d)
    ensures var after := Applied(rows, d); after.Keys == rows.Keys - d.deleted.Keys + d.created.Keys
    ensures var after := Applied(rows, d);
            forall id | id in after :: after[id] == if id in d.created then d.created[id]
                                                    else if id in d.changed then d.changed[id] else rows[id]
  {
    forall id ensures id in Applied(rows, d) <==> (id in rows && id !in d.deleted) || id in d.created {
      AppliedRow(rows, wanted, ids, news, d, id);
    }
    forall id | id in Applied(rows, d)
      ensures Applied(rows, d)[id] ==
              if id in d.created then d.created[id] else if id in d.changed then d.changed[id] else rows[id]
    {
      AppliedRow(rows, wanted, ids, news, d, id);
    }
  }

  lemma MissingIsPresent(rows: Rows, wanted: set<SubExpression>, ids: map<SubExpression, string>,
                         news: seq<SubExpression>, d: Diff,
                         n: SubExpression)
    requires IsDifference(rows, wanted, ids, news, d) && n in Missing(rows, wanted) && !Ambiguous(rows, wanted)
    ensures n in Applied(rows, d).Values
  {
    var after := Applied(rows, d);
    AppliedAt(rows, wanted, ids, news, d);
    if o :| o in Stale(rows, wanted) && SameKeyFields(o, n) {
      assert n in SetOf(news);
      assert Matched(o, news);
      assert LastMatch(o, news) in SetOf(news);
      var id := ids[o];
      assert d.changed[id] == n;
      assert after[id] == n;
    } else {
      assert n in d.created.Values;
      var id :| id in d.created && d.created[id] == n;
      assert after[id] == n;
    }
  }

  lemma ExpressionIsPresent(rows: Rows, wanted: set<SubExpression>, ids: map<SubExpression, string>,
                            news: seq<SubExpression>, d: Diff)
    requires IsDifference(rows, wanted, ids, news, d) && !Ambiguous(rows, wanted)
    ensures wanted <= Applied(rows, d).Values
  {
    var after := Applied(rows, d);
    AppliedAt(rows, wanted, ids, news, d);
    forall e | e in wanted ensures e in after.Values {
      if e in rows.Values {
        var id :| id in rows && rows[id] == e;
        assert after[id] == e;
      } else {
        MissingIsPresent(rows, wanted, ids, news, d, e);
      }
    }
  }

  lemma OnlyOneId(rows: Rows, wanted: set<SubExpression>, ids: map<SubExpression, string>, id: string)
    requires Represents(rows, ids) && StaleOnce(rows, wanted) && id in rows
    ensures rows[id] in wanted || Retired(rows, wanted, ids, id)
  {
    assert rows[id] in ids && rows[ids[rows[id]]] == rows[id];
  }

  lemma NothingElse(rows: Rows, wanted: set<SubExpression>, ids: map<SubExpression, string>, news: seq<SubExpression>,
                    d: Diff)
    requires IsDifference(rows, wanted, ids, news, d) && StaleOnce(rows, wanted)
    ensures Applied(rows, d).Values <= wanted
  {
    var after := Applied(rows, d);
    AppliedAt(rows, wanted, ids, news, d);
    IdsArePartitioned(rows, wanted, ids, news, d);
    forall id | id in after ensures after[id] in wanted {
      if id in d.created {
        assert after[id] in d.created.Values;
      } else if id !in d.changed {
        OnlyOneId(rows, wanted, ids, id);
      }
    }
  }

  // A stale value with a second id stays in the table under it.
  lemma StaleStays(rows: Rows, wanted: set<SubExpression>, ids: map<SubExpression, string>, news: seq<SubExpression>,
                   d: Diff,
                   i: string, j: string)
    requires IsDifference(rows, wanted, ids, news, d)
    requires i in rows && j in rows && rows[i] == rows[j] && rows[i] !in wanted && i != j
    ensures rows[i] in Applied(rows, d).Values
  {
    AppliedAt(rows, wanted, ids, news, d);
    var k := if ids[rows[i]] == i then j else i;
    assert k in d.kept;
    assert Applied(rows, d)[k] == rows[i];
  }

  // Of two missing values that match one stale value the earlier one is in no row.
  lemma EarlierIsLost(rows: Rows, wanted: set<SubExpression>, ids: map<SubExpression, string>, news: seq<SubExpression>,
                      d: Diff,
                      o: SubExpression, m: SubExpression, n: SubExpression)
    requires IsDifference(rows, wanted, ids, news, d)
    requires o in Stale(rows, wanted) && m in Missing(rows, wanted) && n in Missing(rows, wanted)
    requires m != n && SameKeyFields(o, m) && SameKeyFields(o, n)
    ensures !(m in Applied(rows, d).Values && n in Applied(rows, d).Values)
  {
    AppliedAt(rows, wanted, ids, news, d);
    var after := Applied(rows, d);
    assert m in SetOf(news) && n in SetOf(news);
    var lost := if LastMatch(o, news) == m then n else m;
    forall id | id in after ensures after[id] != lost {
      if id in d.created {
        assert d.created[id] in d.created.Values;
      } else if id in d.changed && after[id] == lost {
        SameKeySameMatch(rows[id], o, news);
      }
    }
  }

  lemma {:induction false} SameKeySameMatch(a: SubExpression, b: SubExpression, news: seq<SubExpression>)
    requires Matched(a, news) && Matched(b, news) && SameKeyFields(a, b)
    ensures LastMatch(a, news) == LastMatch(b, news)
  {
    var last := news[|news| - 1];
    if !SameKeyFields(a, last) {
      var rest := news[..|news| - 1];
      assert news == rest + [last];
      assert Matched(a, rest) && Matched(b, rest) by {
        var n :| n in news && SameKeyFields(a, n);
        assert n in rest;
      }
      SameKeySameMatch(a, b, rest);
    }
  }

  /**
   Applying the difference refines replacing the rows: the values of the table are the new sub-expressions just
   if no stale value is stored twice and none shares its key fields with two missing values.
   */
  lemma TableIsExpression(rows: Rows, wanted: set<SubExpression>, ids: map<SubExpression, string>,
                          news: seq<SubExpression>, d: Diff)
    requires IsDifference(rows, wanted, ids, news, d)
    ensures Applied(rows, d).Values == wanted <==> StaleOnce(rows, wanted) && !Ambiguous(rows, wanted)
  {
    if !StaleOnce(rows, wanted) {
      var i, j :| i in rows && j in rows && rows[i] == rows[j] && rows[i] !in wanted && i != j;
      StaleStays(rows, wanted, ids, news, d, i, j);
    } else if Ambiguous(rows, wanted) {
      var o, m, n :| o in Stale(rows, wanted) && m in Missing(rows, wanted) && n in Missing(rows, wanted) &&
        m != n && SameKeyFields(o, m) && SameKeyFields(o, n);
      EarlierIsLost(rows, wanted, ids, news, d, o, m, n);
    } else {
      ExpressionIsPresent(rows, wanted, ids, news, d);
      NothingElse(rows, wanted, ids, news, d);
    }
  }

  /** Rows that are not deleted keep their id; unless changed also their value, and in any case their key fields. */
  lemma SurvivorsKeepTheirId(rows: Rows, wanted: set<SubExpression>, ids: map<SubExpression, string>,
                             news: seq<SubExpression>, d: Diff,
                             id: string)
    requires IsDifference(rows, wanted, ids, news, d) && id in rows
    ensures id in Applied(rows, d) <==> id !in d.deleted
    ensures id in Applied(rows, d) ==> SameKeyFields(rows[id], Applied(rows, d)[id])
    ensures rows[id] in wanted ==> id in Applied(rows, d) && Applied(rows, d)[id] == rows[id]
  {
    AppliedAt(rows, wanted, ids, news, d);
    IdsArePartitioned(rows, wanted, ids, news, d);
  }

  // --- which rows keep their id, by the columns ---

  lemma SameKeyIff(a: SubExpression, b: SubExpression)
    ensures SameKeyFields(a, b) <==> Written(a, b) == b
  {
  }

  // Writing operator and threshold of a missing value into the row makes it that value.
  ghost predicate CanBecome(row: SubExpression, rows: Rows, wanted: set<SubExpression>) {
    exists n | n in Missing(rows, wanted) :: Written(row, n) == n
  }

  lemma MatchedIff(rows: Rows, wanted: set<SubExpression>, news: seq<SubExpression>, row: SubExpression)
    requires SetOf(news) == Missing(rows, wanted)
    ensures Matched(row, news) <==> CanBecome(row, rows, wanted)
  {
    if Matched(row, news) {
      var n :| n in news && SameKeyFields(row, n);
      assert n in SetOf(news) && Written(row, n) == n;
    }
    if n :| n in Missing(rows, wanted) && Written(row, n) == n {
      assert n in SetOf(news) && n in news;
      SameKeyIff(row, n);
    }
  }

  /**
   The id kept for a stale value is changed just if some missing value agrees with it in all but the operator and the
   threshold, and becomes such a value; it is deleted just if none does.
   */
  lemma StaleIsChangedIff(rows: Rows, wanted: set<SubExpression>, ids: map<SubExpression, string>,
                          news: seq<SubExpression>, d: Diff, row: SubExpression)
    requires IsDifference(rows, wanted, ids, news, d) && row in Stale(rows, wanted)
    ensures row in ids && (ids[row] in d.changed <==> CanBecome(row, rows, wanted))
    ensures ids[row] in d.deleted <==>
            forall n | n in Missing(rows, wanted) ::
              !(n.metric == row.metric && n.function_ == row.function_ && n.period == row.period &&
                n.periods == row.periods)
    ensures ids[row] in d.changed ==>
            ids[row] in Applied(rows, d) && Applied(rows, d)[ids[row]] in Missing(rows, wanted) &&
            OthersAgree(row, Applied(rows, d)[ids[row]])
  {
    MatchedIff(rows, wanted, news, row);
    AppliedAt(rows, wanted, ids, news, d);
    ChangedIsMissing(rows, wanted, ids, news, d.changed);
    var id := ids[row];
    assert rows[id] == row;
    IdsArePartitioned(rows, wanted, ids, news, d);
    if id in d.changed {
      assert id !in d.created;
    }
    assert CanBecome(row, rows, wanted) <==> exists n | n in Missing(rows, wanted) :: OthersAgree(row, n) by {
      forall n ensures Written(row, n) == n <==> OthersAgree(row, n) {
        WrittenIff(row, n);
      }
    }
  }

  /**
   A row keeps its id just if its value is wanted, or a missing value differs from it in operator and threshold alone,
   or the value is stored a second time under the id that is dealt with.
   */
  lemma KeepsItsIdIff(rows: Rows, wanted: set<SubExpression>, ids: map<SubExpression, string>,
                      news: seq<SubExpression>, d: Diff, id: string)
    requires IsDifference(rows, wanted, ids, news, d) && id in rows
    ensures id in Applied(rows, d) <==>
            rows[id] in wanted || CanBecome(rows[id], rows, wanted) || ids[rows[id]] != id
  {
    MatchedIff(rows, wanted, news, rows[id]);
    SurvivorsKeepTheirId(rows, wanted, ids, news, d, id);
  }

  /** A missing value gets a new row just if no stale row could become it. */
  lemma IsCreatedIff(rows: Rows, wanted: set<SubExpression>, ids: map<SubExpression, string>,
                     news: seq<SubExpression>, d: Diff, n: SubExpression)
    requires IsDifference(rows, wanted, ids, news, d) && n in Missing(rows, wanted)
    ensures n in d.created.Values <==> forall row | row in Stale(rows, wanted) :: Written(row, n) != n
  {
    forall row ensures SameKeyFields(row, n) <==> Written(row, n) == n {
      SameKeyIff(row, n);
    }
  }

  // --- each sub-expression in one row ---

  lemma OnlyMatch(rows: Rows, wanted: set<SubExpression>, ids: map<SubExpression, string>, news: seq<SubExpression>,
                  d: Diff,
                  o: SubExpression, n: SubExpression)
    requires IsDifference(rows, wanted, ids, news, d) && !Ambiguous(rows, wanted)
    requires o in Stale(rows, wanted) && n in Missing(rows, wanted) && SameKeyFields(o, n)
    ensures ids[o] in rows && ids[o] in d.changed && d.changed[ids[o]] == n
  {
    assert n in SetOf(news);
    assert Matched(o, news);
    assert LastMatch(o, news) in SetOf(news);
  }

  lemma MergedTwice(rows: Rows, wanted: set<SubExpression>, ids: map<SubExpression, string>, news: seq<SubExpression>,
                    d: Diff)
    requires IsDifference(rows, wanted, ids, news, d) && !Ambiguous(rows, wanted) && Merged(rows, wanted)
    ensures !DistinctRows(Applied(rows, d))
  {
    var o, p, n :| o in Stale(rows, wanted) && p in Stale(rows, wanted) && n in Missing(rows, wanted) &&
      o != p && SameKeyFields(o, n) && SameKeyFields(p, n);
    OnlyMatch(rows, wanted, ids, news, d, o, n);
    OnlyMatch(rows, wanted, ids, news, d, p, n);
    AppliedAt(rows, wanted, ids, news, d);
    var i, j := ids[o], ids[p];
    assert rows[i] == o && rows[j] == p;
    assert Applied(rows, d)[i] == n && Applied(rows, d)[j] == n;
  }

  lemma WantedTwice(rows: Rows, wanted: set<SubExpression>, ids: map<SubExpression, string>, news: seq<SubExpression>,
                    d: Diff)
    requires IsDifference(rows, wanted, ids, news, d) && StaleOnce(rows, wanted) && !DistinctRows(rows)
    ensures !DistinctRows(Applied(rows, d))
  {
    var i, j :| i in rows && j in rows && rows[i] == rows[j] && i != j;
    SurvivorsKeepTheirId(rows, wanted, ids, news, d, i);
    SurvivorsKeepTheirId(rows, wanted, ids, news, d, j);
    assert Applied(rows, d)[i] == Applied(rows, d)[j];
  }

  // Where a row of the table comes from
  lemma RowOrigin(rows: Rows, wanted: set<SubExpression>, ids: map<SubExpression, string>, news: seq<SubExpression>,
                  d: Diff, id: string)
    requires IsDifference(rows, wanted, ids, news, d) && id in Applied(rows, d)
    ensures var v := Applied(rows, d)[id];
            if id in d.created then v == d.created[id] && v in Missing(rows, wanted) &&
              forall o | o in Stale(rows, wanted) :: !SameKeyFields(o, v)
            else if id in d.changed then id in rows && rows[id] in Stale(rows, wanted) && SameKeyFields(rows[id], v) &&
              v in Missing(rows, wanted)
            else id in rows && v == rows[id]
  {
    AppliedAt(rows, wanted, ids, news, d);
    IdsArePartitioned(rows, wanted, ids, news, d);
    if id in d.created {
      assert d.created[id] in d.created.Values;
    }
  }

  lemma EachOnce(rows: Rows, wanted: set<SubExpression>, ids: map<SubExpression, string>, news: seq<SubExpression>,
                 d: Diff)
    requires IsDifference(rows, wanted, ids, news, d) && DistinctRows(rows) && !Merged(rows, wanted)
    ensures DistinctRows(Applied(rows, d))
  {
    var after := Applied(rows, d);
    forall i, j | i in after && j in after && after[i] == after[j] ensures i == j {
      RowOrigin(rows, wanted, ids, news, d, i);
      RowOrigin(rows, wanted, ids, news, d, j);
    }
  }

  /**
   The update leaves each sub-expression in exactly one row just if the rows were distinct and the match is one to one.
   */
  lemma TableHoldsEachOnce(rows: Rows, wanted: set<SubExpression>, ids: map<SubExpression, string>,
                           news: seq<SubExpression>, d: Diff)
    requires IsDifference(rows, wanted, ids, news, d)
    ensures Applied(rows, d).Values == wanted && DistinctRows(Applied(rows, d)) <==>
            DistinctRows(rows) && !Ambiguous(rows, wanted) && !Merged(rows, wanted)
  {
    TableIsExpression(rows, wanted, ids, news, d);
    if DistinctRows(rows) && !Merged(rows, wanted) {
      EachOnce(rows, wanted, ids, news, d);
    }
    if StaleOnce(rows, wanted) && !Ambiguous(rows, wanted) {
      if Merged(rows, wanted) {
        MergedTwice(rows, wanted, ids, news, d);
      } else if !DistinctRows(rows) {
        WantedTwice(rows, wanted, ids, news, d);
      }
    }
  }

  // --- a comparison that is turned round ---

  // max(m) < threshold
  function Below(m: MetricDefinition, threshold: real): SubExpression {
    SubExpression("MAX", m, "LT", threshold, 60, 1)
  }

  lemma TurnedRound(m: MetricDefinition)
    ensures var rows, wanted := OneRow(m), SetOf([Below(m, 5.0)]);
            Stale(rows, wanted) == {Above(m, 5.0)} && Missing(rows, wanted) == wanted == {Below(m, 5.0)}
  {
    assert "GT"[0] != "LT"[0];
    assert OneRow(m)["i"] == Above(m, 5.0);
    assert OneRow(m).Values == {Above(m, 5.0)};
    assert SetOf([Below(m, 5.0)]) == {Below(m, 5.0)};
  }

  /** max(m) > 5 is stored and max(m) < 5 is wanted: the row keeps its id, and no row is made. */
  method TurnedRoundKeepsItsId(m: MetricDefinition) returns (d: Diff)
    ensures d.deleted == map[] && d.created == map[] && d.changed == map["i" := Below(m, 5.0)]
    ensures Applied(OneRow(m), d) == map["i" := Below(m, 5.0)]
  {
    var wanted := [Below(m, 5.0)];
    TurnedRound(m);
    assert FreshIds(TWO_IDS, OneRow(m)) by { OneRowForTwoValues(m); }
    d := SubAlarmDifference(OneRow(m), wanted, TWO_IDS);
    ghost var ids, order :| IsDifference(OneRow(m), SetOf(wanted), ids, order, d);
    IsTurnedRound(m, ids, order, d);
  }

  lemma IsTurnedRound(m: MetricDefinition, ids: map<SubExpression, string>, news: seq<SubExpression>, d: Diff)
    requires IsDifference(OneRow(m), SetOf([Below(m, 5.0)]), ids, news, d)
    ensures d.deleted == map[] && d.created == map[] && d.changed == map["i" := Below(m, 5.0)]
    ensures Applied(OneRow(m), d) == map["i" := Below(m, 5.0)]
  {
    var rows, wanted, row := OneRow(m), SetOf([Below(m, 5.0)]), Above(m, 5.0);
    TurnedRound(m);
    assert row in Stale(rows, wanted) && Below(m, 5.0) in Missing(rows, wanted) &&
      Written(row, Below(m, 5.0)) == Below(m, 5.0);
    StaleIsChangedIff(rows, wanted, ids, news, d, row);
    IsCreatedIff(rows, wanted, ids, news, d, Below(m, 5.0));
    AppliedAt(rows, wanted, ids, news, d);
    IdsArePartitioned(rows, wanted, ids, news, d);
    assert ids[row] == "i";
    assert d.created.Values == {};
  }

  // --- a value that is lost ---

  lemma OneRowIsAmbiguous(m: MetricDefinition)
    ensures DistinctRows(OneRow(m)) && Ambiguous(OneRow(m), SetOf(TwoValues(m)))
  {
    OneRowForTwoValues(m);
    var o, p, q := Above(m, 5.0), Above(m, 6.0), Above(m, 7.0);
    assert o in Stale(OneRow(m), SetOf(TwoValues(m)));
    assert p in Missing(OneRow(m), SetOf(TwoValues(m))) && q in Missing(OneRow(m), SetOf(TwoValues(m)));
    assert p != q && SameKeyFields(o, p) && SameKeyFields(o, q);
  }

  /** max(m) > 5 is stored, and max(m) > 6 and max(m) > 7 is wanted: the table does not become the expression. */
  method OneOfTwoIsLost(m: MetricDefinition) returns (d: Diff)
    ensures Applied(OneRow(m), d).Values != SetOf(TwoValues(m))
  {
    OneRowForTwoValues(m);
    OneRowIsAmbiguous(m);
    d := SubAlarmDifference(OneRow(m), TwoValues(m), TWO_IDS);
    ghost var ids, order :| IsDifference(OneRow(m), SetOf(TwoValues(m)), ids, order, d);
    TableIsExpression(OneRow(m), SetOf(TwoValues(m)), ids, order, d);
  }
}
