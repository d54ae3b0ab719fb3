/**
 subExpressionsFor of the alarm definition service: stored sub-expressions are matched with those of a new
 expression by their metric, in one pass of two iterators that remove what they match.
 */
module JavaDiff {
  import opened Ordering
  import opened SubExpressions

  datatype Outcome =
    | ValueAlreadyPresent   // HashBiMap.create: a value is stored twice
    | IllegalState          // Iterator.remove a second time for one element
    | Ok(diff: Diff)

  predicate SameKeyFields(a: SubExpression, b: SubExpression) {
    a.metric == b.metric
  }

  // Some stale row shares its metric with two missing values.
  ghost predicate Ambiguous(rows: Rows, wanted: set<SubExpression>) {
    exists o, m, n | o in Stale(rows, wanted) && m in Missing(rows, wanted) && n in Missing(rows, wanted) ::
      m != n && SameKeyFields(o, m) && SameKeyFields(o, n)
  }

  // --- what the difference is to be ---

  ghost predicate IdsPartition(rows: Rows, d: Diff) {
    && d.deleted.Keys !! d.changed.Keys !! d.kept.Keys
    && d.deleted.Keys + d.changed.Keys + d.kept.Keys == rows.Keys
    && d.created.Keys !! rows.Keys
  }

  ghost predicate ValuesPartition(wanted: set<SubExpression>, d: Diff) {
    && d.changed.Values !! d.kept.Values !! d.created.Values
    && d.changed.Values + d.kept.Values + d.created.Values == wanted
    && DistinctRows(d.changed) && DistinctRows(d.kept) && DistinctRows(d.created)
  }

  ghost predicate KeepsRows(rows: Rows, wanted: set<SubExpression>, d: Diff) {
    && (forall id | id in d.deleted :: id in rows && rows[id] == d.deleted[id] && rows[id] !in wanted)
    && (forall id | id in d.kept :: id in rows && rows[id] == d.kept[id])
    && (forall id | id in d.changed :: id in rows && rows[id] !in wanted && SameKeyFields(rows[id], d.changed[id]))
  }

  // What is deleted and what is inserted have no metric in common.
  ghost predicate MatchesAll(d: Diff) {
    forall i, j | i in d.deleted && j in d.created :: !SameKeyFields(d.deleted[i], d.created[j])
  }

  ghost predicate IsDifference(rows: Rows, wanted: set<SubExpression>, d: Diff) {
    IdsPartition(rows, d) && ValuesPartition(wanted, d) && KeepsRows(rows, wanted, d) && MatchesAll(d)
  }

  // --- the loop ---

  // Which rows and values the iterators have removed so far
  ghost predicate Removed(rows: Rows, wanted: set<SubExpression>, oldLeft: set<SubExpression>,
                          newLeft: set<SubExpression>, changed: Rows) {
    && oldLeft <= Stale(rows, wanted) && newLeft <= Missing(rows, wanted)
    && (forall id :: id in changed <==> id in rows && rows[id] in Stale(rows, wanted) - oldLeft)
    && (forall id | id in changed :: SameKeyFields(rows[id], changed[id]))
    && changed.Values == Missing(rows, wanted) - newLeft && DistinctRows(changed)
  }

  // Rows already visited match at most one missing value, and none that is left unless they were removed.
  ghost predicate Visited(rows: Rows, wanted: set<SubExpression>, toVisit: set<SubExpression>,
                          oldLeft: set<SubExpression>, newLeft: set<SubExpression>) {
    && (forall o, n | o in oldLeft - toVisit && n in newLeft :: !SameKeyFields(o, n))
    && (forall o, m, n | o in Stale(rows, wanted) - toVisit && m in Missing(rows, wanted) &&
        n in Missing(rows, wanted) &&
          SameKeyFields(o, m) && SameKeyFields(o, n) :: m == n)
  }

  lemma RemoveStep(rows: Rows, wanted: set<SubExpression>, oldLeft: set<SubExpression>, newLeft: set<SubExpression>,
                   changed: Rows, id: string, n: SubExpression)
    requires DistinctRows(rows) && Removed(rows, wanted, oldLeft, newLeft, changed)
    requires id in rows && rows[id] in oldLeft && n in newLeft && SameKeyFields(rows[id], n)
    ensures Removed(rows, wanted, oldLeft - {rows[id]}, newLeft - {n}, changed[id := n])
  {
    var after := changed[id := n];
    assert id !in changed;
    forall e ensures e in after.Values <==> e in changed.Values + {n} {
      if e in changed.Values {
        var k :| k in changed && changed[k] == e;
        assert after[k] == e;
      }
      if e == n { assert after[id] == e; }
    }
    assert n !in changed.Values;
  }

  // The inner loop: what is left of the missing values when one stale row is compared with them
  method RemoveMatches(rows: Rows, wanted: set<SubExpression>, id: string,
                       oldOrChanged: set<SubExpression>, newOrChanged: set<SubExpression>, changed: Rows)
      returns (ok: bool, oldLeft: set<SubExpression>, newLeft: set<SubExpression>, changedNow: Rows)
    requires DistinctRows(rows) && Removed(rows, wanted, oldOrChanged, newOrChanged, changed)
    requires id in rows && rows[id] in oldOrChanged
    ensures ok <==> forall m, n | m in newOrChanged && n in newOrChanged && SameKeyFields(rows[id], m) &&
            SameKeyFields(rows[id], n) :: m == n
    ensures ok ==> Removed(rows, wanted, oldLeft, newLeft, changedNow)
    ensures ok ==> oldOrChanged - {rows[id]} <= oldLeft <= oldOrChanged
    ensures ok ==> newLeft <= newOrChanged && forall n | n in newLeft :: !SameKeyFields(rows[id], n)
  {
    var oldExpr := rows[id];
    oldLeft, newLeft, changedNow := oldOrChanged, newOrChanged, changed;
    ghost var found := oldExpr;
    var newIt := newOrChanged;
    while newIt != {}
      invariant newIt <= newOrChanged
      invariant Removed(rows, wanted, oldLeft, newLeft, changedNow)
      invariant oldExpr in oldLeft ==> oldLeft == oldOrChanged && newLeft == newOrChanged &&
                                       forall n | n in newOrChanged - newIt :: !SameKeyFields(oldExpr, n)
      invariant oldExpr !in oldLeft ==> oldLeft == oldOrChanged - {oldExpr} && newLeft == newOrChanged - {found} &&
                                        found in newOrChanged - newIt && SameKeyFields(oldExpr, found) &&
                                        forall n | n in newOrChanged - newIt && n != found :: !SameKeyFields(oldExpr, n)
      decreases newIt
    {
      var newExpr :| newExpr in newIt;
      newIt := newIt - {newExpr};
      if SameKeyFields(oldExpr, newExpr) {
        if oldExpr !in oldLeft {   // the iterator has removed it already
          return false, oldLeft, newLeft, changedNow;
        }
        RemoveStep(rows, wanted, oldLeft, newLeft, changedNow, id, newExpr);
        oldLeft := oldLeft - {oldExpr};
        newLeft := newLeft - {newExpr};
        changedNow := changedNow[id := newExpr];
        found := newExpr;
      }
    }
    ok := true;
  }

  lemma VisitStep(rows: Rows, wanted: set<SubExpression>, toVisit: set<SubExpression>, o: SubExpression,
                  oldBefore: set<SubExpression>, newBefore: set<SubExpression>, oldLeft: set<SubExpression>,
                  newLeft: set<SubExpression>, changed: Rows)
    requires o in toVisit && toVisit <= oldBefore && Visited(rows, wanted, toVisit, oldBefore, newBefore)
    requires Removed(rows, wanted, oldBefore, newBefore, changed)
    requires oldBefore - {o} <= oldLeft <= oldBefore && newLeft <= newBefore
    requires forall m, n | m in newBefore && n in newBefore && SameKeyFields(o, m) && SameKeyFields(o, n) :: m == n
    requires forall n | n in newLeft :: !SameKeyFields(o, n)
    ensures Visited(rows, wanted, toVisit - {o}, oldLeft, newLeft)
  {
    forall m, n | m in Missing(rows, wanted) && n in Missing(rows, wanted) && SameKeyFields(o, m) && SameKeyFields(o, n)
      ensures m == n
    {
      if m !in newBefore {
        RemovedByVisited(rows, wanted, toVisit, oldBefore, newBefore, changed, m, n);
      } else if n !in newBefore {
        RemovedByVisited(rows, wanted, toVisit, oldBefore, newBefore, changed, n, m);
      }
    }
  }

  // A value that was removed belongs to a visited row, and nothing else has its metric.
  lemma RemovedByVisited(rows: Rows, wanted: set<SubExpression>, toVisit: set<SubExpression>,
                         oldLeft: set<SubExpression>, newLeft: set<SubExpression>, changed: Rows, m: SubExpression,
                         n: SubExpression)
    requires toVisit <= oldLeft && Visited(rows, wanted, toVisit, oldLeft, newLeft) &&
             Removed(rows, wanted, oldLeft, newLeft, changed)
    requires m in Missing(rows, wanted) - newLeft && n in Missing(rows, wanted) && SameKeyFields(m, n)
    ensures m == n
  {
    assert m in changed.Values;
    var k :| k in changed && changed[k] == m;
    assert rows[k] in Stale(rows, wanted) - toVisit;
  }

  method FindChanged(rows: Rows, wanted: set<SubExpression>)
      returns (ok: bool, oldOrChanged: set<SubExpression>, newOrChanged: set<SubExpression>, changed: Rows)
    requires DistinctRows(rows)
    ensures ok <==> !Ambiguous(rows, wanted)
    ensures ok ==> Removed(rows, wanted, oldOrChanged, newOrChanged, changed)
    ensures ok ==> Visited(rows, wanted, {}, oldOrChanged, newOrChanged)
  {
    oldOrChanged, newOrChanged, changed := Stale(rows, wanted), Missing(rows, wanted), map[];
    var oldIt := oldOrChanged;
    while oldIt != {}
      invariant oldIt <= oldOrChanged && Removed(rows, wanted, oldOrChanged, newOrChanged, changed)
      invariant Visited(rows, wanted, oldIt, oldOrChanged, newOrChanged)
      decreases oldIt
    {
      var oldExpr :| oldExpr in oldIt;
      var id :| id in rows && rows[id] == oldExpr;   // oldExpressions.inverse()
      var matched, oldLeft, newLeft, changedNow := RemoveMatches(rows, wanted, id, oldOrChanged, newOrChanged, changed);
      if !matched {
        return false, oldOrChanged, newOrChanged, changed;
      }
      VisitStep(rows, wanted, oldIt, oldExpr, oldOrChanged, newOrChanged, oldLeft, newLeft, changed);
      oldIt := oldIt - {oldExpr};
      oldOrChanged, newOrChanged, changed := oldLeft, newLeft, changedNow;
    }
    ok := true;
  }

  // unchangedExpressions: the rows but the stale ones that are left and those that changed
  function Kept(rows: Rows, oldOrChanged: set<SubExpression>, changed: Rows): Rows {
    map id | id in rows && rows[id] !in oldOrChanged && id !in changed :: rows[id]
  }

  // oldExpressions.values().retainAll(oldOrChangedExpressions)
  function Retained(rows: Rows, oldOrChanged: set<SubExpression>): Rows {
    map id | id in rows && rows[id] in oldOrChanged :: rows[id]
  }

  lemma KeptValues(rows: Rows, wanted: set<SubExpression>, oldLeft: set<SubExpression>, newLeft: set<SubExpression>,
                   changed: Rows)
    requires Removed(rows, wanted, oldLeft, newLeft, changed)
    ensures Kept(rows, oldLeft, changed).Values == rows.Values * wanted
  {
    var kept := Kept(rows, oldLeft, changed);
    forall e ensures e in kept.Values <==> e in rows.Values * wanted {
      if e in rows.Values * wanted {
        var id :| id in rows && rows[id] == e;
        assert kept[id] == e;
      }
    }
  }

  lemma IsTheDifference(rows: Rows, wanted: set<SubExpression>, oldLeft: set<SubExpression>,
                        newLeft: set<SubExpression>, changed: Rows, created: Rows)
    requires DistinctRows(rows) && Removed(rows, wanted, oldLeft, newLeft, changed) &&
             Visited(rows, wanted, {}, oldLeft, newLeft)
    requires created.Values == newLeft && DistinctRows(created) && created.Keys !! rows.Keys
    ensures IsDifference(rows, wanted, Diff(Retained(rows, oldLeft), changed, Kept(rows, oldLeft, changed), created))
  {
    var d := Diff(Retained(rows, oldLeft), changed, Kept(rows, oldLeft, changed), created);
    KeptValues(rows, wanted, oldLeft, newLeft, changed);
    assert ValuesPartition(wanted, d);
    assert IdsPartition(rows, d);
    assert KeepsRows(rows, wanted, d) by {
      forall id | id in changed ensures SameKeyFields(rows[id], changed[id]) { }
    }
    forall i, j | i in d.deleted && j in created ensures !SameKeyFields(d.deleted[i], created[j]) {
      assert created[j] in created.Values;
    }
  }

  /** The four maps, or the exception; which of them depends on rows and expression alone. */
  method SubExpressionsFor(initialSubExpressions: Rows, alarmExpression: seq<SubExpression>, ids: seq<string>)
      returns (r: Outcome)
    requires FreshIds(ids, initialSubExpressions) && |ids| >= |SetOf(alarmExpression)|
    ensures r.ValueAlreadyPresent? <==> !DistinctRows(initialSubExpressions)
    ensures r.IllegalState? <==>
            DistinctRows(initialSubExpressions) && Ambiguous(initialSubExpressions, SetOf(alarmExpression))
    ensures r.Ok? ==> IsDifference(initialSubExpressions, SetOf(alarmExpression), r.diff)
  {
    if !DistinctRows(initialSubExpressions) {
      return ValueAlreadyPresent;
    }
    var newSet := SetOf(alarmExpression);
    var ok, oldOrChanged, newOrChanged, changed := FindChanged(initialSubExpressions, newSet);
    if !ok {
      return IllegalState;
    }
    SubsetCount(newOrChanged, newSet);
    var created := CreateRows(newOrChanged, ids);
    assert created.Keys !! initialSubExpressions.Keys;
    IsTheDifference(initialSubExpressions, newSet, oldOrChanged, newOrChanged, changed, created);
    return Ok(Diff(Retained(initialSubExpressions, oldOrChanged), changed,
                   Kept(initialSubExpressions, oldOrChanged, changed), created));
  }

  // --- writing the difference ---

  // A changed row agrees with its new value in all columns that are not written.
  ghost predicate WritesAll(rows: Rows, d: Diff) {
    forall id | id in d.changed && id in rows :: OthersAgree(rows[id], d.changed[id])
  }

  lemma AppliedAt(rows: Rows, wanted: set<SubExpression>, d: Diff)
    requires IsDifference(rows, wanted, d)
    ensures var after := Applied(rows, d); after.Keys == d.changed.Keys + d.kept.Keys + d.created.Keys
    ensures var after := Applied(rows, d);
            forall id | id in after :: after[id] == if id in d.created then d.created[id]
                                                    else if id in d.changed
                                                    then Written(rows[id], d.changed[id]) else d.kept[id]
  {
    var after := Applied(rows, d);
    forall id ensures id in after <==> id in d.changed.Keys + d.kept.Keys + d.created.Keys {
      assert id in rows <==> id in d.deleted.Keys + d.changed.Keys + d.kept.Keys;
    }
  }

  // The value of a changed row that is not written in full is nowhere in the table.
  lemma LostValue(rows: Rows, wanted: set<SubExpression>, d: Diff, id: string)
    requires DistinctRows(rows) && !Ambiguous(rows, wanted) && IsDifference(rows, wanted, d)
    requires id in d.changed && Written(rows[id], d.changed[id]) != d.changed[id]
    ensures d.changed[id] in wanted && d.changed[id] !in Applied(rows, d).Values
  {
    var n := d.changed[id];
    assert n in d.changed.Values;
    AppliedAt(rows, wanted, d);
    forall k | k in Applied(rows, d) ensures Applied(rows, d)[k] != n {
      if k in d.created {
        assert d.created[k] in d.created.Values;
      } else if k in d.changed {
        if k != id && Written(rows[k], d.changed[k]) == n {
          MatchedTwice(rows, wanted, d, id, k);
        }
      } else {
        assert d.kept[k] in d.kept.Values;
      }
    }
  }

  lemma ChangedIsMissing(rows: Rows, wanted: set<SubExpression>, d: Diff, id: string)
    requires IsDifference(rows, wanted, d) && id in d.changed
    ensures rows[id] in Stale(rows, wanted) && d.changed[id] in Missing(rows, wanted)
  {
    var n := d.changed[id];
    assert n in d.changed.Values;
    forall k | k in rows ensures rows[k] != n {
      assert k in d.deleted.Keys + d.changed.Keys + d.kept.Keys;
      if k in d.kept { assert d.kept[k] in d.kept.Values; }
    }
  }

  lemma MatchedTwice(rows: Rows, wanted: set<SubExpression>, d: Diff, id: string, k: string)
    requires IsDifference(rows, wanted, d) && id in d.changed && k in d.changed && id != k
    requires rows[k].metric == d.changed[id].metric
    ensures Ambiguous(rows, wanted)
  {
    ChangedIsMissing(rows, wanted, d, id);
    ChangedIsMissing(rows, wanted, d, k);
    assert SameKeyFields(rows[k], d.changed[id]) && SameKeyFields(rows[k], d.changed[k]) &&
      d.changed[id] != d.changed[k];
  }

  /**
   Writing the difference gives the sub-expressions of the new expression just if no changed row differs from
   its new value in function, period or periods: these columns are not written.
   */
  lemma WrittenTableIsExpression(rows: Rows, wanted: set<SubExpression>, d: Diff)
    requires DistinctRows(rows) && !Ambiguous(rows, wanted) && IsDifference(rows, wanted, d)
    ensures Applied(rows, d).Values == wanted <==> WritesAll(rows, d)
  {
    if WritesAll(rows, d) {
      FullWriteIsExpression(rows, wanted, d);
    } else {
      var id :| id in d.changed && id in rows && !OthersAgree(rows[id], d.changed[id]);
      WrittenIff(rows[id], d.changed[id]);
      LostValue(rows, wanted, d, id);
    }
  }

  lemma FullWriteIsExpression(rows: Rows, wanted: set<SubExpression>, d: Diff)
    requires IsDifference(rows, wanted, d) && WritesAll(rows, d)
    ensures Applied(rows, d).Values == wanted
  {
    AppliedAt(rows, wanted, d);
    var after := Applied(rows, d);
    forall e | e in wanted ensures e in after.Values {
      if e in d.changed.Values {
        var k :| k in d.changed && d.changed[k] == e;
        assert after[k] == e;
      } else if e in d.kept.Values {
        var k :| k in d.kept && d.kept[k] == e;
        assert after[k] == e;
      } else {
        assert e in d.created.Values;
        var k :| k in d.created && d.created[k] == e;
        assert after[k] == e;
      }
    }
    forall e | e in after.Values ensures e in wanted {
      var k :| k in after && after[k] == e;
      if k in d.created { assert e in d.created.Values; }
      else if k in d.changed { assert d.changed[k] in d.changed.Values; }
      else { assert e in d.kept.Values; }
    }
  }

  // --- a difference that throws ---

  lemma TwoMatches(rows: Rows, wanted: set<SubExpression>, o: SubExpression, m: SubExpression, n: SubExpression)
    requires o in Stale(rows, wanted) && m in Missing(rows, wanted) && n in Missing(rows, wanted)
    requires m != n && SameKeyFields(o, m) && SameKeyFields(o, n)
    ensures Ambiguous(rows, wanted)
  {
  }

  lemma OneRowIsAmbiguous(m: MetricDefinition)
    ensures DistinctRows(OneRow(m)) && Ambiguous(OneRow(m), SetOf(TwoValues(m)))
  {
    OneRowForTwoValues(m);
    TwoMatches(OneRow(m), SetOf(TwoValues(m)), Above(m, 5.0), Above(m, 6.0), Above(m, 7.0));
  }

  /** max(m) > 5 is stored, and max(m) > 6 and max(m) > 7 is wanted: the iterator is asked to remove the row twice. */
  method SecondRemoveThrows(m: MetricDefinition) returns (r: Outcome)
    ensures r.IllegalState?
  {
    OneRowForTwoValues(m);
    OneRowIsAmbiguous(m);
    r := SubExpressionsFor(OneRow(m), TwoValues(m), TWO_IDS);
  }
}
