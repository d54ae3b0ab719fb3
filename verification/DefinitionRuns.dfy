/**
 Updates and patches of an alarm definition through the service: which are accepted, what they write, and
 what holds over any run of them.
 */
module DefinitionRuns {
  import opened Text
  import opened SubExpressions
  import opened JavaDiff

  datatype Definition = Definition(matchBy: Option<seq<string>>, expression: seq<SubExpression>, rows: Rows)

  // Failed: subExpressionsFor threw an exception. The others are the messages of an unprocessable entity.
  datatype Answer = Updated | Failed | MatchByMustNotChange | NumberMustNotChange | MetricsMustNotChange

  // null and empty mean the same.
  function Names(matchBy: Option<seq<string>>): seq<string> {
    if matchBy.None? then [] else matchBy.value
  }

  function Metrics(s: set<SubExpression>): set<MetricDefinition> {
    set e | e in s :: e.metric
  }

  // No two of them have one metric.
  predicate MetricsDiffer(s: set<SubExpression>) {
    forall o, p | o in s && p in s && o.metric == p.metric :: o == p
  }

  // Stale rows and missing values have the same metrics, and no two stale rows have one.
  predicate OneToOne(rows: Rows, wanted: set<SubExpression>) {
    Metrics(Stale(rows, wanted)) == Metrics(Missing(rows, wanted)) && MetricsDiffer(Stale(rows, wanted))
  }

  /** The difference deletes and inserts nothing just if rows and values correspond. */
  lemma NothingDeletedOrCreated(rows: Rows, wanted: set<SubExpression>, d: Diff)
    requires DistinctRows(rows) && !Ambiguous(rows, wanted) && IsDifference(rows, wanted, d)
    ensures d.deleted == map[] && d.created == map[] <==> OneToOne(rows, wanted)
  {
    if d.deleted == map[] && d.created == map[] {
      AllChangedCorrespond(rows, wanted, d);
    }
    if OneToOne(rows, wanted) {
      NoneDeleted(rows, wanted, d);
      NoneCreated(rows, wanted, d);
    }
  }

  lemma KeptIsWanted(rows: Rows, wanted: set<SubExpression>, d: Diff)
    requires IsDifference(rows, wanted, d)
    ensures forall id | id in d.kept :: id in rows && rows[id] in wanted
    ensures forall n | n in d.kept.Values :: n in rows.Values
  {
    forall id | id in d.kept ensures rows[id] in wanted {
      assert d.kept[id] in d.kept.Values;
    }
  }

  lemma StaleIsChanged(rows: Rows, wanted: set<SubExpression>, d: Diff, id: string)
    requires IsDifference(rows, wanted, d) && id in rows && rows[id] !in wanted
    ensures id in d.deleted || id in d.changed
  {
    assert id in d.deleted.Keys + d.changed.Keys + d.kept.Keys;
    KeptIsWanted(rows, wanted, d);
  }

  lemma MissingIsChanged(rows: Rows, wanted: set<SubExpression>, d: Diff, n: SubExpression)
    requires IsDifference(rows, wanted, d) && n in Missing(rows, wanted)
    ensures n in d.changed.Values || n in d.created.Values
  {
    assert n in d.changed.Values + d.kept.Values + d.created.Values;
    KeptIsWanted(rows, wanted, d);
  }

  lemma AllChangedCorrespond(rows: Rows, wanted: set<SubExpression>, d: Diff)
    requires DistinctRows(rows) && !Ambiguous(rows, wanted) && IsDifference(rows, wanted, d)
    requires d.deleted == map[] && d.created == map[]
    ensures OneToOne(rows, wanted)
  {
    forall o | o in Stale(rows, wanted) ensures o.metric in Metrics(Missing(rows, wanted)) {
      var id :| id in rows && rows[id] == o;
      StaleIsChanged(rows, wanted, d, id);
      ChangedIsMissing(rows, wanted, d, id);
    }
    forall n | n in Missing(rows, wanted) ensures n.metric in Metrics(Stale(rows, wanted)) {
      MissingIsChanged(rows, wanted, d, n);
      var id :| id in d.changed && d.changed[id] == n;
      ChangedIsMissing(rows, wanted, d, id);
    }
    forall o, p | o in Stale(rows, wanted) && p in Stale(rows, wanted) && o.metric == p.metric ensures o == p {
      var i :| i in rows && rows[i] == o;
      var j :| j in rows && rows[j] == p;
      StaleIsChanged(rows, wanted, d, i);
      StaleIsChanged(rows, wanted, d, j);
      if i != j { MatchedTwice(rows, wanted, d, i, j); }
    }
  }

  lemma NoneDeleted(rows: Rows, wanted: set<SubExpression>, d: Diff)
    requires IsDifference(rows, wanted, d) && OneToOne(rows, wanted) && DistinctRows(rows)
    ensures d.deleted == map[]
  {
    forall id ensures id !in d.deleted {
      if id in d.deleted {
        NotDeleted(rows, wanted, d, id);
      }
    }
  }

  // A stale row has a match, which is changed and not inserted, and only for this row.
  lemma NotDeleted(rows: Rows, wanted: set<SubExpression>, d: Diff, id: string)
    requires IsDifference(rows, wanted, d) && OneToOne(rows, wanted) && DistinctRows(rows)
    requires id in rows && rows[id] !in wanted
    ensures id !in d.deleted
  {
    var n := StaleHasMatch(rows, wanted, rows[id]);
    MissingIsChanged(rows, wanted, d, n);
    if n in d.changed.Values {
      ChangedForOneRow(rows, wanted, d, id, n);
    } else {
      CreatedHasNoRow(rows, d, id, n);
    }
  }

  lemma StaleHasMatch(rows: Rows, wanted: set<SubExpression>, o: SubExpression) returns (n: SubExpression)
    requires OneToOne(rows, wanted) && o in rows.Values && o !in wanted
    ensures n in Missing(rows, wanted) && SameKeyFields(o, n)
  {
    assert o in Stale(rows, wanted) && o.metric in Metrics(Missing(rows, wanted));
    n :| n in Missing(rows, wanted) && SameKeyFields(o, n);
  }

  lemma ChangedForOneRow(rows: Rows, wanted: set<SubExpression>, d: Diff, id: string, n: SubExpression)
    requires IsDifference(rows, wanted, d) && OneToOne(rows, wanted) && DistinctRows(rows)
    requires id in rows && rows[id] !in wanted && n in d.changed.Values && SameKeyFields(rows[id], n)
    ensures id in d.changed && id !in d.deleted
  {
    var k :| k in d.changed && d.changed[k] == n;
    ChangedIsMissing(rows, wanted, d, k);
    OneRowOfMetric(rows, wanted, id, k);
  }

  lemma OneRowOfMetric(rows: Rows, wanted: set<SubExpression>, i: string, k: string)
    requires OneToOne(rows, wanted) && DistinctRows(rows) && i in rows && k in rows
    requires rows[i] in Stale(rows, wanted) && rows[k] in Stale(rows, wanted) && SameKeyFields(rows[i], rows[k])
    ensures i == k
  {
    assert rows[i] == rows[k];
  }

  lemma CreatedHasNoRow(rows: Rows, d: Diff, id: string, n: SubExpression)
    requires MatchesAll(d) && id in rows && (id in d.deleted ==> d.deleted[id] == rows[id])
    requires n in d.created.Values && SameKeyFields(rows[id], n)
    ensures id !in d.deleted
  {
    var k :| k in d.created && d.created[k] == n;
  }

  lemma NoneCreated(rows: Rows, wanted: set<SubExpression>, d: Diff)
    requires IsDifference(rows, wanted, d) && OneToOne(rows, wanted) && DistinctRows(rows) && !Ambiguous(rows, wanted)
    ensures d.created == map[]
  {
    forall id ensures id !in d.created {
      if id in d.created {
        CreatedHasMatch(rows, wanted, d, id);
      }
    }
  }

  lemma CreatedIsMissing(rows: Rows, wanted: set<SubExpression>, d: Diff, id: string)
    requires IsDifference(rows, wanted, d) && id in d.created
    ensures d.created[id] in Missing(rows, wanted) && d.created[id] !in d.changed.Values
  {
    var n := d.created[id];
    assert n in d.created.Values;
    forall k | k in rows ensures rows[k] != n {
      assert k in d.deleted.Keys + d.changed.Keys + d.kept.Keys;
      if k in d.kept { assert d.kept[k] in d.kept.Values; }
    }
  }

  lemma CreatedHasMatch(rows: Rows, wanted: set<SubExpression>, d: Diff, id: string)
    requires IsDifference(rows, wanted, d) && OneToOne(rows, wanted) && DistinctRows(rows) && id in d.created
    ensures Ambiguous(rows, wanted)
  {
    CreatedIsMissing(rows, wanted, d, id);
    var o := MissingHasMatch(rows, wanted, d.created[id]);
    var m := MatchOf(rows, wanted, d, o);
    TwoMatches(rows, wanted, o, m, d.created[id]);
  }

  lemma MissingHasMatch(rows: Rows, wanted: set<SubExpression>, n: SubExpression) returns (o: SubExpression)
    requires OneToOne(rows, wanted) && n in Missing(rows, wanted)
    ensures o in Stale(rows, wanted) && SameKeyFields(o, n)
  {
    assert n.metric in Metrics(Stale(rows, wanted));
    o :| o in Stale(rows, wanted) && SameKeyFields(o, n);
  }

  // The new value of a stale row
  lemma MatchOf(rows: Rows, wanted: set<SubExpression>, d: Diff, o: SubExpression) returns (m: SubExpression)
    requires IsDifference(rows, wanted, d) && OneToOne(rows, wanted) && DistinctRows(rows) && o in Stale(rows, wanted)
    ensures m in Missing(rows, wanted) && m in d.changed.Values && SameKeyFields(o, m)
  {
    var k :| k in rows && rows[k] == o;
    StaleRowIsChanged(rows, wanted, d, k);
    m := d.changed[k];
  }

  lemma StaleRowIsChanged(rows: Rows, wanted: set<SubExpression>, d: Diff, id: string)
    requires IsDifference(rows, wanted, d) && OneToOne(rows, wanted) && DistinctRows(rows) && id in rows &&
             rows[id] !in wanted
    ensures id in d.changed && d.changed[id] in Missing(rows, wanted) && SameKeyFields(rows[id], d.changed[id])
  {
    NotDeleted(rows, wanted, d, id);
    StaleIsChanged(rows, wanted, d, id);
    ChangedIsMissing(rows, wanted, d, id);
  }

  // --- the service ---

  // What an accepted change makes of a definition
  ghost predicate Accepted(before: Definition, matchBy: Option<seq<string>>, expression: seq<SubExpression>,
                           after: Definition) {
    && DistinctRows(before.rows) && !Ambiguous(before.rows, SetOf(expression)) &&
      OneToOne(before.rows, SetOf(expression))
    && Names(matchBy) == Names(before.matchBy)
    && Names(after.matchBy) == Names(before.matchBy) && after.expression == expression
    && Rewritten(before.rows, SetOf(expression), after.rows)
  }

  // Wanted rows stay; the others take operator and threshold of a missing value of their metric.
  ghost predicate Rewritten(rows: Rows, wanted: set<SubExpression>, after: Rows) {
    after.Keys == rows.Keys && forall id | id in rows :: RowRewritten(rows, wanted, id, after[id])
  }

  ghost predicate RowRewritten(rows: Rows, wanted: set<SubExpression>, id: string, value: SubExpression)
    requires id in rows
  {
    if rows[id] in wanted then value == rows[id]
    else exists n :: n in Missing(rows, wanted) && SameKeyFields(rows[id], n) && value == Written(rows[id], n)
  }

  lemma AppliedIsRewritten(rows: Rows, wanted: set<SubExpression>, d: Diff)
    requires IsDifference(rows, wanted, d) && d.deleted == map[] && d.created == map[]
    ensures Rewritten(rows, wanted, Applied(rows, d))
  {
    var after := Applied(rows, d);
    assert after.Keys == rows.Keys;
    forall id | id in rows ensures RowRewritten(rows, wanted, id, after[id]) {
      if rows[id] in wanted {
        WantedIsKept(rows, wanted, d, id);
      } else {
        StaleIsWritten(rows, wanted, d, id);
      }
    }
  }

  lemma StaleIsWritten(rows: Rows, wanted: set<SubExpression>, d: Diff, id: string)
    requires IsDifference(rows, wanted, d) && d.deleted == map[] && d.created == map[] && id in rows &&
             rows[id] !in wanted
    ensures id in d.changed && d.changed[id] in Missing(rows, wanted) && SameKeyFields(rows[id], d.changed[id])
    ensures Applied(rows, d)[id] == Written(rows[id], d.changed[id])
  {
    StaleIsChanged(rows, wanted, d, id);
    ChangedIsMissing(rows, wanted, d, id);
  }

  lemma WantedIsKept(rows: Rows, wanted: set<SubExpression>, d: Diff, id: string)
    requires IsDifference(rows, wanted, d) && id in rows && rows[id] in wanted
    ensures id in d.kept && id !in d.changed && id !in d.deleted
  {
    assert id in d.deleted.Keys + d.changed.Keys + d.kept.Keys;
  }

  // newAlarmSubExpressions.size() + changedSubExpressions.size() + unchangedSubExpressions.size()
  lemma CountIsWanted(rows: Rows, wanted: set<SubExpression>, d: Diff)
    requires IsDifference(rows, wanted, d)
    ensures |d.created| + |d.changed| + |d.kept| == |wanted|
  {
    ValuesCount(d.created);
    ValuesCount(d.changed);
    ValuesCount(d.kept);
    assert |d.changed.Values + d.kept.Values + d.created.Values| ==
      |d.changed.Values| + |d.kept.Values| + |d.created.Values|;
  }

  lemma {:induction false} ValuesCount(m: Rows)
    requires DistinctRows(m)
    ensures |m.Values| == |m|
    decreases |m|
  {
    if m != map[] {
      var k :| k in m;
      var rest := m - {k};
      assert m.Values == rest.Values + {m[k]} by {
        forall e | e in m.Values ensures e in rest.Values + {m[k]} {
          var j :| j in m && m[j] == e;
          if j != k { assert rest[j] == e; }
        }
      }
      ValuesCount(rest);
    }
  }

  class AlarmDefinition {
    var matchBy: Option<seq<string>>
    var expression: seq<SubExpression>
    var rows: Rows

    function Value(): Definition
      reads this
    {
      Definition(matchBy, expression, rows)
    }

    // validateChangesAllowed
    method ValidateChangesAllowed(newMatchBy: Option<seq<string>>, d: Diff) returns (r: Answer)
      ensures r.MatchByMustNotChange? <==> Names(newMatchBy) != Names(matchBy)
      ensures r.Updated? <==> Names(newMatchBy) == Names(matchBy) && d.deleted == map[] && d.created == map[]
      ensures r.NumberMustNotChange? <==>
              Names(newMatchBy) == Names(matchBy) && !(d.deleted == map[] && d.created == map[]) &&
                                          |d.created| + |d.changed| + |d.kept| != |expression|
      ensures !r.Failed?
    {
      var matchBySame;
      if matchBy.None? || matchBy.value == [] {
        matchBySame := newMatchBy.None? || newMatchBy.value == [];
      } else {
        matchBySame := matchBy == newMatchBy;
      }
      if !matchBySame {
        return MatchByMustNotChange;
      }
      if d.deleted != map[] || d.created != map[] {
        var newCount := |d.created| + |d.changed| + |d.kept|;
        if newCount != |expression| {
          return NumberMustNotChange;
        }
        return MetricsMustNotChange;
      }
      return Updated;
    }

    // The difference, and what the checks and the update need to know of it
    method Differences(alarmExpression: seq<SubExpression>, ids: seq<string>) returns (outcome: Outcome)
      requires FreshIds(ids, rows) && |ids| >= |SetOf(alarmExpression)|
      ensures outcome.Ok? <==> DistinctRows(rows) && !Ambiguous(rows, SetOf(alarmExpression))
      ensures outcome.Ok? ==> var d := outcome.diff;
                              && |d.created| + |d.changed| + |d.kept| == |SetOf(alarmExpression)|
                              && (d.deleted == map[] && d.created == map[] <==> OneToOne(rows, SetOf(alarmExpression)))
                              && (d.deleted == map[] && d.created == map[] ==>
                                  Rewritten(rows, SetOf(alarmExpression), Applied(rows, d)))
    {
      outcome := SubExpressionsFor(rows, alarmExpression, ids);
      if outcome.Ok? {
        NothingDeletedOrCreated(rows, SetOf(alarmExpression), outcome.diff);
        CountIsWanted(rows, SetOf(alarmExpression), outcome.diff);
        if outcome.diff.deleted == map[] && outcome.diff.created == map[] {
          AppliedIsRewritten(rows, SetOf(alarmExpression), outcome.diff);
        }
      }
    }

    method Update(newMatchBy: Option<seq<string>>, alarmExpression: seq<SubExpression>, ids: seq<string>)
        returns (r: Answer)
      requires FreshIds(ids, rows) && |ids| >= |SetOf(alarmExpression)|
      modifies this
      ensures r.Failed? <==> !DistinctRows(old(rows)) || Ambiguous(old(rows), SetOf(alarmExpression))
      ensures r.MatchByMustNotChange? <==> !r.Failed? && Names(newMatchBy) != Names(old(matchBy))
      ensures r.Updated? <==> !r.Failed? && !r.MatchByMustNotChange? && OneToOne(old(rows), SetOf(alarmExpression))
      ensures r.NumberMustNotChange? <==>
              !r.Failed? && !r.MatchByMustNotChange? && !r.Updated? && |SetOf(alarmExpression)| != |old(expression)|
      ensures r.Updated? ==> Accepted(old(Value()), newMatchBy, alarmExpression, Value())
      ensures !r.Updated? ==> Value() == old(Value())
    {
      var outcome := Differences(alarmExpression, ids);
      if !outcome.Ok? {
        return Failed;
      }
      var d := outcome.diff;
      r := ValidateChangesAllowed(newMatchBy, d);
      if r.Updated? {
        matchBy := if newMatchBy.None? || newMatchBy.value == [] then None else newMatchBy;
        expression := alarmExpression;
        rows := Applied(rows, d);
      }
    }

    // Fields that are not given are those of the stored definition.
    method Patch(newMatchBy: Option<seq<string>>, newExpression: Option<seq<SubExpression>>, ids: seq<string>)
        returns (r: Answer)
      requires var alarmExpression := if newExpression.None? then expression else newExpression.value;
               FreshIds(ids, rows) && |ids| >= |SetOf(alarmExpression)|
      modifies this
      ensures r.Updated? ==> Accepted(old(Value()), if newMatchBy.None? then old(matchBy) else newMatchBy,
                                      if newExpression.None? then old(expression) else newExpression.value, Value())
      ensures !r.Updated? ==> Value() == old(Value())
      ensures var wanted := SetOf(if newExpression.None? then old(expression) else newExpression.value);
              && (r.Failed? <==> !DistinctRows(old(rows)) || Ambiguous(old(rows), wanted))
              && (r.Updated? <==> !r.Failed? && !r.MatchByMustNotChange? && OneToOne(old(rows), wanted))
      ensures r.MatchByMustNotChange? <==> !r.Failed? && newMatchBy.Some? && Names(newMatchBy) != Names(old(matchBy))
    {
      var alarmExpression := if newExpression.None? then expression else newExpression.value;
      r := Update(if newMatchBy.None? then matchBy else newMatchBy, alarmExpression, ids);
    }
  }

  // --- runs ---

  // Every accepted call takes a definition to the next; the others leave it as it is.
  ghost predicate Step(before: Definition, after: Definition) {
    before == after || exists matchBy, expression :: Accepted(before, matchBy, expression, after)
  }

  ghost predicate Run(states: seq<Definition>) {
    states != [] && forall i :: 0 < i < |states| ==> Step(states[i - 1], states[i])
  }

  // A bijection between the rows and the sub-expressions of the current expression that keeps the metric
  ghost predicate Corresponds(d: Definition, f: Rows) {
    && f.Keys == d.rows.Keys && f.Values == SetOf(d.expression) && DistinctRows(f)
    && forall id | id in f :: f[id].metric == d.rows[id].metric
  }

  ghost predicate SameIdsAndMetrics(a: Rows, b: Rows) {
    a.Keys == b.Keys && forall id | id in a :: a[id].metric == b[id].metric
  }

  // The new sub-expression of a row
  ghost function Target(rows: Rows, wanted: set<SubExpression>, id: string): (n: SubExpression)
    requires id in rows && OneToOne(rows, wanted)
    ensures n in wanted && n.metric == rows[id].metric
    ensures rows[id] in wanted ==> n == rows[id]
    ensures rows[id] !in wanted ==> n in Missing(rows, wanted)
  {
    if rows[id] in wanted then rows[id]
    else
      assert rows[id] in Stale(rows, wanted) && rows[id].metric in Metrics(Missing(rows, wanted));
      var n :| n in Missing(rows, wanted) && n.metric == rows[id].metric;
      n
  }

  ghost function Targets(rows: Rows, wanted: set<SubExpression>): (f: Rows)
    requires OneToOne(rows, wanted)
    ensures f.Keys == rows.Keys && forall id | id in f :: f[id] == Target(rows, wanted, id)
  {
    map id | id in rows :: Target(rows, wanted, id)
  }

  lemma TargetsDiffer(rows: Rows, wanted: set<SubExpression>, i: string, j: string)
    requires OneToOne(rows, wanted) && DistinctRows(rows) && i in rows && j in rows
    requires Target(rows, wanted, i) == Target(rows, wanted, j)
    ensures i == j
  {
    if rows[i] !in wanted && rows[j] !in wanted {
      assert rows[i] in Stale(rows, wanted) && rows[j] in Stale(rows, wanted);
    }
  }

  lemma MissingIsTarget(rows: Rows, wanted: set<SubExpression>, n: SubExpression) returns (id: string)
    requires OneToOne(rows, wanted) && !Ambiguous(rows, wanted) && n in Missing(rows, wanted)
    ensures id in rows && Target(rows, wanted, id) == n
  {
    var o := MissingHasMatch(rows, wanted, n);
    id :| id in rows && rows[id] == o;
    var t := Target(rows, wanted, id);
    if t != n {
      TwoMatches(rows, wanted, o, t, n);
    }
  }

  lemma TargetsAreWanted(rows: Rows, wanted: set<SubExpression>)
    requires OneToOne(rows, wanted) && !Ambiguous(rows, wanted)
    ensures Targets(rows, wanted).Values == wanted
  {
    var f := Targets(rows, wanted);
    forall e | e in wanted ensures e in f.Values {
      if e in rows.Values {
        var id :| id in rows && rows[id] == e;
        assert f[id] == e;
      } else {
        var id := MissingIsTarget(rows, wanted, e);
        assert f[id] == e;
      }
    }
  }

  /** After an accepted call rows and expression correspond, whatever the rows were before. */
  lemma AcceptedCorresponds(before: Definition, matchBy: Option<seq<string>>, expression: seq<SubExpression>,
                            after: Definition)
    requires Accepted(before, matchBy, expression, after)
    ensures Corresponds(after, Targets(before.rows, SetOf(expression)))
    ensures SameIdsAndMetrics(before.rows, after.rows)
  {
    var rows, wanted := before.rows, SetOf(expression);
    var f := Targets(rows, wanted);
    TargetsAreWanted(rows, wanted);
    forall i, j | i in f && j in f && f[i] == f[j] ensures i == j {
      TargetsDiffer(rows, wanted, i, j);
    }
    forall id | id in rows ensures after.rows[id].metric == rows[id].metric {
      assert RowRewritten(rows, wanted, id, after.rows[id]);
    }
  }

  /**
   Over any run of calls the set of ids, the metric of each id and match_by stay as they were, and rows and
   current expression correspond one to one with the same metrics.
   */
  lemma {:induction false} RunKeeps(states: seq<Definition>, f: Rows) returns (g: Rows)
    requires Run(states) && Corresponds(states[0], f)
    ensures var last := states[|states| - 1];
            SameIdsAndMetrics(states[0].rows, last.rows) && Names(last.matchBy) == Names(states[0].matchBy) &&
              Corresponds(last, g)
  {
    if |states| == 1 {
      g := f;
    } else {
      var n := |states| - 1;
      g := RunKeeps(states[..n], f);
      assert Step(states[n - 1], states[n]);
      if states[n - 1] != states[n] {
        var matchBy, expression :| Accepted(states[n - 1], matchBy, expression, states[n]);
        AcceptedCorresponds(states[n - 1], matchBy, expression, states[n]);
        g := Targets(states[n - 1].rows, SetOf(expression));
      }
    }
  }

  // --- rows may drift from the expression ---

  // Rows and expression are equal, each value once.
  predicate Faithful(d: Definition) {
    DistinctRows(d.rows) && d.rows.Values == SetOf(d.expression)
  }

  // Every row agrees with its new value in function, period and periods.
  ghost predicate OnlyWrittenColumnsChange(rows: Rows, wanted: set<SubExpression>)
    requires OneToOne(rows, wanted)
  {
    forall id | id in rows :: OthersAgree(rows[id], Target(rows, wanted, id))
  }

  lemma RowIsTarget(rows: Rows, wanted: set<SubExpression>, id: string, value: SubExpression)
    requires OneToOne(rows, wanted) && !Ambiguous(rows, wanted) && id in rows && RowRewritten(rows, wanted, id, value)
    ensures value == Written(rows[id], Target(rows, wanted, id))
  {
    if rows[id] !in wanted {
      var n :| n in Missing(rows, wanted) && SameKeyFields(rows[id], n) && value == Written(rows[id], n);
      var t := Target(rows, wanted, id);
      if t != n {
        assert rows[id] in Stale(rows, wanted);
        TwoMatches(rows, wanted, rows[id], t, n);
      }
    }
  }

  /**
   An accepted call leaves the rows equal to the expression just if it changes nothing but operators and thresholds.
   */
  lemma FaithfulIff(before: Definition, matchBy: Option<seq<string>>, expression: seq<SubExpression>, after: Definition)
    requires Accepted(before, matchBy, expression, after)
    ensures Faithful(after) <==> OnlyWrittenColumnsChange(before.rows, SetOf(expression))
  {
    var rows, wanted := before.rows, SetOf(expression);
    if OnlyWrittenColumnsChange(rows, wanted) {
      FullWriteIsFaithful(before, matchBy, expression, after);
    } else {
      var id :| id in rows && !OthersAgree(rows[id], Target(rows, wanted, id));
      WrittenIff(rows[id], Target(rows, wanted, id));
      TargetIsNowhere(before, matchBy, expression, after, id);
    }
  }

  lemma FullWriteIsFaithful(before: Definition, matchBy: Option<seq<string>>, expression: seq<SubExpression>,
                            after: Definition)
    requires Accepted(before, matchBy, expression, after) && OnlyWrittenColumnsChange(before.rows, SetOf(expression))
    ensures Faithful(after)
  {
    var rows, wanted := before.rows, SetOf(expression);
    var f := Targets(rows, wanted);
    AcceptedCorresponds(before, matchBy, expression, after);
    forall id | id in rows ensures after.rows[id] == f[id] {
      assert RowRewritten(rows, wanted, id, after.rows[id]);
      RowIsTarget(rows, wanted, id, after.rows[id]);
    }
    assert after.rows == f;
  }

  // The value a row should have taken is in no row: only this one has its metric among those that changed.
  lemma TargetIsNowhere(before: Definition, matchBy: Option<seq<string>>, expression: seq<SubExpression>,
                        after: Definition, id: string)
    requires Accepted(before, matchBy, expression, after) && id in before.rows
    requires var t := Target(before.rows, SetOf(expression), id); Written(before.rows[id], t) != t
    ensures !Faithful(after)
  {
    var rows, wanted := before.rows, SetOf(expression);
    var t := Target(rows, wanted, id);
    forall k | k in rows ensures after.rows[k] != t {
      assert RowRewritten(rows, wanted, k, after.rows[k]);
      RowIsTarget(rows, wanted, k, after.rows[k]);
      if rows[k] !in wanted && rows[k].metric == t.metric {
        OneRowOfMetric(rows, wanted, id, k);
      }
    }
    assert t !in after.rows.Values;
  }

  // A stale row is written to the value that a wanted row has already.
  ghost predicate Drifts(rows: Rows, wanted: set<SubExpression>)
    requires OneToOne(rows, wanted)
  {
    exists i, k | i in rows && k in rows && rows[i] !in wanted && rows[k] in wanted :: DriftsOnto(rows, wanted, i, k)
  }

  ghost predicate DriftsOnto(rows: Rows, wanted: set<SubExpression>, i: string, k: string)
    requires OneToOne(rows, wanted) && i in rows && k in rows
  {
    Written(rows[i], Target(rows, wanted, i)) == rows[k]
  }

  lemma AfterIsWritten(before: Definition, matchBy: Option<seq<string>>, expression: seq<SubExpression>,
                       after: Definition, id: string)
    requires Accepted(before, matchBy, expression, after) && id in before.rows
    ensures id in after.rows && after.rows[id] == Written(before.rows[id], Target(before.rows, SetOf(expression), id))
  {
    assert RowRewritten(before.rows, SetOf(expression), id, after.rows[id]);
    RowIsTarget(before.rows, SetOf(expression), id, after.rows[id]);
  }

  /** An accepted call stores a value twice just if it writes a stale row to the value of a wanted one. */
  lemma DriftIff(before: Definition, matchBy: Option<seq<string>>, expression: seq<SubExpression>, after: Definition)
    requires Accepted(before, matchBy, expression, after)
    ensures !DistinctRows(after.rows) <==> Drifts(before.rows, SetOf(expression))
  {
    var rows, wanted := before.rows, SetOf(expression);
    if !DistinctRows(after.rows) {
      var i, k :| i in after.rows && k in after.rows && after.rows[i] == after.rows[k] && i != k;
      TwiceIsDrift(before, matchBy, expression, after, i, k);
    }
    if Drifts(rows, wanted) {
      var i, k :| i in rows && k in rows && rows[i] !in wanted && rows[k] in wanted && DriftsOnto(rows, wanted, i, k);
      AfterIsWritten(before, matchBy, expression, after, i);
      AfterIsWritten(before, matchBy, expression, after, k);
      assert after.rows[i] == after.rows[k] && i != k;
    }
  }

  lemma TwiceIsDrift(before: Definition, matchBy: Option<seq<string>>, expression: seq<SubExpression>,
                     after: Definition, i: string, k: string)
    requires Accepted(before, matchBy, expression, after)
    requires i in before.rows && k in before.rows && i != k && after.rows[i] == after.rows[k]
    ensures Drifts(before.rows, SetOf(expression))
  {
    var rows, wanted := before.rows, SetOf(expression);
    AfterIsWritten(before, matchBy, expression, after, i);
    AfterIsWritten(before, matchBy, expression, after, k);
    assert rows[i].metric == rows[k].metric;
    if rows[i] !in wanted && rows[k] !in wanted {
      OneRowOfMetric(rows, wanted, i, k);
    } else if rows[i] !in wanted {
      assert DriftsOnto(rows, wanted, i, k);
    } else if rows[k] !in wanted {
      assert DriftsOnto(rows, wanted, k, i);
    }
  }

  lemma {:induction false} ListedSet(s: set<SubExpression>) returns (list: seq<SubExpression>)
    ensures SetOf(list) == s
    decreases s
  {
    list := [];
    if s != {} {
      var e :| e in s;
      list := ListedSet(s - {e});
      SetOfAppends(list, e);
      list := list + [e];
    }
  }

  /** Some call is accepted just if no value is stored twice; otherwise the difference fails and with it every call. */
  lemma AcceptsIff(d: Definition)
    ensures (exists matchBy, expression, after :: Accepted(d, matchBy, expression, after)) <==> DistinctRows(d.rows)
  {
    if DistinctRows(d.rows) {
      var expression := ListedSet(d.rows.Values);
      var after := Definition(d.matchBy, expression, d.rows);
      assert Stale(d.rows, SetOf(expression)) == {} && Missing(d.rows, SetOf(expression)) == {};
      assert forall id | id in d.rows :: d.rows[id] in d.rows.Values;
      assert Rewritten(d.rows, SetOf(expression), d.rows);
      assert Accepted(d, d.matchBy, expression, after);
    }
  }

  /** After such a call nothing changes any more, whatever is called. */
  lemma {:induction false} DriftIsFinal(states: seq<Definition>, i: nat)
    requires Run(states) && !DistinctRows(states[0].rows) && i < |states|
    ensures states[i] == states[0]
  {
    if i > 0 {
      DriftIsFinal(states, i - 1);
      assert Step(states[i - 1], states[i]);
      AcceptsIff(states[i - 1]);
    }
  }

  // max(m) > 5 and max(m) > 7 become max(m) > 7 and min(m) > 7: accepted, although the first row becomes the second.
  lemma DriftBlocksUpdates(m: MetricDefinition)
    ensures var a, b, c := SubExpression("MAX", m, "GT", 5.0, 60, 1), SubExpression("MAX", m, "GT", 7.0, 60, 1),
                           SubExpression("MIN", m, "GT", 7.0, 60, 1);
            var before := Definition(None, [a, b], map["i" := a, "j" := b]);
            var after := Definition(None, [b, c], map["i" := b, "j" := b]);
            Faithful(before) && Accepted(before, None, [b, c], after) && Drifts(before.rows, SetOf([b, c])) &&
              !DistinctRows(after.rows)
  {
    var a, b, c := SubExpression("MAX", m, "GT", 5.0, 60, 1), SubExpression("MAX", m, "GT", 7.0, 60, 1),
                   SubExpression("MIN", m, "GT", 7.0, 60, 1);
    var rows := map["i" := a, "j" := b];
    assert rows["i"] == a && rows["j"] == b;
    assert "i" != "j";
    var wanted := SetOf([b, c]);
    assert wanted == {b, c} && rows.Values == {a, b};
    assert Stale(rows, wanted) == {a} && Missing(rows, wanted) == {c};
    var after := map["i" := b, "j" := b];
    assert RowRewritten(rows, wanted, "i", after["i"]);
    assert after["i"] == after["j"];
    assert SetOf([a, b]) == {a, b};
    assert a.metric in Metrics({a}) && c.metric in Metrics({c});
    var before := Definition(None, [a, b], rows);
    assert Accepted(before, None, [b, c], Definition(None, [b, c], after));
    DriftIff(before, None, [b, c], Definition(None, [b, c], after));
  }
}
