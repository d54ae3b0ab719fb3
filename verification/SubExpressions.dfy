/**
 Sub-expressions of alarm definitions, stored as rows under an id, and the difference between rows and a new expression.
 */
module SubExpressions {
  datatype MetricDefinition = MetricDefinition(name: string, dimensions: map<string, string>)

  datatype SubExpression = SubExpression(
    function_: string, metric: MetricDefinition, operator: string, threshold: real, period: int, periods: int)

  type Rows = map<string, SubExpression>

  // Rows no longer wanted, the new values of changed rows, rows left alone, and rows to insert
  datatype Diff = Diff(deleted: Rows, changed: Rows, kept: Rows, created: Rows)

  function SetOf(s: seq<SubExpression>): set<SubExpression> {
    set e | e in s
  }

  // No value is stored twice.
  predicate DistinctRows(rows: Rows) {
    forall i, j | i in rows && j in rows && rows[i] == rows[j] :: i == j
  }

  // The rows whose value is not wanted, and the wanted values that no row has
  function Stale(rows: Rows, wanted: set<SubExpression>): set<SubExpression> {
    rows.Values - wanted
  }

  function Missing(rows: Rows, wanted: set<SubExpression>): set<SubExpression> {
    wanted - rows.Values
  }

  // Only these two columns of a changed row are written.
  function Written(row: SubExpression, value: SubExpression): SubExpression {
    row.(operator := value.operator, threshold := value.threshold)
  }

  // The columns that are not written agree.
  predicate OthersAgree(row: SubExpression, value: SubExpression) {
    row.function_ == value.function_ && row.metric == value.metric && row.period == value.period &&
    row.periods == value.periods
  }

  lemma WrittenIff(row: SubExpression, value: SubExpression)
    ensures Written(row, value) == value <==> OthersAgree(row, value)
    ensures OthersAgree(row, Written(row, value))
  {
  }

  // delete old ids, update changed ids, insert new rows
  function Applied(rows: Rows, d: Diff): Rows {
    (map id | id in rows && id !in d.deleted ::
       if id in d.changed then Written(rows[id], d.changed[id]) else rows[id]) + d.created
  }

  // The ids for new rows are unused and distinct.
  ghost predicate FreshIds(ids: seq<string>, rows: Rows) {
    (forall i :: 0 <= i < |ids| ==> ids[i] !in rows) && forall i, j :: 0 <= i < j < |ids| ==> ids[i] != ids[j]
  }

  lemma SetOfAppends(list: seq<SubExpression>, e: SubExpression)
    ensures SetOf(list + [e]) == SetOf(list) + {e}
  {
  }

  method ListOf(s: set<SubExpression>) returns (list: seq<SubExpression>)
    ensures SetOf(list) == s && |list| == |s|
    ensures forall i, j :: 0 <= i < j < |list| ==> list[i] != list[j]
  {
    list := [];
    var left := s;
    while left != {}
      invariant left <= s && SetOf(list) == s - left && |list| == |s| - |left|
      invariant forall i, j :: 0 <= i < j < |list| ==> list[i] != list[j]
      decreases left
    {
      var e :| e in left;
      assert e !in SetOf(list);
      SetOfAppends(list, e);
      list := list + [e];
      left := left - {e};
    }
  }

  // One new row for each of the values, under the next unused id
  method CreateRows(values: set<SubExpression>, ids: seq<string>) returns (created: Rows)
    requires |ids| >= |values| && forall i, j :: 0 <= i < j < |ids| ==> ids[i] != ids[j]
    ensures created.Values == values && DistinctRows(created)
    ensures forall id | id in created :: id in ids
  {
    var list := ListOf(values);
    created := map[];
    for i := 0 to |list|
      invariant forall id :: id in created <==> exists j :: 0 <= j < i && ids[j] == id
      invariant forall j :: 0 <= j < i ==> ids[j] in created && created[ids[j]] == list[j]
    {
      created := created[ids[i] := list[i]];
    }
    forall e ensures e in created.Values <==> e in values {
      if e in values {
        assert e in SetOf(list);
        var j :| 0 <= j < |list| && list[j] == e;
        assert created[ids[j]] == e;
      }
      if e in created.Values {
        var id :| id in created && created[id] == e;
        var j :| 0 <= j < |list| && ids[j] == id;
        assert e in SetOf(list);
      }
    }
  }

  // --- one row that two values could replace ---

  // max(m) > threshold
  function Above(m: MetricDefinition, threshold: real): SubExpression {
    SubExpression("MAX", m, "GT", threshold, 60, 1)
  }

  // The row max(m) > 5
  function OneRow(m: MetricDefinition): Rows {
    map["i" := Above(m, 5.0)]
  }

  // max(m) > 6 and max(m) > 7
  function TwoValues(m: MetricDefinition): seq<SubExpression> {
    [Above(m, 6.0), Above(m, 7.0)]
  }

  const TWO_IDS := ["j", "k"]

  lemma OneRowForTwoValues(m: MetricDefinition)
    ensures DistinctRows(OneRow(m)) && FreshIds(TWO_IDS, OneRow(m)) && |TWO_IDS| >= |SetOf(TwoValues(m))|
    ensures Stale(OneRow(m), SetOf(TwoValues(m))) == {Above(m, 5.0)}
    ensures Missing(OneRow(m), SetOf(TwoValues(m))) == {Above(m, 6.0), Above(m, 7.0)}
  {
    assert SetOf(TwoValues(m)) == {Above(m, 6.0), Above(m, 7.0)};
    assert OneRow(m)["i"] == Above(m, 5.0);
    assert OneRow(m).Values == {Above(m, 5.0)};
    assert TWO_IDS[0][0] != "i"[0] && TWO_IDS[1][0] != "i"[0] && TWO_IDS[0][0] != TWO_IDS[1][0];
  }
}
