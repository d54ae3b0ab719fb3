/** Alarms from joined rows: one pass that starts a new alarm whenever the id changes from one row to the next. */
module AlarmGrouping {
  import opened Text

  datatype MetricDefinition = MetricDefinition(name: string, dimensions: map<string, string>)

  // What a row says of its alarm, next to the metric
  datatype Header = Header(definitionId: string, definitionName: string, severity: string, state: string)
  // A column that the rows may lack, or that is null in a row
  datatype Cell = NoColumn | Null | Value(text: string)

  datatype Row = Row(id: string, header: Header, metricName: string, dimensions: Cell)
  datatype Alarm<M> = Alarm(id: string, header: Header, metrics: seq<M>)

  // How the metric of a row is read; None is an exception. See MetricOf.
  type Reader<M> = Row -> Option<M>

  // --- the metric of a row ---

  // One dimension into the map; None is the index error of a text without a value.
  function PutDimension(m: Option<map<string, string>>, dimension: string): Option<map<string, string>> {
    var parsed := JavaSplit(dimension, '=');
    if m.None? || |parsed| < 2 then None else Some(m.value[parsed[0] := parsed[1]])
  }

  function PutDimensions(parts: seq<string>): Option<map<string, string>> {
    if parts == [] then Some(map[]) else PutDimension(PutDimensions(parts[..|parts| - 1]), parts[|parts| - 1])
  }

  // A null is split like a text, which throws.
  function DimensionsOf(cell: Cell): Option<map<string, string>> {
    match cell
    case NoColumn => Some(map[])
    case Null => None
    case Value(text) => PutDimensions(JavaSplit(text, ','))
  }

  function MetricOf(r: Row): Option<MetricDefinition> {
    var m := DimensionsOf(r.dimensions);
    if m.None? then None else Some(MetricDefinition(r.metricName, m.value))
  }

  method ReadMetric(row: Row) returns (m: Option<MetricDefinition>)
    ensures m == MetricOf(row)
  {
    var dimensionMap: Option<map<string, string>> := Some(map[]);
    if row.dimensions.Null? {
      return None;
    }
    if row.dimensions.Value? {
      var parts := JavaSplit(row.dimensions.text, ',');
      for i := 0 to |parts|
        invariant dimensionMap == PutDimensions(parts[..i])
      {
        assert parts[..i + 1][..i] == parts[..i];
        dimensionMap := PutDimension(dimensionMap, parts[i]);
      }
      assert parts[..|parts|] == parts;
    }
    m := if dimensionMap.None? then None else Some(MetricDefinition(row.metricName, dimensionMap.value));
  }

  // --- what a text of dimensions stands for ---

  type Dimension = (string, string)

  // A name and a value that fit into a text of dimensions
  predicate Fits(d: Dimension) {
    '=' !in d.0 && ',' !in d.0 && '=' !in d.1 && ',' !in d.1 && d.1 != ""
  }

  predicate AllFit(dims: seq<Dimension>) {
    forall d | d in dims :: Fits(d)
  }

  function Part(d: Dimension): string {
    d.0 + ['='] + d.1
  }

  // name=value,name=value
  function Printed(dims: seq<Dimension>): string
    requires dims != []
  {
    if |dims| == 1 then Part(dims[0]) else Part(dims[0]) + [','] + Printed(dims[1..])
  }

  // The last value given for a name counts.
  function Dictionary(dims: seq<Dimension>): map<string, string> {
    if dims == [] then map[] else var n := |dims| - 1; Dictionary(dims[..n])[dims[n].0 := dims[n].1]
  }

  function Parts(dims: seq<Dimension>): (parts: seq<string>)
    ensures |parts| == |dims| && forall i :: 0 <= i < |dims| ==> parts[i] == Part(dims[i])
  {
    seq(|dims|, i requires 0 <= i < |dims| => Part(dims[i]))
  }

  lemma PartSplits(d: Dimension)
    requires Fits(d)
    ensures JavaSplit(Part(d), '=') == [d.0, d.1] && ',' !in Part(d) && Part(d) != ""
  {
    SplitFirst(d.0, '=', d.1);
    SplitFirst(d.1, '=', "");
    assert Part(d)[|d.0|] == '=';
  }

  lemma {:induction false} PrintedSplits(dims: seq<Dimension>)
    requires dims != [] && AllFit(dims)
    ensures Split(Printed(dims), ',') == Parts(dims)
  {
    assert dims[0] in dims;
    PartSplits(dims[0]);
    if |dims| == 1 {
      SplitFirst(Part(dims[0]), ',', "");
    } else {
      assert forall d | d in dims[1..] :: d in dims;
      PrintedSplits(dims[1..]);
      SplitFirst(Part(dims[0]), ',', Printed(dims[1..]));
    }
  }

  lemma PutPart(m: map<string, string>, d: Dimension)
    requires Fits(d)
    ensures PutDimension(Some(m), Part(d)) == Some(m[d.0 := d.1])
  {
    PartSplits(d);
  }

  lemma PutLast(parts: seq<string>)
    requires parts != []
    ensures PutDimensions(parts) == PutDimension(PutDimensions(parts[..|parts| - 1]), parts[|parts| - 1])
  {
  }

  lemma {:induction false} PutAll(dims: seq<Dimension>)
    requires AllFit(dims)
    ensures PutDimensions(Parts(dims)) == Some(Dictionary(dims))
  {
    if dims != [] {
      var n := |dims| - 1;
      assert dims[n] in dims && forall d | d in dims[..n] :: d in dims;
      PutAll(dims[..n]);
      assert Parts(dims)[..n] == Parts(dims[..n]);
      PutLast(Parts(dims));
      PutPart(Dictionary(dims[..n]), dims[n]);
    }
  }

  /** A printed list of dimensions is read as its dictionary, under the row's own metric name. */
  lemma PrintedIsRead(row: Row, dims: seq<Dimension>)
    requires dims != [] && AllFit(dims) && row.dimensions == Value(Printed(dims))
    ensures MetricOf(row) == Some(MetricDefinition(row.metricName, Dictionary(dims)))
  {
    var n := |dims| - 1;
    PrintedSplits(dims);
    PutAll(dims);
    assert dims[n] in dims;
    PartSplits(dims[n]);
    assert JavaSplit(Printed(dims), ',') == Parts(dims) by {
      if ',' !in Printed(dims) {
        SplitFirst(Printed(dims), ',', "");
      }
    }
  }

  lemma {:induction false} UnreadableIff(parts: seq<string>)
    ensures PutDimensions(parts).None? <==> exists part | part in parts :: |JavaSplit(part, '=')| < 2
  {
    if parts != [] {
      var n := |parts| - 1;
      UnreadableIff(parts[..n]);
      assert parts == parts[..n] + [parts[n]];
    }
  }

  /** Reading raises just for a null, or a text with a part in which no value stands behind an equals sign. */
  lemma MetricRaisesIff(row: Row)
    ensures MetricOf(row).None? <==>
            row.dimensions.Null? ||
            (row.dimensions.Value? &&
             exists part | part in JavaSplit(row.dimensions.text, ',') :: |JavaSplit(part, '=')| < 2)
  {
    if row.dimensions.Value? {
      UnreadableIff(JavaSplit(row.dimensions.text, ','));
    }
  }

  // --- the loop ---

  predicate Readable<M>(read: Reader<M>, rows: seq<Row>) {
    forall i :: 0 <= i < |rows| ==> read(rows[i]).Some?
  }

  // The alarms after one more row
  function AddRow<M>(read: Reader<M>, alarms: seq<Alarm<M>>, previous: Option<string>, r: Row): (s: seq<Alarm<M>>)
    requires read(r).Some? && (previous.Some? ==> alarms != [])
  {
    var metric := read(r).value;
    if previous == Some(r.id) then
      var last := alarms[|alarms| - 1];
      alarms[|alarms| - 1 := last.(metrics := last.metrics + [metric])]
    else alarms + [Alarm(r.id, r.header, [metric])]
  }

  // previousAlarmId behind these rows
  function Previous(rows: seq<Row>): Option<string> {
    if rows == [] then None else Some(rows[|rows| - 1].id)
  }

  function Grouped<M>(read: Reader<M>, rows: seq<Row>): (alarms: seq<Alarm<M>>)
    requires Readable(read, rows)
    ensures rows != [] ==> alarms != [] && alarms[|alarms| - 1].id == rows[|rows| - 1].id
  {
    if rows == [] then []
    else
      var n := |rows| - 1;
      AddRow(read, Grouped(read, rows[..n]), Previous(rows[..n]), rows[n])
  }

  /** None when a row's dimensions cannot be read: the exception reaches the caller. */
  method CreateAlarms<M>(read: Reader<M>, rows: seq<Row>) returns (r: Option<seq<Alarm<M>>>)
    ensures r.Some? <==> Readable(read, rows)
    ensures r.Some? ==> r.value == Grouped(read, rows)
  {
    var alarms: seq<Alarm<M>> := [];
    var previousAlarmId: Option<string> := None;
    for i := 0 to |rows|
      invariant Readable(read, rows[..i]) && alarms == Grouped(read, rows[..i])
      invariant previousAlarmId == Previous(rows[..i])
    {
      var row := rows[i];
      assert rows[..i + 1][..i] == rows[..i];
      var metric := read(row);
      if metric.None? {
        return None;
      }
      ghost var before := alarms;
      if previousAlarmId != Some(row.id) {
        alarms := alarms + [Alarm(row.id, row.header, [])];
      }
      var last := alarms[|alarms| - 1];
      alarms := alarms[|alarms| - 1 := last.(metrics := last.metrics + [metric.value])];
      assert [] + [metric.value] == [metric.value];
      assert alarms == AddRow(read, before, previousAlarmId, row);
      previousAlarmId := Some(row.id);
    }
    assert rows[..|rows|] == rows;
    return Some(alarms);
  }

  // --- nothing is lost, doubled or moved ---

  function Pair<M>(read: Reader<M>, r: Row): (string, M)
    requires read(r).Some?
  {
    (r.id, read(r).value)
  }

  function Pairs<M>(read: Reader<M>, rows: seq<Row>): seq<(string, M)>
    requires Readable(read, rows)
  {
    if rows == [] then [] else Pairs(read, rows[..|rows| - 1]) + [Pair(read, rows[|rows| - 1])]
  }

  function Tagged<M>(id: string, metrics: seq<M>): (r: seq<(string, M)>)
    ensures |r| == |metrics|
  {
    seq(|metrics|, i requires 0 <= i < |metrics| => (id, metrics[i]))
  }

  function Flattened<M>(alarms: seq<Alarm<M>>): seq<(string, M)> {
    if alarms == [] then []
    else var n := |alarms| - 1; Flattened(alarms[..n]) + Tagged(alarms[n].id, alarms[n].metrics)
  }

  lemma {:induction false} AddRowFlattened<M>(read: Reader<M>, alarms: seq<Alarm<M>>, previous: Option<string>, r: Row)
    requires read(r).Some? && (previous.Some? ==> alarms != [] && alarms[|alarms| - 1].id == previous.value)
    ensures Flattened(AddRow(read, alarms, previous, r)) == Flattened(alarms) + [Pair(read, r)]
  {
    var s, metric := AddRow(read, alarms, previous, r), read(r).value;
    var n := |s| - 1;
    assert s[..n] == if previous == Some(r.id) then alarms[..n] else alarms;
    if previous == Some(r.id) {
      var last := alarms[n];
      assert Tagged(r.id, last.metrics + [metric]) == Tagged(r.id, last.metrics) + [Pair(read, r)];
      assert Flattened(alarms[..n]) + (Tagged(r.id, last.metrics) + [Pair(read, r)]) ==
             (Flattened(alarms[..n]) + Tagged(r.id, last.metrics)) + [Pair(read, r)];
    } else {
      assert Tagged(r.id, [metric]) == [Pair(read, r)];
    }
  }

  /** Flattening the alarms gives back the rows, in order, whatever their order was. */
  lemma {:induction false} RowsAreConserved<M>(read: Reader<M>, rows: seq<Row>)
    requires Readable(read, rows)
    ensures Flattened(Grouped(read, rows)) == Pairs(read, rows)
  {
    if rows != [] {
      var n := |rows| - 1;
      var before := Grouped(read, rows[..n]);
      assert Flattened(before) == Pairs(read, rows[..n]) by { RowsAreConserved(read, rows[..n]); }
      AddRowFlattened(read, before, Previous(rows[..n]), rows[n]);
    }
  }

  // --- each id once ---

  predicate DistinctIds<M>(alarms: seq<Alarm<M>>) {
    forall i, j :: 0 <= i < j < |alarms| ==> alarms[i].id != alarms[j].id
  }

  // The rows of one id stand together.
  predicate Contiguous(rows: seq<Row>) {
    forall i, j, k :: 0 <= i < j < k < |rows| && rows[i].id == rows[k].id ==> rows[j].id == rows[i].id
  }

  predicate HasId(rows: seq<Row>, id: string) {
    exists i :: 0 <= i < |rows| && rows[i].id == id
  }

  predicate HasAlarm<M>(alarms: seq<Alarm<M>>, id: string) {
    exists i :: 0 <= i < |alarms| && alarms[i].id == id
  }

  // The alarm of an id is there just if a row is.
  lemma {:induction false} SameIds<M>(read: Reader<M>, rows: seq<Row>, id: string)
    requires Readable(read, rows)
    ensures HasAlarm(Grouped(read, rows), id) <==> HasId(rows, id)
  {
    if rows != [] {
      var n := |rows| - 1;
      SameIds(read, rows[..n], id);
      AddRowIds(read, Grouped(read, rows[..n]), Previous(rows[..n]), rows[n], id);
      if HasId(rows[..n], id) {
        var i :| 0 <= i < n && rows[..n][i].id == id;
        assert rows[i].id == id;
      }
      if HasId(rows, id) && rows[n].id != id {
        var i :| 0 <= i < |rows| && rows[i].id == id;
        assert rows[..n][i].id == id;
      }
    }
  }

  lemma {:induction false} AddRowIds<M>(read: Reader<M>, alarms: seq<Alarm<M>>, previous: Option<string>, r: Row,
                                        id: string)
    requires read(r).Some? && (previous.Some? ==> alarms != [] && alarms[|alarms| - 1].id == previous.value)
    ensures HasAlarm(AddRow(read, alarms, previous, r), id) <==> HasAlarm(alarms, id) || id == r.id
  {
    var s := AddRow(read, alarms, previous, r);
    assert s[|s| - 1].id == r.id;
    if HasAlarm(alarms, id) {
      var i :| 0 <= i < |alarms| && alarms[i].id == id;
      assert s[i].id == id;
    }
    if HasAlarm(s, id) && id != r.id {
      var i :| 0 <= i < |s| && s[i].id == id;
      assert alarms[i].id == id;
    }
  }

  lemma {:induction false} ContiguousStep(rows: seq<Row>)
    requires |rows| >= 2
    ensures var n := |rows| - 1;
            Contiguous(rows) <==>
              Contiguous(rows[..n]) && (rows[n - 1].id == rows[n].id || !HasId(rows[..n], rows[n].id))
  {
    var n := |rows| - 1;
    if Contiguous(rows) {
      forall i, j, k | 0 <= i < j < k < n && rows[..n][i].id == rows[..n][k].id
        ensures rows[..n][j].id == rows[..n][i].id {
        assert rows[i].id == rows[k].id;
      }
      if rows[n - 1].id != rows[n].id {
        forall i | 0 <= i < n ensures rows[..n][i].id != rows[n].id {
          var x, y, z := rows[i].id, rows[n - 1].id, rows[n].id;
          assert i < n - 1 && x == z ==> y == x;
        }
      }
    }
    if Contiguous(rows[..n]) && (rows[n - 1].id == rows[n].id || !HasId(rows[..n], rows[n].id)) {
      forall i, j, k | 0 <= i < j < k < |rows| && rows[i].id == rows[k].id ensures rows[j].id == rows[i].id {
        assert rows[..n][i].id == rows[i].id && rows[..n][j].id == rows[j].id;
        assert k < n ==> rows[..n][k].id == rows[k].id;
        assert rows[..n][n - 1].id == rows[n - 1].id;
      }
    }
  }

  lemma {:induction false} AddRowDistinct<M>(read: Reader<M>, alarms: seq<Alarm<M>>, previous: Option<string>, r: Row)
    requires read(r).Some? && (previous.Some? ==> alarms != [] && alarms[|alarms| - 1].id == previous.value)
    ensures DistinctIds(AddRow(read, alarms, previous, r)) <==>
            DistinctIds(alarms) && (previous == Some(r.id) || !HasAlarm(alarms, r.id))
  {
    var s := AddRow(read, alarms, previous, r);
    forall i | 0 <= i < |alarms| ensures s[i].id == alarms[i].id { }
    if DistinctIds(s) {
      forall i, j | 0 <= i < j < |alarms| ensures alarms[i].id != alarms[j].id {
        assert s[i].id != s[j].id;
      }
      if previous != Some(r.id) {
        forall i | 0 <= i < |alarms| ensures alarms[i].id != r.id {
          assert s[i].id != s[|alarms|].id;
        }
      }
    }
  }

  /** Each alarm is listed once just if the rows of each id stand together. */
  lemma {:induction false} EachAlarmOnce<M>(read: Reader<M>, rows: seq<Row>)
    requires Readable(read, rows)
    ensures DistinctIds(Grouped(read, rows)) <==> Contiguous(rows)
  {
    if |rows| == 1 {
      AddRowDistinct(read, [], None, rows[0]);
      assert rows[..0] == [];
    } else if |rows| > 1 {
      var n := |rows| - 1;
      EachAlarmOnce(read, rows[..n]);
      ContiguousStep(rows);
      SameIds(read, rows[..n], rows[n].id);
      AddRowDistinct(read, Grouped(read, rows[..n]), Some(rows[n - 1].id), rows[n]);
    }
  }

  // The metrics of an id, in row order
  function MetricsOf<M>(read: Reader<M>, rows: seq<Row>, id: string): seq<M>
    requires Readable(read, rows)
  {
    if rows == [] then []
    else
      var n := |rows| - 1;
      MetricsOf(read, rows[..n], id) + if rows[n].id == id then [read(rows[n]).value] else []
  }

  lemma {:induction false} NoMetrics<M>(read: Reader<M>, rows: seq<Row>, id: string)
    requires Readable(read, rows) && !HasId(rows, id)
    ensures MetricsOf(read, rows, id) == []
  {
    if rows != [] {
      var n := |rows| - 1;
      assert rows[n].id != id;
      assert !HasId(rows[..n], id) by {
        forall i | 0 <= i < n ensures rows[..n][i].id != id { assert rows[i].id != id; }
      }
      NoMetrics(read, rows[..n], id);
    }
  }

  // The first row with its id
  predicate IsFirst(rows: seq<Row>, i: nat)
    requires i < |rows|
  {
    forall j :: 0 <= j < i ==> rows[j].id != rows[i].id
  }

  // The fields of an alarm are those of the first of its rows.
  predicate HasHeader<M>(rows: seq<Row>, a: Alarm<M>) {
    exists i: nat :: i < |rows| && rows[i].id == a.id && rows[i].header == a.header && IsFirst(rows, i)
  }

  /**
   When they do, grouping in one pass is grouping by id: each alarm has exactly the metrics of its id, in row order.
   */
  lemma {:induction false} GroupingIsGroupBy<M>(read: Reader<M>, rows: seq<Row>, k: nat)
    requires Readable(read, rows) && Contiguous(rows) && k < |Grouped(read, rows)|
    ensures var a := Grouped(read, rows)[k]; a.metrics == MetricsOf(read, rows, a.id) && HasHeader(rows, a)
  {
    var n := |rows| - 1;
    var before := Grouped(read, rows[..n]);
    if n > 0 { ContiguousStep(rows); }
    if k < |before| {
      GroupingIsGroupBy(read, rows[..n], k);
      HeaderStays(rows, n, before[k]);
    }
    if n == 0 || rows[n - 1].id != rows[n].id {
      if k < |before| {
        SameIds(read, rows[..n], rows[n].id);
        assert before[k].id != rows[n].id;
      } else {
        NewAlarm(read, rows);
      }
    } else {
      EachAlarmOnce(read, rows[..n]);
      assert k < |before| - 1 ==> before[k].id != before[|before| - 1].id;
    }
  }

  lemma {:induction false} HeaderStays<M>(rows: seq<Row>, n: nat, a: Alarm<M>)
    requires n <= |rows| && HasHeader(rows[..n], a)
    ensures HasHeader(rows, a)
  {
    var i: nat :| i < n && rows[..n][i].id == a.id && rows[..n][i].header == a.header && IsFirst(rows[..n], i);
    assert IsFirst(rows, i) by {
      assert forall j :: 0 <= j < i ==> rows[j] == rows[..n][j];
    }
  }

  lemma {:induction false} NewAlarm<M>(read: Reader<M>, rows: seq<Row>)
    requires Readable(read, rows) && rows != [] && !HasId(rows[..|rows| - 1], rows[|rows| - 1].id)
    ensures var r := rows[|rows| - 1];
            MetricsOf(read, rows, r.id) == [read(r).value] && HasHeader(rows, Alarm(r.id, r.header, [read(r).value]))
  {
    var n := |rows| - 1;
    NoMetrics(read, rows[..n], rows[n].id);
    assert IsFirst(rows, n) by {
      assert forall j :: 0 <= j < n ==> rows[j] == rows[..n][j];
    }
  }
}
