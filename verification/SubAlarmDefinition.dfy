/**
 Sub-alarm definitions: built from a parsed sub-expression or a database row, printed back as an
 expression, compared and hashed.
 */
module SubAlarmDefinition {
  import opened Text
  import opened Ordering
  import opened AlarmLexer
  import opened AlarmSubExpression
  import opened AlarmExpression
  import opened AlarmPrinter
  import opened AlarmThreshold

  datatype Definition = Definition(
    alarmDefinitionId: string, metricName: string, dimensionsStr: string, dimensions: map<string, string>,
    function_: string, operator: string, period: string, periods: string, threshold: string)

  function Upper(s: string): (r: string) {
    seq(|s|, i requires 0 <= i < |s| => Up(s[i]))
  }

  function Lower(s: string): (r: string) {
    seq(|s|, i requires 0 <= i < |s| => if 'A' <= s[i] <= 'Z' then (s[i] as int + 32) as char else s[i])
  }

  // normalized_operator; None when no branch applies
  function NormalizedOperator(op: string): Option<string> {
    if Lower(op) == "lt" || op == "<" then Some("LT")
    else if Lower(op) == "gt" || op == ">" then Some("GT")
    else if Lower(op) == "lte" || op == "<=" then Some("LTE")
    else if Lower(op) == "gte" || op == ">=" then Some("GTE")
    else None
  }

  // --- _init_dimensions ---

  // A part names a dimension only with exactly one equals sign; None is the error of any other.
  function NameValue(part: string): Option<(string, string)> {
    var parts := Split(part, '=');
    if |parts| != 2 then None else Some((parts[0], parts[1]))
  }

  function Collect(parts: seq<string>): Option<map<string, string>> {
    if parts == [] then Some(map[])
    else
      var n := |parts| - 1;
      var before, last := Collect(parts[..n]), NameValue(parts[n]);
      if before.None? || last.None? then None
      else Some(before.value[last.value.0 := last.value.1])
  }

  function DimensionMap(dimensionsStr: string): Option<map<string, string>> {
    if dimensionsStr == "" then Some(map[]) else Collect(Split(dimensionsStr, ','))
  }

  lemma {:induction false} CollectFails(parts: seq<string>, n: nat)
    requires n <= |parts| && Collect(parts[..n]).None?
    ensures Collect(parts).None?
    decreases |parts|
  {
    if n == |parts| {
      assert parts[..n] == parts;
    } else {
      assert parts[..|parts| - 1][..n] == parts[..n];
      CollectFails(parts[..|parts| - 1], n);
    }
  }

  method InitDimensions(dimensionsStr: string) returns (dimensions: Option<map<string, string>>)
    ensures dimensions == DimensionMap(dimensionsStr)
  {
    var result: map<string, string> := map[];
    if dimensionsStr != "" {
      var parts := Split(dimensionsStr, ',');
      for i := 0 to |parts|
        invariant Collect(parts[..i]) == Some(result)
      {
        assert parts[..i + 1][..i] == parts[..i];
        var pair := NameValue(parts[i]);
        if pair.None? {
          CollectFails(parts, i + 1);
          return None;
        }
        result := result[pair.value.0 := pair.value.1];
      }
      assert parts[..|parts|] == parts;
    }
    return Some(result);
  }

  // The dictionary a dimension list stands for: the last value given for a name wins.
  function MapOf(l: DimensionList): map<string, string> {
    if l.One? then map[l.name := l.value] else map[l.name := l.value] + MapOf(l.rest)
  }

  lemma {:induction false} CollectFirst(pair: (string, string), part: string, parts: seq<string>)
    requires NameValue(part) == Some(pair) && Collect(parts).Some?
    ensures Collect([part] + parts) == Some(map[pair.0 := pair.1] + Collect(parts).value)
  {
    var all := [part] + parts;
    var n := |parts|;
    if n == 0 {
      assert all == [part] && all[..0] == [];
      assert Collect(all[..0]) == Some(map[]);
      assert map[pair.0 := pair.1] + map[] == map[pair.0 := pair.1];
    } else {
      assert all[..n] == [part] + parts[..n - 1] && all[n] == parts[n - 1];
      CollectFirst(pair, part, parts[..n - 1]);
      var before, last := Collect(parts[..n - 1]).value, NameValue(parts[n - 1]).value;
      assert (map[pair.0 := pair.1] + before)[last.0 := last.1] == map[pair.0 := pair.1] + before[last.0 := last.1];
    }
  }

  lemma DimensionPart(name: string, value: string)
    requires IsName(name) && IsName(value)
    ensures NameValue(name + (['='] + value)) == Some((name, value)) && ',' !in name + (['='] + value)
  {
    WordsExclude(name, '=');
    WordsExclude(value, '=');
    WordsExclude(name, ',');
    WordsExclude(value, ',');
    SplitFirst(name, '=', value);
    SplitFirst(value, '=', "");
    assert name + (['='] + value) == name + ['='] + value;
  }

  lemma WordsExclude(w: string, c: char)
    requires IsName(w) && !IsIdent(c)
    ensures c !in w
  {
    forall i | 0 <= i < |w| ensures w[i] != c { assert IsIdent(w[i]); }
  }

  lemma {:induction false} CollectList(l: DimensionList)
    requires LegalList(IsIdent, l)
    ensures Collect(Split(ListOnto(l, ""), ',')) == Some(MapOf(l))
  {
    var part := l.name + (['='] + l.value);
    DimensionPart(l.name, l.value);
    if l.One? {
      assert ListOnto(l, "") == part by { assert l.value + "" == l.value; }
      SplitFirst(part, ',', "");
      assert Collect([]) == Some(map[]);
      CollectFirst((l.name, l.value), part, []);
      assert [part] + [] == [part];
      assert map[l.name := l.value] + map[] == map[l.name := l.value];
    } else {
      var rest := ListOnto(l.rest, "");
      assert ListOnto(l, "") == part + [','] + rest;
      SplitFirst(part, ',', rest);
      CollectList(l.rest);
      CollectFirst((l.name, l.value), part, Split(rest, ','));
    }
  }

  lemma LegalDimensionsCollect(v: SubExpr)
    requires Valid(v)
    ensures DimensionMap(v.dimensions).Some?
  {
    if v.dimensions != "" {
      var l :| LegalList(IsIdent, l) && v.dimensions == ListOnto(l, "");
      CollectList(l);
    }
  }

  function Pairs(l: DimensionList): seq<(string, string)> {
    [(l.name, l.value)] + (if l.One? then [] else Pairs(l.rest))
  }

  lemma NamesDifferBehind(first: (string, string), rest: seq<(string, string)>)
    requires var ps := [first] + rest; forall i, j :: 0 <= i < j < |ps| ==> ps[i].0 != ps[j].0
    ensures forall i, j :: 0 <= i < j < |rest| ==> rest[i].0 != rest[j].0
    ensures forall j :: 0 <= j < |rest| ==> rest[j].0 != first.0
  {
    var ps := [first] + rest;
    forall j | 0 <= j < |rest| ensures rest[j].0 != first.0 {
      assert ps[j + 1] == rest[j] && ps[0] == first;
    }
    forall i, j | 0 <= i < j < |rest| ensures rest[i].0 != rest[j].0 {
      assert ps[i + 1] == rest[i] && ps[j + 1] == rest[j];
    }
  }

  lemma {:induction false} MapOfPairs(l: DimensionList)
    requires forall i, j :: 0 <= i < j < |Pairs(l)| ==> Pairs(l)[i].0 != Pairs(l)[j].0
    ensures forall k :: k in MapOf(l) <==> exists v :: (k, v) in Pairs(l)
    ensures forall k, v :: (k, v) in Pairs(l) ==> k in MapOf(l) && MapOf(l)[k] == v
  {
    if l.More? {
      var rest := Pairs(l.rest);
      assert Pairs(l) == [(l.name, l.value)] + rest;
      NamesDifferBehind((l.name, l.value), rest);
      MapOfPairs(l.rest);
    }
  }

  lemma EnumerationNamesDiffer(ps: seq<(string, string)>, m: map<string, string>)
    requires Enumerates(ps, m)
    ensures forall i, j :: 0 <= i < j < |ps| ==> ps[i].0 != ps[j].0
  {
    forall i, j | 0 <= i < j < |ps| ensures ps[i].0 != ps[j].0 {
      assert ps[i] in ps && ps[j] in ps && ps[i] != ps[j];
    }
  }

  /** The dictionary read back from the database does not depend on the order group_concat lists its rows in. */
  lemma AnyRowOrderGivesTheSameDimensions(l: DimensionList, m: map<string, string>)
    requires LegalList(IsIdent, l) && Enumerates(Pairs(l), m)
    ensures DimensionMap(ListOnto(l, "")) == Some(m)
  {
    EnumerationNamesDiffer(Pairs(l), m);
    CollectList(l);
    SameMap(l, m);
  }

  lemma SameMap(l: DimensionList, m: map<string, string>)
    requires Enumerates(Pairs(l), m)
    requires forall i, j :: 0 <= i < j < |Pairs(l)| ==> Pairs(l)[i].0 != Pairs(l)[j].0
    ensures MapOf(l) == m
  {
    MapOfPairs(l);
    SameEntries(Pairs(l), MapOf(l), m);
  }

  lemma SameEntries(items: seq<(string, string)>, a: map<string, string>, m: map<string, string>)
    requires Enumerates(items, m)
    requires forall k, v :: (k, v) in items <==> k in a && a[k] == v
    ensures a == m
  {
    forall k | k in a ensures k in m && m[k] == a[k] {
      assert (k, a[k]) in items;
    }
    forall k | k in m ensures k in a {
      assert (k, m[k]) in items;
    }
  }

  // --- thresholds ---

  function DigitValue(c: char): nat
    requires IsDigit(c)
  {
    c as int - '0' as int
  }

  function NatValue(s: string): nat
    requires forall i :: 0 <= i < |s| ==> IsDigit(s[i])
  {
    if s == "" then 0 else 10 * NatValue(s[..|s| - 1]) + DigitValue(s[|s| - 1])
  }

  function PowerOfTen(n: nat): (r: real)
    ensures r > 0.0
  {
    if n == 0 then 1.0 else 10.0 * PowerOfTen(n - 1)
  }

  predicate AllDigits(s: string) {
    forall i :: 0 <= i < |s| ==> IsDigit(s[i])
  }

  // The value of the digits in front of a point and behind it
  function Decimal(whole: string, fraction: string): real
    requires AllDigits(whole) && AllDigits(fraction)
  {
    NatValue(whole) as real + NatValue(fraction) as real / PowerOfTen(|fraction|)
  }

  // float(threshold) on texts of digits and dots, without rounding; None is the ValueError.
  function Float(s: string): Option<real> {
    var n := IndexOf(s, '.');
    if n == |s| then (if s != "" && AllDigits(s) then Some(NatValue(s) as real) else None)
    else if |s| > 1 && AllDigits(s[..n]) && AllDigits(s[n + 1..])
    then Some(Decimal(s[..n], s[n + 1..]))
    else None
  }

  // --- building, printing, comparing ---

  function FromSubExpr(v: SubExpr, alarmDefinitionId: string): Option<Definition> {
    var dims, op := DimensionMap(v.dimensions), NormalizedOperator(v.operator);
    if dims.None? || op.None? then None
    else Some(Definition(alarmDefinitionId, v.metricName, v.dimensions, dims.value, Upper(v.func), op.value,
                         if v.period == "" then "60" else v.period,
                         if v.periods == "" then "1" else v.periods, v.threshold))
  }

  // A database row; str of the numbers in it
  datatype Row = Row(alarmDefinitionId: string, metricName: string, dimensions: string, function_: string,
                     operator: string,
                     period: string, periods: string, threshold: string)

  function FromRow(row: Row): Option<Definition> {
    var dims := DimensionMap(row.dimensions);
    if dims.None? then None
    else Some(Definition(row.alarmDefinitionId, row.metricName, row.dimensions, dims.value, row.function_, row.operator,
                         row.period, row.periods, row.threshold))
  }

  // The expression property
  function Expression(d: Definition): string {
    Layout(SubExpr(Lower(d.function_), d.metricName, d.dimensionsStr, d.operator, d.threshold, d.period, d.periods))
  }

  // The comparisons of __eq__ that cannot raise
  predicate SameExceptThreshold(a: Definition, b: Definition) {
    a.alarmDefinitionId == b.alarmDefinitionId && a.dimensions == b.dimensions && a.function_ == b.function_ &&
    a.metricName == b.metricName && a.operator == b.operator && a.period == b.period && a.periods == b.periods
  }

  // __eq__ of two objects; None is the ValueError of float
  function Equal(a: Definition, b: Definition): Option<bool> {
    if !SameExceptThreshold(a, b) then Some(false)
    else if Float(a.threshold).None? || Float(b.threshold).None? then None
    else Some(Float(a.threshold) == Float(b.threshold))
  }

  function NameAndValue(pair: (string, string)): string {
    pair.0 + pair.1
  }

  // What the hash takes of the dimensions: names with their values, sorted and joined; items is the iteration order.
  function DimensionKey(items: seq<(string, string)>): string {
    Join(Sort(Each(items, NameAndValue), Less))
  }

  lemma DimensionKeyForgetsOrder(ia: seq<(string, string)>, ib: seq<(string, string)>, m: map<string, string>)
    requires Enumerates(ia, m) && Enumerates(ib, m)
    ensures DimensionKey(ia) == DimensionKey(ib)
  {
    EnumerationsAgree(ia, ib, m);
    EachForgetsOrder(ia, ib, NameAndValue);
    LessIsStrictTotal();
    SortForgetsOrder(Each(ia, NameAndValue), Each(ib, NameAndValue), Less);
  }

  // __hash__: the string and number hashes and ^ are parameters, items is the iteration order of the dictionary.
  function Hash(d: Definition, items: seq<(string, string)>, hs: string -> int, hf: real -> int,
                xor: (int, int) -> int): int
    requires Float(d.threshold).Some?
  {
    xor(hs(d.alarmDefinitionId), xor(hs(DimensionKey(items)), xor(hs(d.function_), xor(hs(d.metricName),
      xor(hs(d.operator), xor(hs(d.period), xor(hs(d.periods), hf(Float(d.threshold).value))))))))
  }

  function Join(parts: seq<string>): string {
    if parts == [] then "" else parts[0] + Join(parts[1..])
  }

  lemma LessIsStrictTotal()
    ensures StrictTotal(Less)
  {
    forall x, y ensures (Less(x, y) ==> !Less(y, x)) && (Less(x, y) || x == y || Less(y, x)) {
      LessTotal(x, y);
    }
    forall x, y, z | Less(x, y) && Less(y, z) ensures Less(x, z) {
      LessTransitive(x, y, z);
    }
  }

  /** Equal definitions hash equally, whatever order their dictionaries iterate in. */
  lemma EqualHashEqually(a: Definition, b: Definition, ia: seq<(string, string)>, ib: seq<(string, string)>,
                         hs: string -> int, hf: real -> int, xor: (int, int) -> int)
    requires Equal(a, b) == Some(true)
    requires Enumerates(ia, a.dimensions) && Enumerates(ib, b.dimensions)
    ensures Hash(a, ia, hs, hf, xor) == Hash(b, ib, hs, hf, xor)
  {
    DimensionKeyForgetsOrder(ia, ib, a.dimensions);
  }

  // --- the round trip of the printed expression ---

  // What can be stored: the normalised fields of a valid sub-expression with period and periods filled in
  ghost predicate Storable(d: Definition) {
    StorableButThreshold(d) && IsWord(d.threshold, IsNumber)
  }

  ghost predicate StorableButThreshold(d: Definition) {
    d.function_ in ["MAX", "MIN", "AVG", "COUNT", "SUM"] && d.operator in ["LT", "GT", "LTE", "GTE"] &&
    IsName(d.metricName) && IsWord(d.period, IsDigit) && IsWord(d.periods, IsDigit) &&
    (d.dimensionsStr == "" || exists l :: LegalList(IsIdent, l) && d.dimensionsStr == ListOnto(l, "")) &&
    DimensionMap(d.dimensionsStr) == Some(d.dimensions)
  }

  // The sub-expression its text parses to
  function Printed(d: Definition): SubExpr {
    SubExpr(Lower(d.function_), d.metricName, d.dimensionsStr, Lower(d.operator), d.threshold, d.period, d.periods)
  }

  lemma FunctionsRoundTrip(f: string)
    requires f in ["MAX", "MIN", "AVG", "COUNT", "SUM"]
    ensures Lower(f) in GRAMMAR.functions && Upper(Lower(f)) == f && Spells(Lower(f), Lower(f))
  {
    assert Lower("MAX") == "max" && Upper("max") == "MAX";
    assert Lower("MIN") == "min" && Upper("min") == "MIN";
    assert Lower("AVG") == "avg" && Upper("avg") == "AVG";
    assert Lower("COUNT") == "count" && Upper("count") == "COUNT";
    assert Lower("SUM") == "sum" && Upper("sum") == "SUM";
    var fs := GRAMMAR.functions;
    assert fs[0] == "max" && fs[1] == "min" && fs[2] == "avg" && fs[3] == "count" && fs[4] == "sum";
  }

  lemma OperatorsRoundTrip(op: string)
    requires op in ["LT", "GT", "LTE", "GTE"]
    ensures Lower(op) in GRAMMAR.operators && NormalizedOperator(Lower(op)) == Some(op) && Spells(op, Lower(op))
  {
    assert Lower("LT") == "lt" && Lower("GT") == "gt" && Lower("LTE") == "lte" && Lower("GTE") == "gte";
    assert Lower("lt") == "lt" && Lower("gt") == "gt" && Lower("lte") == "lte" && Lower("gte") == "gte";
    var os := GRAMMAR.operators;
    assert os[1] == "lte" && os[3] == "lt" && os[5] == "gte" && os[7] == "gt";
  }

  lemma NormalizedFields(v: SubExpr)
    requires v.func in GRAMMAR.functions && v.operator in GRAMMAR.operators
    ensures Upper(v.func) in ["MAX", "MIN", "AVG", "COUNT", "SUM"]
    ensures NormalizedOperator(v.operator).Some? && NormalizedOperator(v.operator).value in ["LT", "GT", "LTE", "GTE"]
  {
    assert Upper("max") == "MAX" && Upper("min") == "MIN" && Upper("avg") == "AVG" && Upper("count") == "COUNT" &&
      Upper("sum") == "SUM";
    assert Lower("lt") == "lt" && Lower("gt") == "gt" && Lower("lte") == "lte" && Lower("gte") == "gte";
    assert Lower("<") == "<" && Lower(">") == ">" && Lower("<=") == "<=" && Lower(">=") == ">=";
  }

  /** Every parsed sub-expression yields a definition that can be stored and printed. */
  lemma ParsedIsStorable(v: SubExpr, alarmDefinitionId: string)
    requires Valid(v)
    ensures FromSubExpr(v, alarmDefinitionId).Some? && Storable(FromSubExpr(v, alarmDefinitionId).value)
  {
    NormalizedFields(v);
    LegalDimensionsCollect(v);
    assert IsDigit("60"[0]) && IsDigit("60"[1]) && IsDigit("1"[0]);
  }

  /**
   Parsing the printed expression and rebuilding gives a definition equal to the original; the
   comparison raises exactly when the threshold, which the grammar lets be any digits and dots, is no number.
   */
  lemma ExpressionRoundTrip(d: Definition)
    requires Storable(d)
    ensures SubExprList(Expression(d)) == Some([Printed(d)])
    ensures var r := FromSubExpr(Printed(d), d.alarmDefinitionId);
            r.Some? && r.value == d && Equal(r.value, d) == if Float(d.threshold).Some? then Some(true) else None
  {
    FunctionsRoundTrip(d.function_);
    OperatorsRoundTrip(d.operator);
    var w := SubExpr(Lower(d.function_), d.metricName, d.dimensionsStr, d.operator, d.threshold, d.period, d.periods);
    assert Valid(Printed(d)) && RespelledFrom(w, Printed(d));
    LayoutParses(w, Printed(d));
  }

  /**
   The threshold of a row is printed from a float. The expression of a definition built from a row parses to its own
   sub-expression just if that text consists of digits and dots.
   */
  lemma RowExpressionIff(row: Row)
    requires FromRow(row).Some? && StorableButThreshold(FromRow(row).value)
    ensures SubExprList(Expression(FromRow(row).value)) ==
              Some([SubExpr(Lower(row.function_), row.metricName, row.dimensions, Lower(row.operator), row.threshold,
                            row.period, row.periods)]) <==>
            IsWord(row.threshold, IsNumber)
  {
    var d := FromRow(row).value;
    if IsWord(row.threshold, IsNumber) {
      ExpressionRoundTrip(d);
    }
    if SubExprList(Expression(d)) == Some([Printed(d)]) {
      ParsedSubsRoundTrip(Expression(d));
      assert Printed(d) in SubExprList(Expression(d)).value;
      assert Valid(Printed(d));
    }
  }

  /** With any other text of a float the expression does not parse at all: a minus sign, an exponent, an infinity. */
  lemma RowExpressionFails(row: Row)
    requires FromRow(row).Some? && StorableButThreshold(FromRow(row).value)
    requires IsFloatText(row.threshold) && !IsWord(row.threshold, IsNumber)
    ensures SubExprList(Expression(FromRow(row).value)) == None
  {
    var d := FromRow(row).value;
    FunctionsRoundTrip(d.function_);
    OperatorsRoundTrip(d.operator);
    var w := SubExpr(Lower(d.function_), d.metricName, d.dimensionsStr, d.operator, d.threshold, d.period, d.periods);
    assert IsNumber("0"[0]);
    FloatTextFails(w, Printed(d));
  }

  // A million millions, as Python 2 prints it
  lemma LargeThresholdIsLost(row: Row)
    requires FromRow(row).Some? && StorableButThreshold(FromRow(row).value) && row.threshold == "1e+12"
    ensures SubExprList(Expression(FromRow(row).value)) == None
  {
    assert row.threshold[1] == 'e' && IsNumber(row.threshold[0]) && !IsNumber('e');
    RunStops("1", "e+12", IsNumber);
    assert "1" + "e+12" == row.threshold;
    RowExpressionFails(row);
  }

  /** The grammar accepts thresholds that are no numbers: this one parses, and comparing its definition raises. */
  lemma ThresholdMayBeNoNumber()
    ensures var v := SubExpr("max", "m", "", "<", "1.2.3", "", "");
            SubExprList(Layout(v)) == Some([v]) && Float(v.threshold) == None
  {
    var v := SubExpr("max", "m", "", "<", "1.2.3", "", "");
    assert GRAMMAR.functions[0] == "max" && GRAMMAR.operators[2] == "<";
    assert IsIdent("m"[0]);
    assert Valid(v);
    FormattedRoundTrip(v);
    IndexOfConcat("1", '.', "2.3");
    assert "1" + ['.'] + "2.3" == "1.2.3";
    assert "1.2.3"[2..][1] == '.' && !AllDigits("1.2.3"[2..]);
  }
}
