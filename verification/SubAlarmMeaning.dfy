/**
 What a stored sub-alarm definition means: its operator denotes the comparison the expression was written with, the
 parts left out stand for their defaults, and the printed expression says the same as the one it was built from.
 */
module SubAlarmMeaning {
  import opened Text
  import opened AlarmLexer
  import opened AlarmSubExpression
  import opened AlarmExpression
  import opened AlarmPrinter
  import opened SubAlarmDefinition

  // Whether the value x triggers the comparison that an expression writes as op, with threshold t
  predicate Triggers(op: string, x: real, t: real) {
    if op == "<" || op == "lt" then x < t
    else if op == "<=" || op == "lte" then x <= t
    else if op == ">" || op == "gt" then x > t
    else (op == ">=" || op == "gte") && x >= t
  }

  // The same for the operator of a stored definition
  predicate StoredTriggers(op: string, x: real, t: real) {
    if op == "LT" then x < t
    else if op == "LTE" then x <= t
    else if op == "GT" then x > t
    else op == "GTE" && x >= t
  }

  // Two operators of expressions that trigger on the same values
  ghost predicate SameComparison(op: string, other: string) {
    forall x, t :: Triggers(op, x, t) <==> Triggers(other, x, t)
  }

  // A part of an expression, or its default where it is left out
  function Given(text: string, byDefault: string): string {
    if text == "" then byDefault else text
  }

  lemma EightOperators(op: string)
    requires op in GRAMMAR.operators
    ensures op == "<" || op == "lt" || op == "<=" || op == "lte" || op == ">" || op == "gt" || op == ">=" || op == "gte"
  {
  }

  lemma Lowered()
    ensures Lower("lt") == "lt" && Lower("gt") == "gt" && Lower("lte") == "lte" && Lower("gte") == "gte"
    ensures Lower("<") == "<" && Lower(">") == ">" && Lower("<=") == "<=" && Lower(">=") == ">="
  {
  }

  lemma NormalizedIs(op: string)
    requires op in GRAMMAR.operators
    ensures op == "<" || op == "lt" ==> NormalizedOperator(op) == Some("LT")
    ensures op == "<=" || op == "lte" ==> NormalizedOperator(op) == Some("LTE")
    ensures op == ">" || op == "gt" ==> NormalizedOperator(op) == Some("GT")
    ensures op == ">=" || op == "gte" ==> NormalizedOperator(op) == Some("GTE")
  {
    EightOperators(op);
    Lowered();
  }

  lemma NormalizedMeans(op: string, x: real, t: real)
    requires op in GRAMMAR.operators
    ensures NormalizedOperator(op).Some?
    ensures StoredTriggers(NormalizedOperator(op).value, x, t) <==> Triggers(op, x, t)
  {
    EightOperators(op);
    NormalizedIs(op);
  }

  lemma StoredOperatorsDiffer(op: string, other: string)
    requires op in ["LT", "GT", "LTE", "GTE"] && other in ["LT", "GT", "LTE", "GTE"]
    requires StoredTriggers(op, 0.0, 1.0) == StoredTriggers(other, 0.0, 1.0)
    requires StoredTriggers(op, 0.0, 0.0) == StoredTriggers(other, 0.0, 0.0)
    ensures op == other
  {
  }

  lemma SameAtTwoPoints(op: string, other: string, a: string, b: string)
    requires forall x, t :: StoredTriggers(a, x, t) <==> Triggers(op, x, t)
    requires forall x, t :: StoredTriggers(b, x, t) <==> Triggers(other, x, t)
    ensures a == b ==> SameComparison(op, other)
    ensures SameComparison(op, other) ==> StoredTriggers(a, 0.0, 1.0) == StoredTriggers(b, 0.0, 1.0)
    ensures SameComparison(op, other) ==> StoredTriggers(a, 0.0, 0.0) == StoredTriggers(b, 0.0, 0.0)
  {
  }

  lemma NormalizedMeansAll(op: string)
    requires op in GRAMMAR.operators
    ensures NormalizedOperator(op).Some?
    ensures forall x, t :: StoredTriggers(NormalizedOperator(op).value, x, t) <==> Triggers(op, x, t)
  {
    NormalizedMeans(op, 0.0, 0.0);
    forall x, t ensures StoredTriggers(NormalizedOperator(op).value, x, t) <==> Triggers(op, x, t) {
      NormalizedMeans(op, x, t);
    }
  }

  lemma NormalizedIsOneOfFour(op: string)
    requires NormalizedOperator(op).Some?
    ensures NormalizedOperator(op).value in ["LT", "GT", "LTE", "GTE"]
  {
  }

  lemma SameOperatorIff(op: string, other: string)
    requires op in GRAMMAR.operators && other in GRAMMAR.operators
    ensures NormalizedOperator(op) == NormalizedOperator(other) <==> SameComparison(op, other)
  {
    NormalizedMeansAll(op);
    NormalizedMeansAll(other);
    SameNormalized(op, other, NormalizedOperator(op).value, NormalizedOperator(other).value);
  }

  lemma SameNormalized(op: string, other: string, a: string, b: string)
    requires forall x, t :: StoredTriggers(a, x, t) <==> Triggers(op, x, t)
    requires forall x, t :: StoredTriggers(b, x, t) <==> Triggers(other, x, t)
    requires NormalizedOperator(op) == Some(a) && NormalizedOperator(other) == Some(b)
    ensures a == b <==> SameComparison(op, other)
  {
    SameAtTwoPoints(op, other, a, b);
    NormalizedIsOneOfFour(op);
    NormalizedIsOneOfFour(other);
    if SameComparison(op, other) {
      StoredOperatorsDiffer(a, b);
    }
  }

  lemma FunctionsComeBack(f: string)
    requires f in GRAMMAR.functions
    ensures Lower(Upper(f)) == f
  {
    var fs := GRAMMAR.functions;
    assert f == fs[0] || f == fs[1] || f == fs[2] || f == fs[3] || f == fs[4];
    assert Lower(Upper("max")) == "max" && Lower(Upper("min")) == "min" && Lower(Upper("avg")) == "avg" &&
      Lower(Upper("count")) == "count" && Lower(Upper("sum")) == "sum";
  }

  /** The stored operator triggers on exactly the values the operator of the expression triggers on. */
  lemma StoredOperatorMeans(v: SubExpr, alarmDefinitionId: string)
    requires Valid(v)
    ensures var d := FromSubExpr(v, alarmDefinitionId);
            d.Some? && forall x, t :: StoredTriggers(d.value.operator, x, t) <==> Triggers(v.operator, x, t)
  {
    ParsedIsStorable(v, alarmDefinitionId);
    NormalizedMeansAll(v.operator);
  }

  /**
   Two sub-expressions give one definition just if all their parts agree, the operators up to their spelling; an absent
   period is sixty seconds, and absent periods are one.
   */
  lemma SameDefinitionIff(v: SubExpr, w: SubExpr, alarmDefinitionId: string)
    requires Valid(v) && Valid(w)
    ensures FromSubExpr(v, alarmDefinitionId) == FromSubExpr(w, alarmDefinitionId) <==>
            v.func == w.func && v.metricName == w.metricName && v.dimensions == w.dimensions &&
            SameComparison(v.operator, w.operator) && v.threshold == w.threshold &&
            Given(v.period, "60") == Given(w.period, "60") && Given(v.periods, "1") == Given(w.periods, "1")
  {
    ParsedIsStorable(v, alarmDefinitionId);
    ParsedIsStorable(w, alarmDefinitionId);
    SameOperatorIff(v.operator, w.operator);
    FunctionsComeBack(v.func);
    FunctionsComeBack(w.func);
  }

  /**
   The expression printed from a definition parses to the sub-expression the definition was built from, with the
   defaults written out and the comparison spelled as a word.
   */
  lemma StoredMeansTheSame(v: SubExpr, alarmDefinitionId: string)
    requires Valid(v)
    ensures var d := FromSubExpr(v, alarmDefinitionId);
            d.Some? && exists op ::
              SameComparison(op, v.operator) &&
              SubExprList(Expression(d.value)) ==
                Some([SubExpr(v.func, v.metricName, v.dimensions, op, v.threshold,
                              Given(v.period, "60"), Given(v.periods, "1"))])
  {
    ParsedIsStorable(v, alarmDefinitionId);
    var d := FromSubExpr(v, alarmDefinitionId).value;
    ExpressionRoundTrip(d);
    FunctionsComeBack(v.func);
    OperatorsRoundTrip(d.operator);
    SameOperatorIff(Lower(d.operator), v.operator);
  }

  /**
   __eq__ of two definitions built from expressions: the dictionaries decide and not the order the dimensions were
   written in, and the numbers decide and not how the thresholds were written.
   */
  lemma EqualIff(v: SubExpr, w: SubExpr, alarmDefinitionId: string)
    requires Valid(v) && Valid(w) && Float(v.threshold).Some? && Float(w.threshold).Some?
    ensures var d, e := FromSubExpr(v, alarmDefinitionId), FromSubExpr(w, alarmDefinitionId);
            d.Some? && e.Some? &&
            Equal(d.value, e.value) ==
              Some(v.func == w.func && v.metricName == w.metricName &&
                   DimensionMap(v.dimensions) == DimensionMap(w.dimensions) &&
                   SameComparison(v.operator, w.operator) && Float(v.threshold) == Float(w.threshold) &&
                   Given(v.period, "60") == Given(w.period, "60") && Given(v.periods, "1") == Given(w.periods, "1"))
  {
    ParsedIsStorable(v, alarmDefinitionId);
    ParsedIsStorable(w, alarmDefinitionId);
    SameOperatorIff(v.operator, w.operator);
    FunctionsComeBack(v.func);
    FunctionsComeBack(w.func);
  }

  lemma {:induction false} ZerosAreZero(zeros: string)
    requires forall i :: 0 <= i < |zeros| ==> zeros[i] == '0'
    ensures AllDigits(zeros) && NatValue(zeros) == 0
  {
    assert AllDigits(zeros);
    if zeros != "" {
      ZerosAreZero(zeros[..|zeros| - 1]);
    }
  }

  lemma PointAfter(s: string, rest: string)
    requires s != "" && AllDigits(s)
    ensures var t := s + ['.'] + rest; IndexOf(t, '.') == |s| && |t| > 1 && t[..|s|] == s && t[|s| + 1..] == rest
    ensures IndexOf(s, '.') == |s|
  {
    assert '.' !in s;
    IndexOfConcat(s, '.', rest);
  }

  lemma FloatOfParts(t: string, n: nat)
    requires n < |t| && IndexOf(t, '.') == n && |t| > 1 && AllDigits(t[..n]) && AllDigits(t[n + 1..])
    ensures Float(t) == Some(Decimal(t[..n], t[n + 1..]))
  {
  }

  lemma DecimalOfZeros(s: string, zeros: string)
    requires AllDigits(s) && forall i :: 0 <= i < |zeros| ==> zeros[i] == '0'
    ensures AllDigits(zeros) && Decimal(s, zeros) == NatValue(s) as real
  {
    ZerosAreZero(zeros);
    NothingDivided(PowerOfTen(|zeros|));
  }

  lemma NothingDivided(p: real)
    requires p > 0.0
    ensures 0.0 / p == 0.0
  {
  }

  lemma {:induction false} DigitsDetermine(s: string, t: string)
    requires AllDigits(s) && AllDigits(t) && |s| == |t| && NatValue(s) == NatValue(t)
    ensures s == t
  {
    if s != "" {
      var n := |s| - 1;
      DigitsDetermine(s[..n], t[..n]);
      assert s == s[..n] + [s[n]] && t == t[..n] + [t[n]];
    }
  }

  /** Whole numbers written with as many digits are the same threshold only if they are written the same. */
  lemma ThresholdsDiffer(s: string, t: string)
    requires AllDigits(s) && AllDigits(t) && |s| == |t| > 0
    ensures Float(s) == Float(t) <==> s == t
  {
    PointAfter(s, "");
    PointAfter(t, "");
    if Float(s) == Float(t) {
      assert NatValue(s) as real == NatValue(t) as real;
      DigitsDetermine(s, t);
    }
  }

  /** A number written without a point and with a point and zeros behind it is the same threshold. */
  lemma PointZeroIsTheSame(s: string, zeros: string)
    requires s != "" && AllDigits(s) && forall i :: 0 <= i < |zeros| ==> zeros[i] == '0'
    ensures Float(s + ['.'] + zeros) == Float(s) == Some(NatValue(s) as real)
  {
    DecimalOfZeros(s, zeros);
    PointAfter(s, zeros);
    FloatOfParts(s + ['.'] + zeros, |s|);
  }
}
