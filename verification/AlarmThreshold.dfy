/**
 Printed sub-expressions whose threshold is the text of a float: a minus sign, an exponent, an infinity or a text that
 is no number is no threshold of the grammar, and the printed expression is not parsed at all.
 */
module AlarmThreshold {
  import opened Text
  import opened AlarmLexer
  import opened AlarmSubExpression
  import opened AlarmExpression
  import opened AlarmPrinter

  // A character that stands behind the digits and dots at the front of the text of a float
  predicate IsHalt(c: char) {
    c == '-' || c == 'e' || c == 'i' || c == 'n'
  }

  predicate HaltsAt(s: string) {
    s != "" && IsHalt(s[0])
  }

  // x is digits and dots, and behind them no more or something that halts; a text does not start with an exponent.
  predicate IsFloatText(x: string) {
    var n := Run(x, IsNumber);
    x != "" && ' ' !in x && (n < |x| ==> IsHalt(x[n]) && (n == 0 ==> x[n] != 'e'))
  }

  lemma HaltStays(s: string)
    requires HaltsAt(s)
    ensures SkipSpace(s) == s && !IsNumber(s[0])
  {
    SkipsTo("", s);
    assert "" + s == s;
  }

  // None of these literals starts with a halt.
  lemma NoKeywordAt(ws: seq<string>, s: string)
    requires NoneEmpty(ws) && HaltsAt(s) && forall i :: 0 <= i < |ws| ==> Up(ws[i][0]) != Up(s[0])
    ensures Keyword(ws, s).Fail?
  {
    var tok := Tok("", [s[0]]);
    AfterKeyword(ws, s[0], tok, s[1..]);
    assert TokOnto(tok, s[1..]) == s;
  }

  // No clause and no connective starts there.
  lemma HaltEnds(s: string)
    requires HaltsAt(s)
    ensures End(GRAMMAR, s) && SkipSpace(s) == s
  {
    HaltStays(s);
    NoKeywordAt(GRAMMAR.times, s);
    NoKeywordAt(GRAMMAR.ands, s);
    NoKeywordAt(GRAMMAR.ors, s);
  }

  lemma NoNumberAt(s: string)
    requires HaltsAt(s)
    ensures Number(IsNumber, s).Fail?
  {
    HaltStays(s);
  }

  // A threshold of digits and dots is read, and the rest is left.
  lemma NumberThenHalt(t: SubText, k: nat, f: string, m: string, d: string, p: string, rest: string)
    requires LegalComparison(GRAMMAR, t, k) && t.times.NoTimes? && HaltsAt(rest)
    ensures ParseComparison(GRAMMAR, f, m, d, p, ComparisonOnto(t, rest)).Done?
    ensures ParseComparison(GRAMMAR, f, m, d, p, ComparisonOnto(t, rest)).rest == rest
  {
    HaltEnds(rest);
    GrammarIsReadable();
    ComparisonReads(GRAMMAR, t, k, f, m, d, p, rest);
  }

  // With nothing to read as a threshold the comparison fails.
  lemma NothingButHalt(op: Tok, k: nat, f: string, m: string, d: string, p: string, rest: string)
    requires SpellsAt(GRAMMAR.operators, k, op) && HaltsAt(rest) && rest[0] != 'e'
    ensures ParseComparison(GRAMMAR, f, m, d, p, TokOnto(op, rest)).Fail?
  {
    OperatorReads(k, op, rest);
    NoNumberAt(rest);
  }

  // The operator with the threshold x behind it, and then more
  lemma ComparisonHalts(op: string, k: nat, x: string, more: string, f: string, m: string, d: string, p: string)
    requires SpellsAt(GRAMMAR.operators, k, Tok("", op)) && IsFloatText(x) && !IsWord(x, IsNumber)
    ensures var r := ParseComparison(GRAMMAR, f, m, d, p, op + (x + more)); r.Fail? || HaltsAt(r.rest)
  {
    var n := Run(x, IsNumber);
    assert n < |x|;
    var rest := x[n..] + more;
    assert HaltsAt(rest) && rest[0] == x[n];
    if n == 0 {
      NothingButHalt(Tok("", op), k, f, m, d, p, rest);
      assert "" + (op + rest) == op + (x + more);
    } else {
      var t := SubText(Tok("", ""), "", Tok("", ""), NoDimensions, NoPeriod, "", Tok("", op), Tok("", x[..n]), NoTimes);
      NumberThenHalt(t, k, f, m, d, p, rest);
      CutThreshold(op, x, n, more);
    }
  }

  lemma CutThreshold(op: string, x: string, n: nat, more: string)
    requires n <= |x|
    ensures "" + (op + ("" + (x[..n] + (x[n..] + more)))) == op + (x + more)
  {
    assert x == x[..n] + x[n..];
  }

  lemma SubFails(g: Literals, s: string)
    requires g.NoneEmpty() && ParseSub(g, s).Fail? && Symbol('(', s).Fail?
    ensures Parse(g, s) == None
  {
    assert ParseAtom(g, s).Fail?;
    assert ParseAnd(g, s).Fail?;
  }

  lemma SubHalts(g: Literals, s: string, v: SubExpr, rest: string)
    requires g.NoneEmpty() && ParseSub(g, s) == Done(v, rest) && End(g, rest) && SkipSpace(rest) != ""
    ensures Parse(g, s) == None
  {
    assert ParseAtom(g, s) == Done(Leaf(v), rest);
    assert ParseAndTail(g, rest) == ([], rest);
    assert ParseAnd(g, s) == Done(Leaf(v), rest);
    assert ParseOrTail(g, rest) == ([], rest);
    assert ParseOr(g, s) == Done(Leaf(v), rest);
  }

  lemma FunctionInFront(f: nat, func: string, rest: string)
    requires f < |GRAMMAR.functions| && Spells(func, GRAMMAR.functions[f])
    ensures Symbol('(', func + rest).Fail?
  {
    assert Up(func[0]) == Up(GRAMMAR.functions[f][0]);
    var s := func + rest;
    assert s[0] == func[0];
    SkipsTo("", s);
    assert "" + s == s;
  }

  lemma PackedHalts(w: SubExpr, d: DimensionText, f: nat, k: nat)
    requires Bare(d, w.dimensions) && IsName(w.metricName) && (w.period == "" || IsWord(w.period, IsDigit))
    requires f < |GRAMMAR.functions| && Spells(w.func, GRAMMAR.functions[f]) &&
             SpellsAt(GRAMMAR.operators, k, Tok("", w.operator))
    requires IsFloatText(w.threshold) && !IsWord(w.threshold, IsNumber)
    ensures Parse(GRAMMAR, Packed(w)) == None
  {
    var t := PackedText(w, d);
    var g := GRAMMAR;
    var s4 := ComparisonOnto(t, "");
    PackedIsItsText(w, d);
    PackedTailText(w, d);
    GrammarIsReadable();
    CallReads(g, f, t.func, t.lparen, MetricFrontOnto(t, s4));
    MetricFrontReads(g, g.functions[f], t, s4);
    ComparisonHalts(w.operator, k, w.threshold, if w.periods == "" then "" else "times" + w.periods,
      g.functions[f], t.metric.text, DimensionsOf(t.dims), PeriodOf(t.per));
    if ParseSub(g, Packed(w)).Fail? {
      FunctionInFront(f, w.func, "(" + MetricOnto(t, ""));
      PackedSub(w, d, MetricOnto(t, ""));
      SubFails(g, Packed(w));
    } else {
      var r := ParseSub(g, Packed(w));
      HaltEnds(r.rest);
      SubHalts(g, Packed(w), r.value, r.rest);
    }
  }

  /** With any other text of a float than digits and dots as its threshold, a printed sub-expression does not parse. */
  lemma FloatTextFails(w: SubExpr, v: SubExpr)
    requires IsFloatText(w.threshold) && !IsWord(w.threshold, IsNumber)
    requires Valid(v.(threshold := "0")) && RespelledFrom(w.(threshold := "0"), v.(threshold := "0"))
    ensures SubExprList(Layout(w)) == None
  {
    var v0, w0 := v.(threshold := "0"), w.(threshold := "0");
    ValidHasNoSpace(w0, v0);
    StripsWithoutSpaces(w);
    var d := BareText(v0);
    var f: nat :| f < |GRAMMAR.functions| && GRAMMAR.functions[f] == v.func;
    var k: nat :| k < |GRAMMAR.operators| && GRAMMAR.operators[k] == v.operator;
    PackedHalts(w, d, f, k);
  }
}
