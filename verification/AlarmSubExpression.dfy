/**
 One sub-expression of an alarm: function(metric{dimensions}, period) operator threshold times periods.
 SubText is a source text of one, token by token; ParseSub is the parser. They agree in both directions.
 */
module AlarmSubExpression {
  import opened Text
  import opened AlarmLexer

  // The literals of the grammar
  datatype Literals = Literals(
    functions: seq<string>, operators: seq<string>, times: seq<string>, ands: seq<string>, ors: seq<string>) {
    predicate NoneEmpty() {
      AlarmLexer.NoneEmpty(functions) && AlarmLexer.NoneEmpty(operators) && AlarmLexer.NoneEmpty(times) &&
      |times| == 1 &&
      AlarmLexer.NoneEmpty(ands) && AlarmLexer.NoneEmpty(ors)
    }
  }

  // operators: longer prefix first
  const GRAMMAR := Literals(
    ["max", "min", "avg", "count", "sum"],
    ["<=", "lte", "<", "lt", ">=", "gte", ">", "gt"],
    ["times"],
    ["and", "&&"],
    ["or", "||"])

  // SubExpr: the fields pyparsing fills; an absent optional part is "".
  datatype SubExpr = SubExpr(
    func: string, metricName: string, dimensions: string, operator: string,
    threshold: string, period: string, periods: string)

  datatype DimensionText = NoDimensions | Dimensions(lbrace: string, list: DimensionList, rbrace: string)
  datatype PeriodText = NoPeriod | Period(comma: string, period: Tok)
  datatype TimesText = NoTimes | Times(times: Tok, periods: Tok)

  datatype SubText = SubText(
    func: Tok, lparen: string, metric: Tok, dims: DimensionText, per: PeriodText, rparen: string,
    op: Tok, threshold: Tok, times: TimesText)

  // --- the parser ---

  function ParseDimensions(s: string): (r: (string, string))
    ensures |r.1| <= |s|
  {
    var open := Symbol('{', s);
    if open.Fail? then ("", s)
    else
      var list := ParseDimensionList(IsIdent, open.rest);
      if list.Fail? then ("", s)
      else
        var close := Symbol('}', list.rest);
        if close.Fail? then ("", s) else (ListOnto(list.value, ""), close.rest)
  }

  function ParsePeriod(s: string): (r: (string, string))
    ensures |r.1| <= |s|
  {
    var comma := Symbol(',', s);
    if comma.Fail? then ("", s)
    else
      var n := Number(IsDigit, comma.rest);
      if n.Fail? then ("", s) else (n.value, n.rest)
  }

  function ParseTimes(g: Literals, s: string): (r: (string, string))
    requires g.NoneEmpty()
    ensures |r.1| <= |s|
  {
    var times := Keyword(g.times, s);
    if times.Fail? then ("", s)
    else
      var n := Number(IsDigit, times.rest);
      if n.Fail? then ("", s) else (n.value, n.rest)
  }

  // operator threshold [times periods]
  function ParseComparison(g: Literals, f: string, m: string, d: string, p: string, s: string): (r: Parsed<SubExpr>)
    requires g.NoneEmpty()
    ensures r.Done? ==> |r.rest| < |s|
  {
    var op := Keyword(g.operators, s);
    if op.Fail? then Fail
    else
      var threshold := Number(IsNumber, op.rest);
      if threshold.Fail? then Fail
      else
        var times := ParseTimes(g, threshold.rest);
        Done(SubExpr(f, m, d, op.value, threshold.value, p, times.0), times.1)
  }

  // metric [{dimensions}] [, period] )
  function ParseMetric(g: Literals, f: string, s: string): (r: Parsed<SubExpr>)
    requires g.NoneEmpty()
    ensures r.Done? ==> |r.rest| < |s|
  {
    var metric := Name(s);
    if metric.Fail? then Fail
    else
      var dims := ParseDimensions(metric.rest);
      var per := ParsePeriod(dims.1);
      var close := Symbol(')', per.1);
      if close.Fail? then Fail
      else ParseComparison(g, f, metric.value, dims.0, per.0, close.rest)
  }

  function ParseSub(g: Literals, s: string): (r: Parsed<SubExpr>)
    requires g.NoneEmpty()
    ensures r.Done? ==> |r.rest| < |s|
  {
    var f := Keyword(g.functions, s);
    if f.Fail? then Fail
    else
      var open := Symbol('(', f.rest);
      if open.Fail? then Fail else ParseMetric(g, f.value, open.rest)
  }

  // --- the texts: each function puts its tokens in front of tail ---

  function TokOnto(t: Tok, tail: string): string {
    t.ws + (t.text + tail)
  }

  function DimensionsOnto(d: DimensionText, tail: string): string {
    match d
    case NoDimensions => tail
    case Dimensions(lb, list, rb) => lb + (['{'] + ListOnto(list, rb + (['}'] + tail)))
  }

  function PeriodOnto(p: PeriodText, tail: string): string {
    match p
    case NoPeriod => tail
    case Period(comma, n) => comma + ([','] + TokOnto(n, tail))
  }

  function TimesOnto(t: TimesText, tail: string): string {
    match t
    case NoTimes => tail
    case Times(times, n) => TokOnto(times, TokOnto(n, tail))
  }

  function ComparisonOnto(t: SubText, tail: string): string {
    TokOnto(t.op, TokOnto(t.threshold, TimesOnto(t.times, tail)))
  }

  function MetricFrontOnto(t: SubText, tail: string): string {
    TokOnto(t.metric, DimensionsOnto(t.dims, PeriodOnto(t.per, t.rparen + ([')'] + tail))))
  }

  function MetricOnto(t: SubText, tail: string): string {
    MetricFrontOnto(t, ComparisonOnto(t, tail))
  }

  function SubOnto(t: SubText, tail: string): string {
    TokOnto(t.func, t.lparen + (['('] + MetricOnto(t, tail)))
  }

  // k is the literal of list that tok spells.
  predicate SpellsAt(list: seq<string>, k: nat, tok: Tok) {
    k < |list| && AllSpace(tok.ws) && Spells(tok.text, list[k])
  }

  predicate LegalDimensions(d: DimensionText) {
    d.Dimensions? ==> AllSpace(d.lbrace) && AllSpace(d.rbrace) && LegalList(IsIdent, d.list)
  }

  predicate LegalPeriod(p: PeriodText) {
    p.Period? ==> AllSpace(p.comma) && AllSpace(p.period.ws) && IsWord(p.period.text, IsDigit)
  }

  predicate LegalTimes(g: Literals, t: TimesText)
    requires g.NoneEmpty()
  {
    t.Times? ==> SpellsAt(g.times, 0, t.times) && AllSpace(t.periods.ws) && IsWord(t.periods.text, IsDigit)
  }

  predicate LegalComparison(g: Literals, t: SubText, k: nat)
    requires g.NoneEmpty()
  {
    SpellsAt(g.operators, k, t.op) && AllSpace(t.threshold.ws) && IsWord(t.threshold.text, IsNumber) &&
      LegalTimes(g, t.times)
  }

  // A text of the grammar whose function is g.functions[f] and whose operator is g.operators[k]
  predicate LegalAs(g: Literals, t: SubText, f: nat, k: nat)
    requires g.NoneEmpty()
  {
    SpellsAt(g.functions, f, t.func) && AllSpace(t.lparen) && AllSpace(t.metric.ws) && IsName(t.metric.text) &&
    LegalDimensions(t.dims) && LegalPeriod(t.per) && AllSpace(t.rparen) && LegalComparison(g, t, k)
  }

  function DimensionsOf(d: DimensionText): string {
    if d.Dimensions? then ListOnto(d.list, "") else ""
  }

  function PeriodOf(p: PeriodText): string {
    if p.Period? then p.period.text else ""
  }

  function TimesOf(t: TimesText): string {
    if t.Times? then t.periods.text else ""
  }

  function ValueAs(g: Literals, t: SubText, f: nat, k: nat): SubExpr
    requires f < |g.functions| && k < |g.operators|
  {
    SubExpr(g.functions[f], t.metric.text, DimensionsOf(t.dims), g.operators[k], t.threshold.text, PeriodOf(t.per),
            TimesOf(t.times))
  }

  // t is a text of v.
  ghost predicate TextOf(g: Literals, t: SubText, v: SubExpr)
    requires g.NoneEmpty()
  {
    exists f: nat, k: nat :: f < |g.functions| && k < |g.operators| && LegalAs(g, t, f, k) && v == ValueAs(g, t, f, k)
  }

  // What may follow a sub-expression: nothing that continues its last number or starts a "times" clause.
  predicate Stop(g: Literals, tail: string)
    requires g.NoneEmpty()
  {
    (tail == "" || !IsNumber(tail[0])) && Keyword(g.times, tail).Fail?
  }

  // --- every text is parsed to its value ---

  // White space and the symbols of the grammar end every word.
  lemma AfterSpace(ws: string, c: char, tail: string)
    requires AllSpace(ws) && !IsSpace(c)
    ensures var s := ws + ([c] + tail);
            s != "" && (!IsIdent(c) ==> !IsIdent(s[0])) && (!IsNumber(c) ==> !IsNumber(s[0])) &&
              (c != ',' ==> s[0] != ',')
  {
    if ws != "" {
      assert (ws + ([c] + tail))[0] == ws[0];
    }
  }

  lemma DimensionsRead(d: DimensionText, tail: string)
    requires LegalDimensions(d) && Symbol('{', tail).Fail?
    ensures ParseDimensions(DimensionsOnto(d, tail)) == (DimensionsOf(d), tail)
  {
    if d.Dimensions? {
      var s2 := d.rbrace + (['}'] + tail);
      SymbolReads(d.lbrace, '{', ListOnto(d.list, s2));
      assert ParseDimensionList(IsIdent, ListOnto(d.list, s2)) == Done(d.list, s2) by {
        AfterSpace(d.rbrace, '}', tail);
        DimensionListReads(IsIdent, d.list, s2);
      }
      SymbolReads(d.rbrace, '}', tail);
    }
  }

  lemma PeriodReads(p: PeriodText, tail: string)
    requires LegalPeriod(p) && Symbol(',', tail).Fail? && (tail == "" || !IsDigit(tail[0]))
    ensures ParsePeriod(PeriodOnto(p, tail)) == (PeriodOf(p), tail)
  {
    if p.Period? {
      SymbolReads(p.comma, ',', TokOnto(p.period, tail));
      NumberReads(IsDigit, p.period, tail);
    }
  }

  // Every spelling of a literal is read as that literal and nothing more of the text.
  ghost predicate Readable(g: Literals) {
    g.NoneEmpty() &&
    (forall f: nat, tok: Tok, tail: string :: SpellsAt(g.functions, f, tok) ==>
       Keyword(g.functions, TokOnto(tok, tail)) == Done(g.functions[f], tail)) &&
    (forall k: nat, tok: Tok, tail: string ::
       SpellsAt(g.operators, k, tok) && tail != "" && (IsSpace(tail[0]) || IsNumber(tail[0])) ==>
       Keyword(g.operators, TokOnto(tok, tail)) == Done(g.operators[k], tail)) &&
    (forall tok: Tok, tail: string :: SpellsAt(g.times, 0, tok) ==>
       Keyword(g.times, TokOnto(tok, tail)) == Done(g.times[0], tail) && !IsNumber(TokOnto(tok, tail)[0]))
  }

  lemma FunctionReads(f: nat, tok: Tok, tail: string)
    requires SpellsAt(GRAMMAR.functions, f, tok)
    ensures Keyword(GRAMMAR.functions, TokOnto(tok, tail)) == Done(GRAMMAR.functions[f], tail)
  {
    var ws := GRAMMAR.functions;
    var s := tok.text + tail;
    assert Up(tok.text[0]) == Up(ws[f][0]) && Up(tok.text[1]) == Up(ws[f][1]);
    forall i | 0 <= i < f
      ensures !StartsWith(ws[i], s)
    {
      assert s[0] == tok.text[0] && s[1] == tok.text[1];
      if |ws[i]| <= |s| {
        assert s[..|ws[i]|][0] == s[0] && s[..|ws[i]|][1] == s[1];
      }
    }
    KeywordReads(ws, f, tok, tail);
  }

  lemma OperatorReads(k: nat, tok: Tok, tail: string)
    requires SpellsAt(GRAMMAR.operators, k, tok)
    requires tail != "" && Up(tail[0]) != 'E' && tail[0] != '='
    ensures Keyword(GRAMMAR.operators, TokOnto(tok, tail)) == Done(GRAMMAR.operators[k], tail)
  {
    var ws := GRAMMAR.operators;
    var s := tok.text + tail;
    assert |tok.text| >= 2 ==> s[1] == tok.text[1];
    assert |tok.text| == 1 ==> s[1] == tail[0];
    assert |tok.text| == 2 && |s| > 2 ==> s[2] == tail[0];
    forall i | 0 <= i < k
      ensures !StartsWith(ws[i], s)
    {
      assert s[0] == tok.text[0];
      if |ws[i]| <= |s| {
        assert forall j :: 0 <= j < |ws[i]| ==> s[..|ws[i]|][j] == s[j];
      }
    }
    KeywordReads(ws, k, tok, tail);
  }

  lemma TimesReads(tok: Tok, tail: string)
    requires SpellsAt(GRAMMAR.times, 0, tok)
    ensures Keyword(GRAMMAR.times, TokOnto(tok, tail)) == Done(GRAMMAR.times[0], tail)
    ensures !IsNumber(TokOnto(tok, tail)[0])
  {
    assert Up(tok.text[0]) == 'T';
    KeywordReads(GRAMMAR.times, 0, tok, tail);
    assert TokOnto(tok, tail)[0] == if tok.ws == "" then tok.text[0] else tok.ws[0];
  }

  lemma GrammarIsReadable()
    ensures Readable(GRAMMAR)
  {
    var g := GRAMMAR;
    forall f: nat, tok: Tok, tail: string | SpellsAt(g.functions, f, tok)
      ensures Keyword(g.functions, TokOnto(tok, tail)) == Done(g.functions[f], tail)
    {
      FunctionReads(f, tok, tail);
    }
    forall k: nat, tok: Tok, tail: string | SpellsAt(g.operators, k, tok) && tail != "" &&
      (IsSpace(tail[0]) || IsNumber(tail[0]))
      ensures Keyword(g.operators, TokOnto(tok, tail)) == Done(g.operators[k], tail)
    {
      OperatorReads(k, tok, tail);
    }
    forall tok: Tok, tail: string | SpellsAt(g.times, 0, tok)
      ensures Keyword(g.times, TokOnto(tok, tail)) == Done(g.times[0], tail) && !IsNumber(TokOnto(tok, tail)[0])
    {
      TimesReads(tok, tail);
    }
  }

  lemma TimesRead(g: Literals, t: TimesText, tail: string)
    requires Readable(g) && LegalTimes(g, t) && Stop(g, tail)
    ensures ParseTimes(g, TimesOnto(t, tail)) == (TimesOf(t), tail)
  {
    if t.Times? {
      assert Keyword(g.times, TokOnto(t.times, TokOnto(t.periods, tail))) == Done(g.times[0], TokOnto(t.periods, tail));
      NumberReads(IsDigit, t.periods, tail);
    }
  }

  lemma ThresholdReads(g: Literals, threshold: Tok, times: TimesText, tail: string)
    requires AllSpace(threshold.ws) && IsWord(threshold.text, IsNumber)
    requires Readable(g) && LegalTimes(g, times) && Stop(g, tail)
    ensures var s := TokOnto(threshold, TimesOnto(times, tail));
            s != "" && (IsSpace(s[0]) || IsNumber(s[0])) &&
            Number(IsNumber, s) == Done(threshold.text, TimesOnto(times, tail))
  {
    assert times.Times? ==> TimesOnto(times, tail) == TokOnto(times.times, TokOnto(times.periods, tail));
    NumberReads(IsNumber, threshold, TimesOnto(times, tail));
    assert IsNumber(threshold.text[0]);
  }

  lemma ComparisonReads(g: Literals, t: SubText, k: nat, f: string, m: string, d: string, p: string, tail: string)
    requires Readable(g) && LegalComparison(g, t, k) && Stop(g, tail)
    ensures ParseComparison(g, f, m, d, p, ComparisonOnto(t, tail)) ==
            Done(SubExpr(f, m, d, g.operators[k], t.threshold.text, p, TimesOf(t.times)), tail)
  {
    var s := TokOnto(t.threshold, TimesOnto(t.times, tail));
    ThresholdReads(g, t.threshold, t.times, tail);
    assert Keyword(g.operators, TokOnto(t.op, s)) == Done(g.operators[k], s);
    TimesRead(g, t.times, tail);
  }

  // No part of the metric clause can be mistaken for the one before it.
  lemma MetricTails(t: SubText, s4: string)
    requires LegalDimensions(t.dims) && LegalPeriod(t.per) && AllSpace(t.rparen)
    ensures var s3 := t.rparen + ([')'] + s4);
            var s2 := PeriodOnto(t.per, s3);
            var s1 := DimensionsOnto(t.dims, s2);
            Symbol(',', s3).Fail? && !IsDigit(s3[0]) && Symbol('{', s2).Fail? && s1 != "" && !IsIdent(s1[0])
  {
    var s3 := t.rparen + ([')'] + s4);
    var s2 := PeriodOnto(t.per, s3);
    SymbolReads(t.rparen, ')', s4);
    AfterSpace(t.rparen, ')', s4);
    if t.per.Period? {
      SymbolReads(t.per.comma, ',', TokOnto(t.per.period, s3));
      AfterSpace(t.per.comma, ',', TokOnto(t.per.period, s3));
    }
    if t.dims.Dimensions? {
      AfterSpace(t.dims.lbrace, '{', ListOnto(t.dims.list, t.dims.rbrace + (['}'] + s2)));
    }
  }

  // Whatever follows the closing parenthesis is left to the comparison.
  lemma MetricFrontReads(g: Literals, f: string, t: SubText, s4: string)
    requires g.NoneEmpty() && AllSpace(t.metric.ws) && IsName(t.metric.text)
    requires LegalDimensions(t.dims) && LegalPeriod(t.per) && AllSpace(t.rparen)
    ensures ParseMetric(g, f, MetricFrontOnto(t, s4)) ==
            ParseComparison(g, f, t.metric.text, DimensionsOf(t.dims), PeriodOf(t.per), s4)
  {
    var s3 := t.rparen + ([')'] + s4);
    var s2 := PeriodOnto(t.per, s3);
    var s1 := DimensionsOnto(t.dims, s2);
    MetricTails(t, s4);
    assert Symbol(')', s3) == Done((), s4) by { SymbolReads(t.rparen, ')', s4); }
    assert ParsePeriod(s2) == (PeriodOf(t.per), s3) by { PeriodReads(t.per, s3); }
    assert ParseDimensions(s1) == (DimensionsOf(t.dims), s2) by { DimensionsRead(t.dims, s2); }
    assert Name(MetricFrontOnto(t, s4)) == Done(t.metric.text, s1) by { NameReads(t.metric, s1); }
  }

  lemma MetricReads(g: Literals, t: SubText, f: nat, k: nat, tail: string)
    requires Readable(g) && LegalAs(g, t, f, k) && Stop(g, tail)
    ensures ParseMetric(g, g.functions[f], MetricOnto(t, tail)) == Done(ValueAs(g, t, f, k), tail)
  {
    MetricFrontReads(g, g.functions[f], t, ComparisonOnto(t, tail));
    ComparisonReads(g, t, k, g.functions[f], t.metric.text, DimensionsOf(t.dims), PeriodOf(t.per), tail);
  }

  lemma CallReads(g: Literals, f: nat, func: Tok, lparen: string, tail: string)
    requires Readable(g) && SpellsAt(g.functions, f, func) && AllSpace(lparen)
    ensures ParseSub(g, TokOnto(func, lparen + (['('] + tail))) == ParseMetric(g, g.functions[f], tail)
  {
    var s1 := lparen + (['('] + tail);
    assert Keyword(g.functions, TokOnto(func, s1)) == Done(g.functions[f], s1);
    SymbolReads(lparen, '(', tail);
  }

  lemma SubReads(g: Literals, t: SubText, v: SubExpr, tail: string)
    requires Readable(g) && TextOf(g, t, v) && Stop(g, tail)
    ensures ParseSub(g, SubOnto(t, tail)) == Done(v, tail)
  {
    var f: nat, k: nat :| f < |g.functions| && k < |g.operators| && LegalAs(g, t, f, k) && v == ValueAs(g, t, f, k);
    CallReads(g, f, t.func, t.lparen, MetricOnto(t, tail));
    MetricReads(g, t, f, k, tail);
  }

  // --- whatever is parsed was a text of its value ---

  lemma DimensionsSound(s: string) returns (d: DimensionText)
    ensures LegalDimensions(d) && DimensionsOf(d) == ParseDimensions(s).0
    ensures s == DimensionsOnto(d, ParseDimensions(s).1)
  {
    d := NoDimensions;
    var open := Symbol('{', s);
    if open.Done? && ParseDimensionList(IsIdent, open.rest).Done? {
      var list := ParseDimensionList(IsIdent, open.rest);
      if Symbol('}', list.rest).Done? {
        var lb := SymbolSound('{', s);
        DimensionListSound(IsIdent, open.rest);
        var rb := SymbolSound('}', list.rest);
        d := Dimensions(lb, list.value, rb);
      }
    }
  }

  lemma PeriodSound(s: string) returns (p: PeriodText)
    ensures LegalPeriod(p) && PeriodOf(p) == ParsePeriod(s).0
    ensures s == PeriodOnto(p, ParsePeriod(s).1)
  {
    p := NoPeriod;
    var comma := Symbol(',', s);
    if comma.Done? && Number(IsDigit, comma.rest).Done? {
      var c := SymbolSound(',', s);
      var n := NumberSound(IsDigit, comma.rest);
      p := Period(c, n);
    }
  }

  lemma TimesSound(g: Literals, s: string) returns (t: TimesText)
    requires g.NoneEmpty()
    ensures LegalTimes(g, t) && TimesOf(t) == ParseTimes(g, s).0
    ensures s == TimesOnto(t, ParseTimes(g, s).1)
  {
    t := NoTimes;
    var times := Keyword(g.times, s);
    if times.Done? && Number(IsDigit, times.rest).Done? {
      var w, k := KeywordSound(g.times, s);
      var n := NumberSound(IsDigit, times.rest);
      t := Times(w, n);
    }
  }

  lemma OperatorSound(g: Literals, s: string) returns (op: Tok, k: nat)
    requires g.NoneEmpty()
    requires Keyword(g.operators, s).Done?
    ensures SpellsAt(g.operators, k, op) && Keyword(g.operators, s).value == g.operators[k]
    ensures s == TokOnto(op, Keyword(g.operators, s).rest)
  {
    op, k := KeywordSound(g.operators, s);
  }

  lemma FunctionSound(g: Literals, s: string) returns (func: Tok, f: nat)
    requires g.NoneEmpty()
    requires Keyword(g.functions, s).Done?
    ensures SpellsAt(g.functions, f, func) && Keyword(g.functions, s).value == g.functions[f]
    ensures s == TokOnto(func, Keyword(g.functions, s).rest)
  {
    func, f := KeywordSound(g.functions, s);
  }

  lemma ThresholdSound(g: Literals, s: string) returns (threshold: Tok, times: TimesText)
    requires g.NoneEmpty()
    requires Number(IsNumber, s).Done?
    ensures AllSpace(threshold.ws) && IsWord(threshold.text, IsNumber) && LegalTimes(g, times)
    ensures var n := Number(IsNumber, s);
            n.value == threshold.text && TimesOf(times) == ParseTimes(g, n.rest).0 &&
            s == TokOnto(threshold, TimesOnto(times, ParseTimes(g, n.rest).1))
  {
    threshold := NumberSound(IsNumber, s);
    times := TimesSound(g, Number(IsNumber, s).rest);
  }

  // metric [{dimensions}] [, period] ) read from s, with s6 left
  lemma MetricSound(g: Literals, f: string, s: string) returns (t: SubText, s6: string)
    requires g.NoneEmpty()
    requires ParseMetric(g, f, s).Done?
    ensures AllSpace(t.metric.ws) && IsName(t.metric.text) && AllSpace(t.rparen)
    ensures LegalDimensions(t.dims) && LegalPeriod(t.per)
    ensures s == TokOnto(t.metric, DimensionsOnto(t.dims, PeriodOnto(t.per, t.rparen + ([')'] + s6))))
    ensures ParseMetric(g, f, s) == ParseComparison(g, f, t.metric.text, DimensionsOf(t.dims), PeriodOf(t.per), s6)
  {
    var metric := NameSound(s);
    var s3 := Name(s).rest;
    var dims := DimensionsSound(s3);
    var s4 := ParseDimensions(s3).1;
    var per := PeriodSound(s4);
    var s5 := ParsePeriod(s4).1;
    var rparen := SymbolSound(')', s5);
    s6 := Symbol(')', s5).rest;
    t := SubText(metric, "", metric, dims, per, rparen, metric, metric, NoTimes);
  }

  lemma ComparisonSound(g: Literals, f: string, m: string, d: string, p: string, s: string)
    returns (op: Tok, threshold: Tok, times: TimesText, k: nat)
    requires g.NoneEmpty()
    requires ParseComparison(g, f, m, d, p, s).Done?
    ensures SpellsAt(g.operators, k, op) && AllSpace(threshold.ws) && IsWord(threshold.text, IsNumber) &&
            LegalTimes(g, times)
    ensures var r := ParseComparison(g, f, m, d, p, s);
            r.value == SubExpr(f, m, d, g.operators[k], threshold.text, p, TimesOf(times)) &&
            s == TokOnto(op, TokOnto(threshold, TimesOnto(times, r.rest)))
  {
    op, k := OperatorSound(g, s);
    threshold, times := ThresholdSound(g, Keyword(g.operators, s).rest);
  }

  // function ( read from s, with s2 left
  lemma CallSound(g: Literals, s: string) returns (func: Tok, lparen: string, f: nat, s2: string)
    requires g.NoneEmpty()
    requires ParseSub(g, s).Done?
    ensures SpellsAt(g.functions, f, func) && AllSpace(lparen)
    ensures s == TokOnto(func, lparen + (['('] + s2)) && ParseSub(g, s) == ParseMetric(g, g.functions[f], s2)
  {
    func, f := FunctionSound(g, s);
    var s1 := Keyword(g.functions, s).rest;
    lparen := SymbolSound('(', s1);
    s2 := Symbol('(', s1).rest;
  }

  lemma SubSound(g: Literals, s: string) returns (t: SubText)
    requires g.NoneEmpty()
    requires ParseSub(g, s).Done?
    ensures TextOf(g, t, ParseSub(g, s).value) && s == SubOnto(t, ParseSub(g, s).rest)
  {
    var func, lparen, f, s2 := CallSound(g, s);
    var m, s6 := MetricSound(g, g.functions[f], s2);
    var op, threshold, times, k :=
      ComparisonSound(g, g.functions[f], m.metric.text, DimensionsOf(m.dims), PeriodOf(m.per), s6);
    t := m.(func := func, lparen := lparen, op := op, threshold := threshold, times := times);
    assert TextOf(g, t, ValueAs(g, t, f, k)) by { assert LegalAs(g, t, f, k); }
  }
}
