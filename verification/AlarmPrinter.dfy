/**
 The two printers of a sub-expression share one layout; parsing what they print, spaces removed,
 gives the sub-expression back.
 */
module AlarmPrinter {
  import opened Text
  import opened AlarmLexer
  import opened AlarmSubExpression
  import opened AlarmExpression

  // function(metric{dimensions}, period) operator threshold times periods; a part that is "" is left out.
  function Layout(v: SubExpr): string {
    v.func + ("(" + (v.metricName + (
      (if v.dimensions == "" then "" else "{" + (v.dimensions + "}")) +
      ((if v.period == "" then "" else ", " + v.period) +
       (") " + (v.operator + (" " + (v.threshold + (if v.periods == "" then "" else " times " + v.periods)))))))))
  }

  // Every SubExpr the parser builds is valid, and every valid one is built from some text.
  ghost predicate Valid(v: SubExpr) {
    v.func in GRAMMAR.functions && IsName(v.metricName) &&
    (v.dimensions == "" || exists l :: LegalList(IsIdent, l) && v.dimensions == ListOnto(l, "")) &&
    v.operator in GRAMMAR.operators && IsWord(v.threshold, IsNumber) &&
    (v.period == "" || IsWord(v.period, IsDigit)) && (v.periods == "" || IsWord(v.periods, IsDigit))
  }

  // w is v with its function and operator spelled in some mixture of cases.
  predicate RespelledFrom(w: SubExpr, v: SubExpr) {
    Spells(w.func, v.func) && Spells(w.operator, v.operator) && w == v.(func := w.func, operator := w.operator)
  }

  function NoSpace(s: string): bool {
    ' ' !in s
  }

  lemma WordsHaveNoSpace(w: string, p: char -> bool)
    requires IsWord(w, p) && !p(' ')
    ensures NoSpace(w)
  {
    forall i | 0 <= i < |w| ensures w[i] != ' ' { assert p(w[i]); }
  }

  lemma {:induction false} ListsHaveNoSpace(l: DimensionList)
    requires LegalList(IsIdent, l)
    ensures NoSpace(ListOnto(l, ""))
  {
    WordsHaveNoSpace(l.name, IsIdent);
    WordsHaveNoSpace(l.value, IsIdent);
    if l.More? {
      ListsHaveNoSpace(l.rest);
    }
  }

  lemma SpelledHasNoSpace(text: string, ws: seq<string>, w: string)
    requires Spells(text, w) && w in ws && forall i :: 0 <= i < |ws| ==> NoSpace(ws[i])
    requires ws == GRAMMAR.functions || ws == GRAMMAR.operators
    ensures NoSpace(text)
  {
    forall i | 0 <= i < |text| ensures text[i] != ' ' {
      assert Up(text[i]) == Up(w[i]) && w[i] in w;
    }
  }

  lemma ValidHasNoSpace(w: SubExpr, v: SubExpr)
    requires Valid(v) && RespelledFrom(w, v)
    ensures NoSpace(w.func) && NoSpace(w.metricName) && NoSpace(w.dimensions) && NoSpace(w.operator)
    ensures NoSpace(w.threshold) && NoSpace(w.period) && NoSpace(w.periods)
  {
    SpelledHasNoSpace(w.func, GRAMMAR.functions, v.func);
    SpelledHasNoSpace(w.operator, GRAMMAR.operators, v.operator);
    WordsHaveNoSpace(w.metricName, IsIdent);
    WordsHaveNoSpace(w.threshold, IsNumber);
    if w.dimensions != "" {
      var l :| LegalList(IsIdent, l) && w.dimensions == ListOnto(l, "");
      ListsHaveNoSpace(l);
    }
    if w.period != "" { WordsHaveNoSpace(w.period, IsDigit); }
    if w.periods != "" { WordsHaveNoSpace(w.periods, IsDigit); }
  }

  // The text left when the spaces of the layout are removed
  function Packed(v: SubExpr): string {
    v.func + ("(" + (v.metricName + (
      (if v.dimensions == "" then "" else "{" + (v.dimensions + "}")) +
      ((if v.period == "" then "" else "," + v.period) +
       (")" + (v.operator + (v.threshold + (if v.periods == "" then "" else "times" + v.periods))))))))
  }

  lemma StripOnto(a: string, b: string)
    requires NoSpace(a)
    ensures Strip(a + b) == a + Strip(b)
  {
    StripConcat(a, b);
    StripIdentity(a);
  }

  lemma StripSpaceOnto(b: string)
    ensures Strip(" " + b) == Strip(b)
  {
    assert (" " + b)[1..] == b;
  }

  lemma StripTimes(w: SubExpr)
    requires NoSpace(w.periods)
    ensures Strip(if w.periods == "" then "" else " times " + w.periods) ==
            if w.periods == "" then "" else "times" + w.periods
  {
    if w.periods != "" {
      assert " times " + w.periods == " " + ("times" + (" " + w.periods));
      StripSpaceOnto("times" + (" " + w.periods));
      StripOnto("times", " " + w.periods);
      StripSpaceOnto(w.periods);
      StripIdentity(w.periods);
    }
  }

  lemma StripPeriod(w: SubExpr, tail: string)
    requires NoSpace(w.period)
    ensures Strip((if w.period == "" then "" else ", " + w.period) + tail) ==
            (if w.period == "" then "" else "," + w.period) + Strip(tail)
  {
    if w.period == "" {
      StripOnto("", tail);
    } else {
      assert ", " + w.period + tail == "," + (" " + (w.period + tail));
      StripOnto(",", " " + (w.period + tail));
      StripSpaceOnto(w.period + tail);
      StripOnto(w.period, tail);
      assert "," + (w.period + Strip(tail)) == ("," + w.period) + Strip(tail);
    }
  }

  lemma StripTail(w: SubExpr, times: string)
    requires NoSpace(w.operator) && NoSpace(w.threshold)
    ensures Strip(") " + (w.operator + (" " + (w.threshold + times)))) ==
            ")" + (w.operator + (w.threshold + Strip(times)))
  {
    var s := w.operator + (" " + (w.threshold + times));
    assert ") " + s == ")" + (" " + s);
    StripOnto(")", " " + s);
    StripSpaceOnto(s);
    StripOnto(w.operator, " " + (w.threshold + times));
    StripSpaceOnto(w.threshold + times);
    StripOnto(w.threshold, times);
  }

  lemma StripsToPacked(w: SubExpr, v: SubExpr)
    requires Valid(v) && RespelledFrom(w, v)
    ensures Strip(Layout(w)) == Packed(w)
  {
    ValidHasNoSpace(w, v);
    StripsWithoutSpaces(w);
  }

  // No field holds a space.
  predicate Spaceless(w: SubExpr) {
    NoSpace(w.func) && NoSpace(w.metricName) && NoSpace(w.dimensions) && NoSpace(w.operator) &&
    NoSpace(w.threshold) && NoSpace(w.period) && NoSpace(w.periods)
  }

  lemma StripsWithoutSpaces(w: SubExpr)
    requires Spaceless(w)
    ensures Strip(Layout(w)) == Packed(w)
  {
    var times := if w.periods == "" then "" else " times " + w.periods;
    var s3 := ") " + (w.operator + (" " + (w.threshold + times)));
    StripTimes(w);
    StripTail(w, times);
    var s2 := (if w.period == "" then "" else ", " + w.period) + s3;
    StripPeriod(w, s3);
    var dims := if w.dimensions == "" then "" else "{" + (w.dimensions + "}");
    StripOnto(dims, s2);
    StripOnto(w.metricName, dims + s2);
    StripOnto("(", w.metricName + (dims + s2));
    StripOnto(w.func, "(" + (w.metricName + (dims + s2)));
  }

  lemma {:induction false} ListOntoAppends(l: DimensionList, tail: string)
    ensures ListOnto(l, tail) == ListOnto(l, "") + tail
  {
    if l.One? {
      assert l.value + tail == (l.value + "") + tail;
    } else {
      ListOntoAppends(l.rest, tail);
      assert l.value + ([','] + (ListOnto(l.rest, "") + tail)) == (l.value + ([','] + ListOnto(l.rest, ""))) + tail;
    }
    var s := l.value + (if l.One? then "" else [','] + ListOnto(l.rest, ""));
    assert l.name + (['='] + (s + tail)) == (l.name + (['='] + s)) + tail;
  }

  // d is a text of the dimensions, without white space around the braces.
  ghost predicate Bare(d: DimensionText, dimensions: string) {
    LegalDimensions(d) && DimensionsOf(d) == dimensions && (d.NoDimensions? <==> dimensions == "") &&
    (d.Dimensions? ==> d.lbrace == "" && d.rbrace == "")
  }

  lemma BareText(v: SubExpr) returns (d: DimensionText)
    requires Valid(v)
    ensures Bare(d, v.dimensions)
  {
    if v.dimensions == "" {
      d := NoDimensions;
    } else {
      var l :| LegalList(IsIdent, l) && v.dimensions == ListOnto(l, "");
      d := Dimensions("", l, "");
    }
  }

  // The packed text, token by token
  ghost function PackedText(w: SubExpr, d: DimensionText): SubText {
    SubText(Tok("", w.func), "", Tok("", w.metricName), d,
      if w.period == "" then NoPeriod else Period("", Tok("", w.period)), "",
      Tok("", w.operator), Tok("", w.threshold),
      if w.periods == "" then NoTimes else Times(Tok("", "times"), Tok("", w.periods)))
  }

  lemma PackedTextIsText(w: SubExpr, v: SubExpr, d: DimensionText)
    requires Valid(v) && RespelledFrom(w, v) && Bare(d, v.dimensions)
    ensures TextOf(GRAMMAR, PackedText(w, d), v)
  {
    var t := PackedText(w, d);
    var f: nat :| f < |GRAMMAR.functions| && GRAMMAR.functions[f] == v.func;
    var k: nat :| k < |GRAMMAR.operators| && GRAMMAR.operators[k] == v.operator;
    assert LegalAs(GRAMMAR, t, f, k);
  }

  lemma NoneInFront(s: string)
    ensures "" + s == s && s + "" == s
  {
  }

  lemma PackedTailText(w: SubExpr, d: DimensionText)
    ensures ComparisonOnto(PackedText(w, d), "") ==
            w.operator + (w.threshold + (if w.periods == "" then "" else "times" + w.periods))
  {
    NoneInFront(w.periods);
    var times := if w.periods == "" then "" else "times" + w.periods;
    NoneInFront(times);
    NoneInFront(w.threshold + times);
    NoneInFront(w.operator + (w.threshold + times));
  }

  lemma PackedMiddleText(w: SubExpr, d: DimensionText, tail: string)
    requires Bare(d, w.dimensions)
    ensures var t := PackedText(w, d);
            DimensionsOnto(t.dims, PeriodOnto(t.per, t.rparen + ([')'] + tail))) ==
            (if w.dimensions == "" then "" else "{" + (w.dimensions + "}")) +
            ((if w.period == "" then "" else "," + w.period) + (")" + tail))
  {
    var t := PackedText(w, d);
    var s1 := ")" + tail;
    NoneInFront(s1);
    var s2 := PeriodOnto(t.per, s1);
    assert s2 == (if w.period == "" then "" else "," + w.period) + s1;
    if t.dims.Dimensions? {
      ListOntoAppends(t.dims.list, "" + (['}'] + s2));
      assert "{" + (w.dimensions + ("" + (['}'] + s2))) == ("{" + (w.dimensions + "}")) + s2;
    }
  }

  lemma PackedIsItsText(w: SubExpr, d: DimensionText)
    requires Bare(d, w.dimensions)
    ensures Packed(w) == SubOnto(PackedText(w, d), "")
  {
    PackedMetric(w, d);
    PackedTailText(w, d);
    PackedSub(w, d, MetricOnto(PackedText(w, d), ""));
  }

  lemma PackedMetric(w: SubExpr, d: DimensionText)
    requires Bare(d, w.dimensions)
    ensures var t := PackedText(w, d);
            MetricOnto(t, "") == w.metricName + ((if w.dimensions == "" then "" else "{" + (w.dimensions + "}")) +
                                 ((if w.period == "" then "" else "," + w.period) + (")" + ComparisonOnto(t, ""))))
  {
    var t := PackedText(w, d);
    var rest := DimensionsOnto(t.dims, PeriodOnto(t.per, t.rparen + ([')'] + ComparisonOnto(t, ""))));
    PackedMiddleText(w, d, ComparisonOnto(t, ""));
    assert MetricOnto(t, "") == TokOnto(t.metric, rest);
    NoneInFront(w.metricName);
    NoneInFront(w.metricName + rest);
  }

  lemma PackedSub(w: SubExpr, d: DimensionText, m: string)
    requires m == MetricOnto(PackedText(w, d), "")
    ensures SubOnto(PackedText(w, d), "") == w.func + ("(" + m)
  {
    NoneInFront("(" + m);
    NoneInFront(w.func + ("(" + m));
  }

  lemma SingleText(t: SubText, v: SubExpr)
    ensures OrOnto(OrText(AndText(Sub(t, v), AndEnd), OrEnd), "") == SubOnto(t, "")
  {
    var a := AndText(Sub(t, v), AndEnd);
    assert OrTailOnto(OrEnd, "") == "" && AndTailOnto(AndEnd, "") == "";
    assert AndOnto(a, "") == AtomOnto(Sub(t, v), AndTailOnto(AndEnd, ""));
    assert OrOnto(OrText(a, OrEnd), "") == AndOnto(a, OrTailOnto(OrEnd, ""));
  }

  lemma SingleTree(t: SubText, v: SubExpr)
    requires TextOf(GRAMMAR, t, v)
    ensures var e := OrText(AndText(Sub(t, v), AndEnd), OrEnd);
            LegalOr(GRAMMAR, e) && OrTree(GRAMMAR, e) == Leaf(v)
  {
    var g := GRAMMAR;
    var a := AndText(Sub(t, v), AndEnd);
    assert LegalAndTail(g, AndEnd) && LegalOrTail(g, OrEnd);
    assert LegalAtom(g, Sub(t, v)) && LegalAnd(g, a);
    assert AtomTree(g, Sub(t, v)) == Leaf(v);
    assert AndPairs(g, AndEnd) == [] && OrPairs(g, OrEnd) == [];
    assert AndTree(g, a) == Leaf(v);
  }

  lemma SingleParses(t: SubText, v: SubExpr)
    requires TextOf(GRAMMAR, t, v)
    ensures Parse(GRAMMAR, SubOnto(t, "")) == Some(Leaf(v))
  {
    var e := OrText(AndText(Sub(t, v), AndEnd), OrEnd);
    SingleText(t, v);
    SingleTree(t, v);
    assert AllSpace("");
    assert Spelled(e, OrOnto(e, ""));
    ParsesExactly(SubOnto(t, ""), Leaf(v));
  }

  /** Whatever the case of its function and operator, a printed sub-expression parses to itself. */
  lemma LayoutParses(w: SubExpr, v: SubExpr)
    requires Valid(v) && RespelledFrom(w, v)
    ensures Parse(GRAMMAR, Strip(Layout(w))) == Some(Leaf(v))
  {
    var d := BareText(v);
    StripsToPacked(w, v);
    PackedIsItsText(w, d);
    PackedTextIsText(w, v, d);
    SingleParses(PackedText(w, d), v);
  }

  /** fmtd_sub_expr_str round-trips for every valid sub-expression, each optional part present or absent. */
  lemma FormattedRoundTrip(v: SubExpr)
    requires Valid(v)
    ensures SubExprList(Layout(v)) == Some([v])
  {
    LayoutParses(v, v);
  }

  /** Valid is exactly what the parser produces. */
  lemma ParsedIsValid(v: SubExpr)
    ensures Valid(v) <==> exists s :: Parse(GRAMMAR, s) == Some(Leaf(v))
  {
    if Valid(v) {
      LayoutParses(v, v);
    }
    forall s | Parse(GRAMMAR, s) == Some(Leaf(v)) ensures Valid(v) {
      ParsesExactly(s, Leaf(v));
      var e :| Spelled(e, s) && Leaf(v) == OrTree(GRAMMAR, e);
      OrLeaves(GRAMMAR, e);
      SubsAreValid(e);
      assert Leaves(Leaf(v)) == [v];
      assert v in OrSubs(e);
    }
  }

  lemma TextIsValid(t: SubText, v: SubExpr)
    requires TextOf(GRAMMAR, t, v)
    ensures Valid(v)
  {
    var f: nat, k: nat :| f < |GRAMMAR.functions| && k < |GRAMMAR.operators| && LegalAs(GRAMMAR, t, f, k) &&
      v == ValueAs(GRAMMAR, t, f, k);
  }

  lemma {:induction false} AtomSubsAreValid(a: AtomText)
    requires LegalAtom(GRAMMAR, a)
    ensures forall v | v in AtomSubs(a) :: Valid(v)
  {
    match a
    case Sub(t, v) => TextIsValid(t, v);
    case Paren(_, e, _) => SubsAreValid(e);
  }

  lemma {:induction false} AndTailSubsAreValid(m: AndTail)
    requires LegalAndTail(GRAMMAR, m)
    ensures forall v | v in AndTailSubs(m) :: Valid(v)
  {
    if m.AndMore? {
      AtomSubsAreValid(m.operand);
      AndTailSubsAreValid(m.more);
    }
  }

  lemma {:induction false} OrTailSubsAreValid(m: OrTail)
    requires LegalOrTail(GRAMMAR, m)
    ensures forall v | v in OrTailSubs(m) :: Valid(v)
  {
    if m.OrMore? {
      AtomSubsAreValid(m.operand.first);
      AndTailSubsAreValid(m.operand.more);
      OrTailSubsAreValid(m.more);
    }
  }

  lemma {:induction false} SubsAreValid(e: OrText)
    requires LegalOr(GRAMMAR, e)
    ensures forall v | v in OrSubs(e) :: Valid(v)
  {
    AtomSubsAreValid(e.first.first);
    AndTailSubsAreValid(e.first.more);
    OrTailSubsAreValid(e.more);
  }

  /** Every sub-expression of a parsed expression prints to a text that parses to it alone. */
  lemma ParsedSubsRoundTrip(expr: string)
    requires SubExprList(expr).Some?
    ensures forall v | v in SubExprList(expr).value :: Valid(v) && SubExprList(Layout(v)) == Some([v])
  {
    var t := Parse(GRAMMAR, Strip(expr)).value;
    ParsesExactly(Strip(expr), t);
    var e :| Spelled(e, Strip(expr)) && t == OrTree(GRAMMAR, e);
    OrLeaves(GRAMMAR, e);
    SubsAreValid(e);
    forall v | v in SubExprList(expr).value ensures Valid(v) && SubExprList(Layout(v)) == Some([v]) {
      FormattedRoundTrip(v);
    }
  }
}
