/**
 Alarm expressions: sub-expressions combined by AND and OR with parentheses. operatorPrecedence is two
 n-ary levels over an atom; the parser accepts exactly the texts of the grammar and AND binds tighter than OR.
 */
module AlarmExpression {
  import opened Text
  import opened AlarmLexer
  import opened AlarmSubExpression

  // SubExpr, AndSubExpr and OrSubExpr objects; op is the first operator of the chain.
  datatype Tree =
    | Leaf(sub: SubExpr)
    | AndNode(op: string, operands: seq<Tree>)
    | OrNode(op: string, operands: seq<Tree>)

  // A chain is an operand followed by operators with their right operands.
  type Chain = seq<(string, Tree)>

  function Operands(first: Tree, more: Chain): (r: seq<Tree>)
    ensures |r| == |more| + 1 && r[0] == first
    ensures forall i :: 0 <= i < |more| ==> r[i + 1] == more[i].1
  {
    [first] + seq(|more|, i requires 0 <= i < |more| => more[i].1)
  }

  function AndChain(first: Tree, more: Chain): Tree {
    if more == [] then first else AndNode(more[0].0, Operands(first, more))
  }

  function OrChain(first: Tree, more: Chain): Tree {
    if more == [] then first else OrNode(more[0].0, Operands(first, more))
  }

  // --- the parser ---

  function ParseAtom(g: Literals, s: string): (r: Parsed<Tree>)
    requires g.NoneEmpty()
    ensures r.Done? ==> |r.rest| < |s|
    decreases |s|, 0
  {
    var sub := ParseSub(g, s);
    if sub.Done? then Done(Leaf(sub.value), sub.rest)
    else
      var open := Symbol('(', s);
      if open.Fail? then Fail
      else
        var e := ParseOr(g, open.rest);
        if e.Fail? then Fail
        else
          var close := Symbol(')', e.rest);
          if close.Fail? then Fail else Done(e.value, close.rest)
  }

  function ParseAndTail(g: Literals, s: string): (r: (Chain, string))
    requires g.NoneEmpty()
    ensures |r.1| <= |s|
    decreases |s|, 1
  {
    var op := Keyword(g.ands, s);
    if op.Fail? then ([], s)
    else
      var operand := ParseAtom(g, op.rest);
      if operand.Fail? then ([], s)
      else
        var more := ParseAndTail(g, operand.rest);
        ([(op.value, operand.value)] + more.0, more.1)
  }

  function ParseAnd(g: Literals, s: string): (r: Parsed<Tree>)
    requires g.NoneEmpty()
    ensures r.Done? ==> |r.rest| < |s|
    decreases |s|, 2
  {
    var first := ParseAtom(g, s);
    if first.Fail? then Fail
    else
      var more := ParseAndTail(g, first.rest);
      Done(AndChain(first.value, more.0), more.1)
  }

  function ParseOrTail(g: Literals, s: string): (r: (Chain, string))
    requires g.NoneEmpty()
    ensures |r.1| <= |s|
    decreases |s|, 3
  {
    var op := Keyword(g.ors, s);
    if op.Fail? then ([], s)
    else
      var operand := ParseAnd(g, op.rest);
      if operand.Fail? then ([], s)
      else
        var more := ParseOrTail(g, operand.rest);
        ([(op.value, operand.value)] + more.0, more.1)
  }

  function ParseOr(g: Literals, s: string): (r: Parsed<Tree>)
    requires g.NoneEmpty()
    ensures r.Done? ==> |r.rest| < |s|
    decreases |s|, 4
  {
    var first := ParseAnd(g, s);
    if first.Fail? then Fail
    else
      var more := ParseOrTail(g, first.rest);
      Done(OrChain(first.value, more.0), more.1)
  }

  // expression + stringEnd
  function Parse(g: Literals, s: string): Option<Tree>
    requires g.NoneEmpty()
  {
    var e := ParseOr(g, s);
    if e.Done? && SkipSpace(e.rest) == "" then Some(e.value) else None
  }

  // operands_list
  function Leaves(t: Tree): seq<SubExpr> {
    match t
    case Leaf(sub) => [sub]
    case AndNode(_, operands) => AllLeaves(operands)
    case OrNode(_, operands) => AllLeaves(operands)
  }

  function AllLeaves(ts: seq<Tree>): seq<SubExpr> {
    if ts == [] then [] else Leaves(ts[0]) + AllLeaves(ts[1..])
  }

  // AlarmExprParser.sub_expr_list; None stands for a ParseException.
  function SubExprList(expr: string): Option<seq<SubExpr>> {
    var t := Parse(GRAMMAR, Strip(expr));
    if t.Some? then Some(Leaves(t.value)) else None
  }

  // --- the texts ---

  datatype AtomText = Sub(text: SubText, value: SubExpr) | Paren(lparen: string, inner: OrText, rparen: string)
  datatype AndText = AndText(first: AtomText, more: AndTail)
  datatype AndTail = AndEnd | AndMore(k: nat, op: Tok, operand: AtomText, more: AndTail)
  datatype OrText = OrText(first: AndText, more: OrTail)
  datatype OrTail = OrEnd | OrMore(k: nat, op: Tok, operand: AndText, more: OrTail)

  function AtomOnto(a: AtomText, tail: string): string {
    match a
    case Sub(t, _) => SubOnto(t, tail)
    case Paren(lp, e, rp) => lp + (['('] + OrOnto(e, rp + ([')'] + tail)))
  }

  function AndTailOnto(m: AndTail, tail: string): string {
    if m.AndEnd? then tail else TokOnto(m.op, AtomOnto(m.operand, AndTailOnto(m.more, tail)))
  }

  function AndOnto(e: AndText, tail: string): string {
    AtomOnto(e.first, AndTailOnto(e.more, tail))
  }

  function OrTailOnto(m: OrTail, tail: string): string {
    if m.OrEnd? then tail else TokOnto(m.op, AndOnto(m.operand, OrTailOnto(m.more, tail)))
  }

  function OrOnto(e: OrText, tail: string): string {
    AndOnto(e.first, OrTailOnto(e.more, tail))
  }

  ghost predicate LegalAtom(g: Literals, a: AtomText)
    requires g.NoneEmpty()
  {
    match a
    case Sub(t, v) => TextOf(g, t, v)
    case Paren(lp, e, rp) => AllSpace(lp) && LegalOr(g, e) && AllSpace(rp)
  }

  ghost predicate LegalAndTail(g: Literals, m: AndTail)
    requires g.NoneEmpty()
  {
    m.AndMore? ==> SpellsAt(g.ands, m.k, m.op) && LegalAtom(g, m.operand) && LegalAndTail(g, m.more)
  }

  ghost predicate LegalAnd(g: Literals, e: AndText)
    requires g.NoneEmpty()
  {
    LegalAtom(g, e.first) && LegalAndTail(g, e.more)
  }

  ghost predicate LegalOrTail(g: Literals, m: OrTail)
    requires g.NoneEmpty()
  {
    m.OrMore? ==> SpellsAt(g.ors, m.k, m.op) && LegalAnd(g, m.operand) && LegalOrTail(g, m.more)
  }

  ghost predicate LegalOr(g: Literals, e: OrText)
    requires g.NoneEmpty()
  {
    LegalAnd(g, e.first) && LegalOrTail(g, e.more)
  }

  // --- the tree a text stands for ---

  ghost function AtomTree(g: Literals, a: AtomText): Tree
    requires g.NoneEmpty() && LegalAtom(g, a)
  {
    if a.Sub? then Leaf(a.value) else OrTree(g, a.inner)
  }

  ghost function AndPairs(g: Literals, m: AndTail): Chain
    requires g.NoneEmpty() && LegalAndTail(g, m)
  {
    if m.AndEnd? then [] else [(g.ands[m.k], AtomTree(g, m.operand))] + AndPairs(g, m.more)
  }

  ghost function AndTree(g: Literals, e: AndText): Tree
    requires g.NoneEmpty() && LegalAnd(g, e)
  {
    AndChain(AtomTree(g, e.first), AndPairs(g, e.more))
  }

  ghost function OrPairs(g: Literals, m: OrTail): Chain
    requires g.NoneEmpty() && LegalOrTail(g, m)
  {
    if m.OrEnd? then [] else [(g.ors[m.k], AndTree(g, m.operand))] + OrPairs(g, m.more)
  }

  ghost function OrTree(g: Literals, e: OrText): Tree
    requires g.NoneEmpty() && LegalOr(g, e)
  {
    OrChain(AndTree(g, e.first), OrPairs(g, e.more))
  }

  // --- every text is parsed to its tree ---

  // The connectives are read as such, and nothing that can follow an operand is mistaken for its continuation.
  ghost predicate Separable(g: Literals) {
    Readable(g) && AndsReadable(g) && OrsReadable(g) && ParenthesesSeparate(g) && SpaceSeparates(g)
  }

  ghost predicate AndsReadable(g: Literals)
    requires g.NoneEmpty()
  {
    forall k: nat, tok: Tok, tail: string :: SpellsAt(g.ands, k, tok) ==>
      Keyword(g.ands, TokOnto(tok, tail)) == Done(g.ands[k], tail) && Stop(g, TokOnto(tok, tail))
  }

  ghost predicate OrsReadable(g: Literals)
    requires g.NoneEmpty()
  {
    forall k: nat, tok: Tok, tail: string :: SpellsAt(g.ors, k, tok) ==>
      Keyword(g.ors, TokOnto(tok, tail)) == Done(g.ors[k], tail) && Stop(g, TokOnto(tok, tail)) &&
      Keyword(g.ands, TokOnto(tok, tail)).Fail?
  }

  ghost predicate ParenthesesSeparate(g: Literals)
    requires g.NoneEmpty()
  {
    forall ws: string, tail: string :: AllSpace(ws) ==>
      End(g, ws + ([')'] + tail)) && ParseSub(g, ws + (['('] + tail)).Fail?
  }

  ghost predicate SpaceSeparates(g: Literals)
    requires g.NoneEmpty()
  {
    forall ws: string :: AllSpace(ws) ==> End(g, ws)
  }

  // What may follow an expression
  predicate End(g: Literals, tail: string)
    requires g.NoneEmpty()
  {
    Stop(g, tail) && Keyword(g.ands, tail).Fail? && Keyword(g.ors, tail).Fail?
  }

  lemma {:induction false} AtomReads(g: Literals, a: AtomText, tail: string)
    requires Separable(g) && LegalAtom(g, a) && Stop(g, tail)
    ensures ParseAtom(g, AtomOnto(a, tail)) == Done(AtomTree(g, a), tail)
    decreases a
  {
    match a
    case Sub(t, v) =>
      SubAtomReads(g, t, v, tail);
    case Paren(lp, e, rp) =>
      var s2 := rp + ([')'] + tail);
      ParenEnds(g, rp, tail);
      OrReads(g, e, s2);
      ParenReads(g, lp, rp, OrOnto(e, s2), OrTree(g, e), tail);
  }

  lemma SubAtomReads(g: Literals, t: SubText, v: SubExpr, tail: string)
    requires Readable(g) && TextOf(g, t, v) && Stop(g, tail)
    ensures ParseAtom(g, SubOnto(t, tail)) == Done(Leaf(v), tail)
  {
    SubReads(g, t, v, tail);
  }

  lemma ParenEnds(g: Literals, rp: string, tail: string)
    requires Separable(g) && AllSpace(rp)
    ensures End(g, rp + ([')'] + tail))
  {
  }

  // Parentheses around a text that reads as a tree
  lemma ParenReads(g: Literals, lp: string, rp: string, inner: string, tree: Tree, tail: string)
    requires Separable(g) && AllSpace(lp) && AllSpace(rp)
    requires ParseOr(g, inner) == Done(tree, rp + ([')'] + tail))
    ensures ParseAtom(g, lp + (['('] + inner)) == Done(tree, tail)
  {
    var s2 := rp + ([')'] + tail);
    assert ParseSub(g, lp + (['('] + inner)).Fail?;
    assert Symbol('(', lp + (['('] + inner)) == Done((), inner) by { SymbolReads(lp, '(', inner); }
    assert Symbol(')', s2) == Done((), tail) by { SymbolReads(rp, ')', tail); }
  }

  lemma {:induction false} AndTailReads(g: Literals, m: AndTail, tail: string)
    requires Separable(g) && LegalAndTail(g, m) && Stop(g, tail) && Keyword(g.ands, tail).Fail?
    ensures ParseAndTail(g, AndTailOnto(m, tail)) == (AndPairs(g, m), tail) && Stop(g, AndTailOnto(m, tail))
    decreases m
  {
    if m.AndMore? {
      var s2 := AndTailOnto(m.more, tail);
      var s1 := AtomOnto(m.operand, s2);
      AndTailReads(g, m.more, tail);
      assert ParseAtom(g, s1) == Done(AtomTree(g, m.operand), s2) by { AtomReads(g, m.operand, s2); }
      assert Keyword(g.ands, TokOnto(m.op, s1)) == Done(g.ands[m.k], s1);
    }
  }

  lemma {:induction false} AndReads(g: Literals, e: AndText, tail: string)
    requires Separable(g) && LegalAnd(g, e) && Stop(g, tail) && Keyword(g.ands, tail).Fail?
    ensures ParseAnd(g, AndOnto(e, tail)) == Done(AndTree(g, e), tail)
    decreases e
  {
    AndTailReads(g, e.more, tail);
    AtomReads(g, e.first, AndTailOnto(e.more, tail));
  }

  lemma {:induction false} OrTailReads(g: Literals, m: OrTail, tail: string)
    requires Separable(g) && LegalOrTail(g, m) && End(g, tail)
    ensures ParseOrTail(g, OrTailOnto(m, tail)) == (OrPairs(g, m), tail)
    ensures Stop(g, OrTailOnto(m, tail)) && Keyword(g.ands, OrTailOnto(m, tail)).Fail?
    decreases m
  {
    if m.OrMore? {
      var s2 := OrTailOnto(m.more, tail);
      var s1 := AndOnto(m.operand, s2);
      OrTailReads(g, m.more, tail);
      assert ParseAnd(g, s1) == Done(AndTree(g, m.operand), s2) by { AndReads(g, m.operand, s2); }
      assert Keyword(g.ors, TokOnto(m.op, s1)) == Done(g.ors[m.k], s1);
    }
  }

  lemma {:induction false} OrReads(g: Literals, e: OrText, tail: string)
    requires Separable(g) && LegalOr(g, e) && End(g, tail)
    ensures ParseOr(g, OrOnto(e, tail)) == Done(OrTree(g, e), tail)
    decreases e
  {
    OrTailReads(g, e.more, tail);
    AndReads(g, e.first, OrTailOnto(e.more, tail));
  }

  // --- whatever is parsed was a text of its tree ---

  lemma {:induction false} AtomSound(g: Literals, s: string) returns (a: AtomText)
    requires g.NoneEmpty() && ParseAtom(g, s).Done?
    ensures LegalAtom(g, a) && ParseAtom(g, s).value == AtomTree(g, a)
    ensures s == AtomOnto(a, ParseAtom(g, s).rest)
    decreases |s|, 0
  {
    var sub := ParseSub(g, s);
    if sub.Done? {
      var t := SubSound(g, s);
      a := Sub(t, sub.value);
    } else {
      var lp := SymbolSound('(', s);
      var s1 := Symbol('(', s).rest;
      var e := OrSound(g, s1);
      var rp := SymbolSound(')', ParseOr(g, s1).rest);
      a := Paren(lp, e, rp);
    }
  }

  lemma {:induction false} AndTailSound(g: Literals, s: string) returns (m: AndTail)
    requires g.NoneEmpty()
    ensures LegalAndTail(g, m) && ParseAndTail(g, s).0 == AndPairs(g, m)
    ensures s == AndTailOnto(m, ParseAndTail(g, s).1)
    decreases |s|, 1
  {
    m := AndEnd;
    var op := Keyword(g.ands, s);
    if op.Done? && ParseAtom(g, op.rest).Done? {
      var tok, k := KeywordSound(g.ands, s);
      var a := AtomSound(g, op.rest);
      var more := AndTailSound(g, ParseAtom(g, op.rest).rest);
      m := AndMore(k, tok, a, more);
    }
  }

  lemma {:induction false} AndSound(g: Literals, s: string) returns (e: AndText)
    requires g.NoneEmpty() && ParseAnd(g, s).Done?
    ensures LegalAnd(g, e) && ParseAnd(g, s).value == AndTree(g, e)
    ensures s == AndOnto(e, ParseAnd(g, s).rest)
    decreases |s|, 2
  {
    var a := AtomSound(g, s);
    var m := AndTailSound(g, ParseAtom(g, s).rest);
    e := AndText(a, m);
  }

  lemma {:induction false} OrTailSound(g: Literals, s: string) returns (m: OrTail)
    requires g.NoneEmpty()
    ensures LegalOrTail(g, m) && ParseOrTail(g, s).0 == OrPairs(g, m)
    ensures s == OrTailOnto(m, ParseOrTail(g, s).1)
    decreases |s|, 3
  {
    m := OrEnd;
    var op := Keyword(g.ors, s);
    if op.Done? && ParseAnd(g, op.rest).Done? {
      var tok, k := KeywordSound(g.ors, s);
      var a := AndSound(g, op.rest);
      var more := OrTailSound(g, ParseAnd(g, op.rest).rest);
      m := OrMore(k, tok, a, more);
    }
  }

  lemma {:induction false} OrSound(g: Literals, s: string) returns (e: OrText)
    requires g.NoneEmpty() && ParseOr(g, s).Done?
    ensures LegalOr(g, e) && ParseOr(g, s).value == OrTree(g, e)
    ensures s == OrOnto(e, ParseOr(g, s).rest)
    decreases |s|, 4
  {
    var a := AndSound(g, s);
    var m := OrTailSound(g, ParseAnd(g, s).rest);
    e := OrText(a, m);
  }

  // --- the concrete grammar ---

  lemma AfterKeyword(ws: seq<string>, first: char, tok: Tok, tail: string)
    requires NoneEmpty(ws) && forall i :: 0 <= i < |ws| ==> Up(ws[i][0]) != Up(first)
    requires tok.text != "" && Up(tok.text[0]) == Up(first) && AllSpace(tok.ws) && !IsSpace(tok.text[0])
    ensures Keyword(ws, TokOnto(tok, tail)).Fail?
  {
    var s := tok.text + tail;
    SkipsTo(tok.ws, s);
    forall i | 0 <= i < |ws|
      ensures !StartsWith(ws[i], s)
    {
      assert s[0] == tok.text[0];
      if |ws[i]| <= |s| {
        assert s[..|ws[i]|][0] == s[0];
      }
    }
    KeywordFails(ws, TokOnto(tok, tail));
  }

  lemma ConnectiveStops(tok: Tok, first: char, tail: string)
    requires first in "ao&|"
    requires tok.text != "" && Up(tok.text[0]) == Up(first) && AllSpace(tok.ws)
    ensures !IsSpace(tok.text[0]) && Stop(GRAMMAR, TokOnto(tok, tail))
  {
    AfterKeyword(GRAMMAR.times, first, tok, tail);
    assert TokOnto(tok, tail)[0] == if tok.ws == "" then tok.text[0] else tok.ws[0];
  }

  lemma AndIsRead(k: nat, tok: Tok, tail: string)
    requires SpellsAt(GRAMMAR.ands, k, tok)
    ensures Keyword(GRAMMAR.ands, TokOnto(tok, tail)) == Done(GRAMMAR.ands[k], tail) &&
            Stop(GRAMMAR, TokOnto(tok, tail))
  {
    var ws := GRAMMAR.ands;
    assert Up(tok.text[0]) == Up(ws[k][0]);
    ConnectiveStops(tok, ws[k][0], tail);
    var s := tok.text + tail;
    assert k == 1 && |s| >= 3 ==> s[..3][0] == tok.text[0];
    KeywordReads(ws, k, tok, tail);
  }

  lemma OrIsRead(k: nat, tok: Tok, tail: string)
    requires SpellsAt(GRAMMAR.ors, k, tok)
    ensures Keyword(GRAMMAR.ors, TokOnto(tok, tail)) == Done(GRAMMAR.ors[k], tail) && Stop(GRAMMAR, TokOnto(tok, tail))
    ensures Keyword(GRAMMAR.ands, TokOnto(tok, tail)).Fail?
  {
    var ws := GRAMMAR.ors;
    assert Up(tok.text[0]) == Up(ws[k][0]);
    ConnectiveStops(tok, ws[k][0], tail);
    AfterKeyword(GRAMMAR.ands, ws[k][0], tok, tail);
    var s := tok.text + tail;
    assert k == 1 ==> s[..2][0] == tok.text[0];
    KeywordReads(ws, k, tok, tail);
  }

  lemma ParenthesesAreRead(ws: string, tail: string)
    requires AllSpace(ws)
    ensures End(GRAMMAR, ws + ([')'] + tail)) && ParseSub(GRAMMAR, ws + (['('] + tail)).Fail?
  {
    AfterKeyword(GRAMMAR.times, ')', Tok(ws, ")"), tail);
    AfterKeyword(GRAMMAR.ands, ')', Tok(ws, ")"), tail);
    AfterKeyword(GRAMMAR.ors, ')', Tok(ws, ")"), tail);
    AfterKeyword(GRAMMAR.functions, '(', Tok(ws, "("), tail);
    var s := ws + ([')'] + tail);
    assert s[0] == if ws == "" then ')' else ws[0];
  }

  lemma SpaceEnds(ws: string)
    requires AllSpace(ws)
    ensures End(GRAMMAR, ws) && SkipSpace(ws) == ""
  {
    assert ws + "" == ws;
    SkipsTo(ws, "");
    KeywordFails(GRAMMAR.times, ws);
    KeywordFails(GRAMMAR.ands, ws);
    KeywordFails(GRAMMAR.ors, ws);
  }

  lemma AndsAreReadable()
    ensures AndsReadable(GRAMMAR)
  {
    var g := GRAMMAR;
    forall k: nat, tok: Tok, tail: string | SpellsAt(g.ands, k, tok)
      ensures Keyword(g.ands, TokOnto(tok, tail)) == Done(g.ands[k], tail) && Stop(g, TokOnto(tok, tail))
    {
      AndIsRead(k, tok, tail);
    }
  }

  lemma OrsAreReadable()
    ensures OrsReadable(GRAMMAR)
  {
    var g := GRAMMAR;
    forall k: nat, tok: Tok, tail: string | SpellsAt(g.ors, k, tok)
      ensures Keyword(g.ors, TokOnto(tok, tail)) == Done(g.ors[k], tail) && Stop(g, TokOnto(tok, tail))
      ensures Keyword(g.ands, TokOnto(tok, tail)).Fail?
    {
      OrIsRead(k, tok, tail);
    }
  }

  lemma ParenthesesDoSeparate()
    ensures ParenthesesSeparate(GRAMMAR)
  {
    forall ws: string, tail: string | AllSpace(ws)
      ensures End(GRAMMAR, ws + ([')'] + tail)) && ParseSub(GRAMMAR, ws + (['('] + tail)).Fail?
    {
      ParenthesesAreRead(ws, tail);
    }
  }

  lemma GrammarIsSeparable()
    ensures Separable(GRAMMAR)
  {
    GrammarIsReadable();
    AndsAreReadable();
    OrsAreReadable();
    ParenthesesDoSeparate();
    forall ws: string | AllSpace(ws) ensures End(GRAMMAR, ws) {
      SpaceEnds(ws);
    }
  }

  // s is a text of e, white space behind it allowed.
  ghost predicate Spelled(e: OrText, s: string) {
    LegalOr(GRAMMAR, e) && exists ws: string :: AllSpace(ws) && s == OrOnto(e, ws)
  }

  /** The parser accepts exactly the texts of the grammar, and gives each the tree of its structure. */
  lemma ParsesExactly(s: string, t: Tree)
    ensures Parse(GRAMMAR, s) == Some(t) <==> exists e: OrText :: Spelled(e, s) && t == OrTree(GRAMMAR, e)
  {
    GrammarIsSeparable();
    if Parse(GRAMMAR, s) == Some(t) {
      var e := OrSound(GRAMMAR, s);
      var rest := ParseOr(GRAMMAR, s).rest;
      var ws := Skipped(rest);
      assert ws == rest;
      assert Spelled(e, s);
    }
    forall e: OrText | Spelled(e, s) && t == OrTree(GRAMMAR, e)
      ensures Parse(GRAMMAR, s) == Some(t)
    {
      var ws: string :| AllSpace(ws) && s == OrOnto(e, ws);
      SpaceEnds(ws);
      OrReads(GRAMMAR, e, ws);
    }
  }

  // --- the operands, in textual order ---

  ghost function AtomSubs(a: AtomText): seq<SubExpr> {
    if a.Sub? then [a.value] else OrSubs(a.inner)
  }

  ghost function AndTailSubs(m: AndTail): seq<SubExpr> {
    if m.AndEnd? then [] else AtomSubs(m.operand) + AndTailSubs(m.more)
  }

  ghost function AndSubs(e: AndText): seq<SubExpr> {
    AtomSubs(e.first) + AndTailSubs(e.more)
  }

  ghost function OrTailSubs(m: OrTail): seq<SubExpr> {
    if m.OrEnd? then [] else AndSubs(m.operand) + OrTailSubs(m.more)
  }

  ghost function OrSubs(e: OrText): seq<SubExpr> {
    AndSubs(e.first) + OrTailSubs(e.more)
  }

  function ChainLeaves(c: Chain): seq<SubExpr> {
    if c == [] then [] else Leaves(c[0].1) + ChainLeaves(c[1..])
  }

  lemma {:induction false} OperandLeaves(c: Chain)
    ensures AllLeaves(seq(|c|, i requires 0 <= i < |c| => c[i].1)) == ChainLeaves(c)
  {
    if c != [] {
      var ts := seq(|c|, i requires 0 <= i < |c| => c[i].1);
      assert ts[1..] == seq(|c[1..]|, i requires 0 <= i < |c[1..]| => c[1..][i].1);
      OperandLeaves(c[1..]);
    }
  }

  lemma LeavesOfChain(first: Tree, c: Chain)
    ensures Leaves(AndChain(first, c)) == Leaves(first) + ChainLeaves(c)
    ensures Leaves(OrChain(first, c)) == Leaves(first) + ChainLeaves(c)
  {
    OperandLeaves(c);
    assert Operands(first, c)[1..] == seq(|c|, i requires 0 <= i < |c| => c[i].1);
  }

  lemma {:induction false} AtomLeaves(g: Literals, a: AtomText)
    requires g.NoneEmpty() && LegalAtom(g, a)
    ensures Leaves(AtomTree(g, a)) == AtomSubs(a)
  {
    if a.Paren? {
      OrLeaves(g, a.inner);
    }
  }

  lemma {:induction false} AndPairLeaves(g: Literals, m: AndTail)
    requires g.NoneEmpty() && LegalAndTail(g, m)
    ensures ChainLeaves(AndPairs(g, m)) == AndTailSubs(m)
  {
    if m.AndMore? {
      AtomLeaves(g, m.operand);
      AndPairLeaves(g, m.more);
      assert AndPairs(g, m)[1..] == AndPairs(g, m.more);
    }
  }

  lemma {:induction false} AndLeaves(g: Literals, e: AndText)
    requires g.NoneEmpty() && LegalAnd(g, e)
    ensures Leaves(AndTree(g, e)) == AndSubs(e)
  {
    AtomLeaves(g, e.first);
    AndPairLeaves(g, e.more);
    LeavesOfChain(AtomTree(g, e.first), AndPairs(g, e.more));
  }

  lemma {:induction false} OrPairLeaves(g: Literals, m: OrTail)
    requires g.NoneEmpty() && LegalOrTail(g, m)
    ensures ChainLeaves(OrPairs(g, m)) == OrTailSubs(m)
  {
    if m.OrMore? {
      AndLeaves(g, m.operand);
      OrPairLeaves(g, m.more);
      assert OrPairs(g, m)[1..] == OrPairs(g, m.more);
    }
  }

  /** operands_list gives every sub-expression of the text exactly once, in textual order. */
  lemma {:induction false} OrLeaves(g: Literals, e: OrText)
    requires g.NoneEmpty() && LegalOr(g, e)
    ensures Leaves(OrTree(g, e)) == OrSubs(e)
  {
    AndLeaves(g, e.first);
    OrPairLeaves(g, e.more);
    LeavesOfChain(AndTree(g, e.first), OrPairs(g, e.more));
  }

  lemma SubExprListIsTextualOrder(expr: string, e: OrText)
    requires Spelled(e, Strip(expr))
    ensures SubExprList(expr) == Some(OrSubs(e))
  {
    ParsesExactly(Strip(expr), OrTree(GRAMMAR, e));
    OrLeaves(GRAMMAR, e);
  }

  // --- precedence, against an evaluation that knows nothing of trees ---

  ghost predicate Holds(t: Tree, v: SubExpr -> bool) {
    match t
    case Leaf(sub) => v(sub)
    case AndNode(_, operands) => forall i :: 0 <= i < |operands| ==> Holds(operands[i], v)
    case OrNode(_, operands) => exists i :: 0 <= i < |operands| && Holds(operands[i], v)
  }

  // Left to right over the text: && binds tighter than ||.
  ghost predicate AtomMeans(a: AtomText, v: SubExpr -> bool) {
    if a.Sub? then v(a.value) else OrMeans(a.inner, v)
  }

  ghost predicate AndTailMeans(m: AndTail, v: SubExpr -> bool) {
    m.AndMore? ==> AtomMeans(m.operand, v) && AndTailMeans(m.more, v)
  }

  ghost predicate AndMeans(e: AndText, v: SubExpr -> bool) {
    AtomMeans(e.first, v) && AndTailMeans(e.more, v)
  }

  ghost predicate OrTailMeans(m: OrTail, v: SubExpr -> bool) {
    m.OrMore? && (AndMeans(m.operand, v) || OrTailMeans(m.more, v))
  }

  ghost predicate OrMeans(e: OrText, v: SubExpr -> bool) {
    AndMeans(e.first, v) || OrTailMeans(e.more, v)
  }

  ghost predicate AllHold(c: Chain, v: SubExpr -> bool) {
    forall i :: 0 <= i < |c| ==> Holds(c[i].1, v)
  }

  ghost predicate SomeHolds(c: Chain, v: SubExpr -> bool) {
    exists i :: 0 <= i < |c| && Holds(c[i].1, v)
  }

  lemma HoldsOfChain(first: Tree, c: Chain, v: SubExpr -> bool)
    ensures Holds(AndChain(first, c), v) <==> Holds(first, v) && AllHold(c, v)
    ensures Holds(OrChain(first, c), v) <==> Holds(first, v) || SomeHolds(c, v)
  {
    var ts := Operands(first, c);
    assert forall i :: 0 <= i < |ts| ==> ts[i] == if i == 0 then first else c[i - 1].1;
    assert forall i :: 0 <= i < |c| ==> c[i].1 == ts[i + 1];
  }

  lemma HoldsOfPairs(p: (string, Tree), c: Chain, v: SubExpr -> bool)
    ensures AllHold([p] + c, v) <==> Holds(p.1, v) && AllHold(c, v)
    ensures SomeHolds([p] + c, v) <==> Holds(p.1, v) || SomeHolds(c, v)
  {
    var d := [p] + c;
    assert d[0] == p && forall i :: 0 <= i < |c| ==> c[i] == d[i + 1];
    assert forall i :: 1 <= i < |d| ==> d[i] == c[i - 1];
  }

  lemma {:induction false} AtomHolds(g: Literals, a: AtomText, v: SubExpr -> bool)
    requires g.NoneEmpty() && LegalAtom(g, a)
    ensures Holds(AtomTree(g, a), v) <==> AtomMeans(a, v)
  {
    if a.Paren? {
      OrHolds(g, a.inner, v);
    }
  }

  lemma {:induction false} AndPairsHold(g: Literals, m: AndTail, v: SubExpr -> bool)
    requires g.NoneEmpty() && LegalAndTail(g, m)
    ensures AllHold(AndPairs(g, m), v) <==> AndTailMeans(m, v)
  {
    if m.AndMore? {
      AtomHolds(g, m.operand, v);
      AndPairsHold(g, m.more, v);
      HoldsOfPairs((g.ands[m.k], AtomTree(g, m.operand)), AndPairs(g, m.more), v);
    }
  }

  lemma {:induction false} AndHolds(g: Literals, e: AndText, v: SubExpr -> bool)
    requires g.NoneEmpty() && LegalAnd(g, e)
    ensures Holds(AndTree(g, e), v) <==> AndMeans(e, v)
  {
    AtomHolds(g, e.first, v);
    AndPairsHold(g, e.more, v);
    HoldsOfChain(AtomTree(g, e.first), AndPairs(g, e.more), v);
  }

  lemma {:induction false} OrPairsHold(g: Literals, m: OrTail, v: SubExpr -> bool)
    requires g.NoneEmpty() && LegalOrTail(g, m)
    ensures SomeHolds(OrPairs(g, m), v) <==> OrTailMeans(m, v)
  {
    if m.OrMore? {
      AndHolds(g, m.operand, v);
      OrPairsHold(g, m.more, v);
      HoldsOfPairs((g.ors[m.k], AndTree(g, m.operand)), OrPairs(g, m.more), v);
    }
  }

  /** Under every valuation the n-ary tree means what the infix text means with AND above OR. */
  lemma {:induction false} OrHolds(g: Literals, e: OrText, v: SubExpr -> bool)
    requires g.NoneEmpty() && LegalOr(g, e)
    ensures Holds(OrTree(g, e), v) <==> OrMeans(e, v)
  {
    AndHolds(g, e.first, v);
    OrPairsHold(g, e.more, v);
    HoldsOfChain(AndTree(g, e.first), OrPairs(g, e.more), v);
  }

  // The operands of a chain as they stand in the text, the first one in front of its tail
  function AndOperands(m: AndTail): seq<AtomText> {
    if m.AndEnd? then [] else [m.operand] + AndOperands(m.more)
  }

  function OrOperands(m: OrTail): seq<AndText> {
    if m.OrEnd? then [] else [m.operand] + OrOperands(m.more)
  }

  lemma {:induction false} AndPairsAre(g: Literals, m: AndTail)
    requires g.NoneEmpty() && LegalAndTail(g, m)
    ensures |AndPairs(g, m)| == |AndOperands(m)| && forall e | e in AndOperands(m) :: LegalAtom(g, e)
    ensures forall i :: 0 <= i < |AndOperands(m)| ==> AndPairs(g, m)[i].1 == AtomTree(g, AndOperands(m)[i])
  {
    if m.AndMore? {
      AndPairsAre(g, m.more);
    }
  }

  lemma {:induction false} OrPairsAre(g: Literals, m: OrTail)
    requires g.NoneEmpty() && LegalOrTail(g, m)
    ensures |OrPairs(g, m)| == |OrOperands(m)| && forall e | e in OrOperands(m) :: LegalAnd(g, e)
    ensures forall i :: 0 <= i < |OrOperands(m)| ==> OrPairs(g, m)[i].1 == AndTree(g, OrOperands(m)[i])
  {
    if m.OrMore? {
      OrPairsAre(g, m.more);
    }
  }

  /** Operands joined by AND become one node, however many; each is a leaf or the tree between its parentheses. */
  lemma AndChainIsOneNode(g: Literals, e: AndText)
    requires g.NoneEmpty() && LegalAnd(g, e)
    ensures forall a | a in AndOperands(e.more) :: LegalAtom(g, a)
    ensures var t, atoms := AndTree(g, e), AndOperands(e.more);
            if atoms == [] then t == AtomTree(g, e.first)
            else t.AndNode? && |t.operands| == |atoms| + 1 && t.operands[0] == AtomTree(g, e.first) &&
                 forall i :: 0 <= i < |atoms| ==> t.operands[i + 1] == AtomTree(g, atoms[i])
  {
    AndPairsAre(g, e.more);
  }

  /** Operands joined by OR become one node, each the tree of the AND chain it is. */
  lemma OrChainIsOneNode(g: Literals, e: OrText)
    requires g.NoneEmpty() && LegalOr(g, e)
    ensures forall a | a in OrOperands(e.more) :: LegalAnd(g, a)
    ensures var t, chains := OrTree(g, e), OrOperands(e.more);
            if chains == [] then t == AndTree(g, e.first)
            else t.OrNode? && |t.operands| == |chains| + 1 && t.operands[0] == AndTree(g, e.first) &&
                 forall i :: 0 <= i < |chains| ==> t.operands[i + 1] == AndTree(g, chains[i])
  {
    OrPairsAre(g, e.more);
  }
}
