/**
 The fragment of regular expressions the metric queries are written in, read from its text as the
 database reads it: literals, a dot, the escape, * and + behind one character, (&|$) and (.*&)*.
 */
module SeriesRegex {
  import opened Text

  datatype Atom = Literal(c: char) | AnyChar
  datatype Count = One | Star | Plus
  datatype Piece = Repeat(atom: Atom, count: Count) | Boundary | Skip

  // anchored is false when a star behind the caret makes it optional
  datatype Regex = Regex(anchored: bool, pieces: seq<Piece>)

  const BOUNDARY := "(&|$)"
  const SKIP := "(.*&)*"

  predicate IsQuantifier(c: char) {
    c == '*' || c == '+'
  }

  predicate IsOperator(c: char) {
    IsQuantifier(c) || c == '?' || c == '(' || c == ')' || c == '|' || c == '[' || c == ']' || c == '{' || c == '}' ||
    c == '^' || c == '$'
  }

  // The quantifier behind an atom, when there is one
  function CountOf(s: string): (Count, string) {
    if s != "" && s[0] == '*' then (Star, s[1..])
    else if s != "" && s[0] == '+' then (Plus, s[1..])
    else (One, s)
  }

  // None is a syntax error: a quantifier with nothing to repeat, a repeated quantifier, a lone bracket.
  function Pieces(s: string): Option<seq<Piece>>
    decreases |s|
  {
    if s == "" then Some([])
    else if BOUNDARY <= s then Then(Boundary, Pieces(s[|BOUNDARY|..]))
    else if SKIP <= s then Then(Skip, Pieces(s[|SKIP|..]))
    else if s[0] == '\\' then
      if |s| < 2 then None
      else var (count, rest) := CountOf(s[2..]); Then(Repeat(Literal(s[1]), count), Pieces(rest))
    else if IsOperator(s[0]) then None
    else
      var (count, rest) := CountOf(s[1..]);
      Then(Repeat(if s[0] == '.' then AnyChar else Literal(s[0]), count), Pieces(rest))
  }

  function Then(p: Piece, ps: Option<seq<Piece>>): Option<seq<Piece>> {
    if ps.None? then None else Some([p] + ps.value)
  }

  function Read(text: string): Option<Regex> {
    if text == "" || text[0] != '^' then None
    else
      var (count, rest) := CountOf(text[1..]);
      var ps := Pieces(rest);
      if ps.None? then None else Some(Regex(count != Star, ps.value))
  }

  predicate Takes(a: Atom, c: char) {
    match a
    case Literal(d) => c == d
    case AnyChar => c != '\n'
  }

  // p can match the first k characters of s.
  predicate Spans(p: Piece, s: string, k: nat)
    requires k <= |s|
  {
    match p
    case Repeat(a, count) =>
      (count.One? ==> k == 1) && (count.Plus? ==> k >= 1) && forall i :: 0 <= i < k ==> Takes(a, s[i])
    case Boundary => (k == 1 && s[0] == '&') || (k == 0 && s == "")
    case Skip => (k == 0 || s[k - 1] == '&') && '\n' !in s[..k]
  }

  // The pieces match some prefix of s.
  ghost predicate Matches(ps: seq<Piece>, s: string) {
    ps == [] || exists k: nat :: k <= |s| && Spans(ps[0], s, k) && Matches(ps[1..], s[k..])
  }

  // A search with the regular expression finds a match; a text that is no regular expression finds none.
  ghost predicate Finds(text: string, s: string) {
    var r := Read(text);
    r.Some? && if r.value.anchored then Matches(r.value.pieces, s)
               else exists k: nat :: k <= |s| && Matches(r.value.pieces, s[k..])
  }

  // --- literal text ---

  // The characters of encoded tokens that mean themselves in a regular expression
  predicate MeansItself(c: char) {
    c != '.' && c != '\\' && !IsOperator(c)
  }

  predicate AllLiteral(w: string) {
    forall i :: 0 <= i < |w| ==> MeansItself(w[i])
  }

  function Literals(w: string): (ps: seq<Piece>)
    ensures |ps| == |w|
  {
    if w == "" then [] else [Repeat(Literal(w[0]), One)] + Literals(w[1..])
  }

  lemma LiteralPiece(c: char, rest: string)
    requires MeansItself(c) && (rest == "" || !IsQuantifier(rest[0]))
    ensures Pieces([c] + rest) == Then(Repeat(Literal(c), One), Pieces(rest))
  {
    var s := [c] + rest;
    assert s[1..] == rest;
    assert s[0] == c;
  }

  lemma EscapedPiece(c: char, rest: string)
    requires rest == "" || !IsQuantifier(rest[0])
    ensures Pieces("\\" + ([c] + rest)) == Then(Repeat(Literal(c), One), Pieces(rest))
  {
    var s := "\\" + ([c] + rest);
    assert s[0] == '\\' && s[1] == c && s[2..] == rest;
  }

  lemma BoundaryPiece(rest: string)
    ensures Pieces(BOUNDARY + rest) == Then(Boundary, Pieces(rest))
  {
    assert (BOUNDARY + rest)[|BOUNDARY|..] == rest;
  }

  lemma SkipPiece(rest: string)
    ensures Pieces(SKIP + rest) == Then(Skip, Pieces(rest))
  {
    var s := SKIP + rest;
    assert s[|SKIP|..] == rest;
    assert s[1] == '.' && BOUNDARY[1] == '&';
  }

  lemma FrontIsLiteral(w: string, rest: string)
    requires AllLiteral(w) && (rest == "" || !IsQuantifier(rest[0]))
    ensures w + rest == "" || !IsQuantifier((w + rest)[0])
  {
    assert w != "" ==> (w + rest)[0] == w[0];
    assert w == "" ==> w + rest == rest;
  }

  lemma LiteralStep(c: char, tail: string, ps: seq<Piece>)
    requires MeansItself(c) && (tail == "" || !IsQuantifier(tail[0])) && Pieces(tail) == Some(ps)
    ensures Pieces([c] + tail) == Some([Repeat(Literal(c), One)] + ps)
  {
    LiteralPiece(c, tail);
  }

  // read takes a literal character off the front.
  ghost predicate TakesLiterals(read: string -> Option<seq<Piece>>) {
    forall c: char, tail: string | MeansItself(c) && (tail == "" || !IsQuantifier(tail[0])) && read(tail).Some? ::
      read([c] + tail) == Some([Repeat(Literal(c), One)] + read(tail).value)
  }

  lemma {:induction false} LiteralsTaken(read: string -> Option<seq<Piece>>, w: string, rest: string)
    requires TakesLiterals(read) && AllLiteral(w) && (rest == "" || !IsQuantifier(rest[0])) && read(rest).Some?
    ensures read(w + rest) == Some(Literals(w) + read(rest).value)
  {
    if w == "" {
      assert w + rest == rest && Literals(w) + read(rest).value == read(rest).value;
    } else {
      LiteralsTaken(read, w[1..], rest);
      FrontIsLiteral(w[1..], rest);
      assert w + rest == [w[0]] + (w[1..] + rest);
      LiteralsHead(w, read(rest).value);
    }
  }

  lemma LiteralPieces(w: string, rest: string)
    requires AllLiteral(w) && (rest == "" || !IsQuantifier(rest[0])) && Pieces(rest).Some?
    ensures Pieces(w + rest) == Some(Literals(w) + Pieces(rest).value)
  {
    forall c: char, tail: string | MeansItself(c) && (tail == "" || !IsQuantifier(tail[0])) && Pieces(tail).Some?
      ensures Pieces([c] + tail) == Some([Repeat(Literal(c), One)] + Pieces(tail).value)
    {
      LiteralStep(c, tail, Pieces(tail).value);
    }
    LiteralsTaken(Pieces, w, rest);
  }

  lemma LiteralsHead(w: string, ps: seq<Piece>)
    requires w != ""
    ensures Literals(w) + ps == [Repeat(Literal(w[0]), One)] + (Literals(w[1..]) + ps)
  {
  }

  lemma PrefixHead(w: string, s: string)
    requires w != "" && s != ""
    ensures w <= s <==> w[0] == s[0] && w[1..] <= s[1..]
    ensures w <= s ==> s[1..][|w| - 1..] == s[|w|..]
  {
  }

  lemma MatchOne(ps: seq<Piece>, s: string)
    requires ps != [] && ps[0].Repeat? && ps[0].count.One? && ps[0].atom.Literal?
    ensures Matches(ps, s) <==> s != "" && s[0] == ps[0].atom.c && Matches(ps[1..], s[1..])
  {
    if s != "" && s[0] == ps[0].atom.c && Matches(ps[1..], s[1..]) {
      assert Spans(ps[0], s, 1);
    }
  }

  lemma {:induction false} MatchLiterals(w: string, ps: seq<Piece>, s: string)
    ensures Matches(Literals(w) + ps, s) <==> w <= s && Matches(ps, s[|w|..])
  {
    if w == "" {
      assert Literals(w) + ps == ps && s[0..] == s;
    } else {
      var qs := Literals(w) + ps;
      assert qs[0] == Repeat(Literal(w[0]), One) && qs[1..] == Literals(w[1..]) + ps;
      MatchOne(qs, s);
      if s != "" {
        MatchLiterals(w[1..], ps, s[1..]);
        PrefixHead(w, s);
      }
    }
  }
}
