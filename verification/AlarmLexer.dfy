/**
 The lexical level of the alarm expression language: the pyparsing elements the grammar is made of,
 each with its direct meaning. A parser reads a prefix of its text and returns what it read and the rest.
 */
module AlarmLexer {
  import opened Text

  datatype Parsed<+T> = Fail | Done(value: T, rest: string)

  // A token of a source text: the white space in front of it and the characters of the token itself.
  datatype Tok = Tok(ws: string, text: string)

  // pyparsing skips these in front of every token.
  predicate IsSpace(c: char) {
    c == ' ' || c == '\t' || c == '\n' || c == '\r'
  }

  predicate IsDigit(c: char) {
    '0' <= c <= '9'
  }

  predicate IsNumber(c: char) {
    IsDigit(c) || c == '.'
  }

  // White space of the Basic Multilingual Plane outside ASCII, by Python's isspace.
  predicate IsUnicodeSpace(c: char) {
    var n := c as int;
    n == 0x85 || n == 0xA0 || n == 0x1680 || n == 0x180E || 0x2000 <= n <= 0x200A ||
    n == 0x2028 || n == 0x2029 || n == 0x202F || n == 0x205F || n == 0x3000
  }

  // valid_identifier_chars: no comma, parenthesis, brace, equals sign, quote or angle bracket.
  predicate IsIdent(c: char) {
    (128 <= c as int < 65536 && !IsUnicodeSpace(c)) ||
    'a' <= c <= 'z' || 'A' <= c <= 'Z' || IsDigit(c) ||
    c == '.' || c == '-' || c == '_' || c == '#' || c == '!' || c == '$' || c == '%' || c == '&' ||
    c == '\'' || c == '*' || c == '+' || c == '/' || c == ':' || c == ';' || c == '?' || c == '@' ||
    c == '[' || c == '\\' || c == ']' || c == '^' || c == '`' || c == '|' || c == '~'
  }

  const MAX_WORD := 255

  predicate IsWord(w: string, p: char -> bool) {
    1 <= |w| && forall i :: 0 <= i < |w| ==> p(w[i])
  }

  predicate IsWordUpTo(w: string, p: char -> bool, limit: nat) {
    |w| <= limit && IsWord(w, p)
  }

  predicate IsName(w: string) {
    IsWordUpTo(w, IsIdent, MAX_WORD)
  }

  predicate AllSpace(w: string) {
    forall i :: 0 <= i < |w| ==> IsSpace(w[i])
  }

  // The capital a character matches in a caseless literal. Two letters outside ASCII have an ASCII capital.
  function Up(c: char): char {
    if 'a' <= c <= 'z' then (c as int - 32) as char
    else if c as int == 0x131 then 'I'
    else if c as int == 0x17F then 'S'
    else c
  }

  // text is the literal w in some mixture of cases
  predicate Spells(text: string, w: string) {
    |text| == |w| && forall i :: 0 <= i < |w| ==> Up(text[i]) == Up(w[i])
  }

  predicate StartsWith(w: string, s: string) {
    |w| <= |s| && Spells(s[..|w|], w)
  }

  function SkipSpace(s: string): (r: string)
    ensures |r| <= |s|
  {
    s[Run(s, IsSpace)..]
  }

  lemma SkipsTo(ws: string, tail: string)
    requires AllSpace(ws)
    requires tail == "" || !IsSpace(tail[0])
    ensures SkipSpace(ws + tail) == tail
  {
    RunStops(ws, tail, IsSpace);
  }

  lemma Skipped(s: string) returns (ws: string)
    ensures AllSpace(ws) && s == ws + SkipSpace(s)
  {
    ws := s[..Run(s, IsSpace)];
  }

  // Literal(c)
  function Symbol(c: char, s: string): (r: Parsed<()>)
    ensures r.Done? ==> |r.rest| < |s|
  {
    var t := SkipSpace(s);
    if t != "" && t[0] == c then Done((), t[1..]) else Fail
  }

  lemma SymbolReads(ws: string, c: char, tail: string)
    requires AllSpace(ws) && !IsSpace(c)
    ensures Symbol(c, ws + ([c] + tail)) == Done((), tail)
    ensures forall d | d != c :: Symbol(d, ws + ([c] + tail)) == Fail
  {
    SkipsTo(ws, [c] + tail);
  }

  lemma SymbolSound(c: char, s: string) returns (ws: string)
    requires Symbol(c, s).Done?
    ensures AllSpace(ws) && s == ws + ([c] + Symbol(c, s).rest)
  {
    ws := Skipped(s);
    var t := SkipSpace(s);
    assert t == [c] + t[1..];
  }

  predicate NoneEmpty(ws: seq<string>) {
    forall i :: 0 <= i < |ws| ==> |ws[i]| > 0
  }

  // A MatchFirst of CaselessLiterals. The value is the literal as the grammar writes it.
  function Keyword(ws: seq<string>, s: string): (r: Parsed<string>)
    requires NoneEmpty(ws)
    ensures r.Done? ==> |r.rest| < |s| && r.value in ws
  {
    if ws == [] then Fail
    else
      var t := SkipSpace(s);
      if StartsWith(ws[0], t) then Done(ws[0], t[|ws[0]|..])
      else Keyword(ws[1..], s)
  }

  // No earlier literal of the list can be read from text: the list puts longer prefixes first.
  predicate NoneBefore(ws: seq<string>, k: nat, s: string)
    requires k <= |ws|
  {
    forall i :: 0 <= i < k ==> !StartsWith(ws[i], s)
  }

  lemma {:induction false} KeywordReads(ws: seq<string>, k: nat, tok: Tok, tail: string)
    requires NoneEmpty(ws)
    requires k < |ws| && Spells(tok.text, ws[k]) && AllSpace(tok.ws) && !IsSpace(tok.text[0])
    requires NoneBefore(ws, k, tok.text + tail)
    ensures Keyword(ws, tok.ws + (tok.text + tail)) == Done(ws[k], tail)
  {
    var s := tok.text + tail;
    SkipsTo(tok.ws, s);
    if k == 0 {
      assert s[..|tok.text|] == tok.text;
    } else {
      forall i | 0 <= i < k - 1
        ensures !StartsWith(ws[1..][i], s)
      {
        assert ws[1..][i] == ws[i + 1];
      }
      KeywordReads(ws[1..], k - 1, tok, tail);
    }
  }

  lemma {:induction false} KeywordFails(ws: seq<string>, s: string)
    requires NoneEmpty(ws)
    requires forall i :: 0 <= i < |ws| ==> !StartsWith(ws[i], SkipSpace(s))
    ensures Keyword(ws, s) == Fail
  {
    if ws != [] {
      KeywordFails(ws[1..], s);
    }
  }

  lemma {:induction false} KeywordSound(ws: seq<string>, s: string) returns (tok: Tok, k: nat)
    requires NoneEmpty(ws)
    requires Keyword(ws, s).Done?
    ensures AllSpace(tok.ws) && s == tok.ws + (tok.text + Keyword(ws, s).rest)
    ensures k < |ws| && Spells(tok.text, ws[k]) && Keyword(ws, s).value == ws[k]
    ensures NoneBefore(ws, k, tok.text + Keyword(ws, s).rest)
    ensures tok.text + Keyword(ws, s).rest == SkipSpace(s)
  {
    var t := SkipSpace(s);
    if StartsWith(ws[0], t) {
      var sp := Skipped(s);
      tok, k := Tok(sp, t[..|ws[0]|]), 0;
      assert t == tok.text + t[|ws[0]|..];
    } else {
      tok, k := KeywordSound(ws[1..], s);
      k := k + 1;
    }
  }

  // Word(chars, max=limit): the longest run of such characters; a longer run than limit is an error.
  function WordOf(p: char -> bool, limit: nat, s: string): (r: Parsed<string>)
    ensures r.Done? ==> |r.rest| < |s|
    ensures r.Done? ==> s == r.value + r.rest && IsWord(r.value, p) && |r.value| <= limit
    ensures r.Done? ==> r.rest == "" || !p(r.rest[0])
  {
    var n := Run(s, p);
    if n == 0 || n > limit then Fail else Done(s[..n], s[n..])
  }

  lemma WordReads(p: char -> bool, limit: nat, w: string, tail: string)
    requires IsWord(w, p) && |w| <= limit
    requires tail == "" || !p(tail[0])
    ensures WordOf(p, limit, w + tail) == Done(w, tail)
  {
    RunStops(w, tail, p);
  }

  // A name of the language: a Word of identifier characters, white space allowed in front.
  function Name(s: string): (r: Parsed<string>)
    ensures r.Done? ==> |r.rest| < |s|
  {
    WordOf(IsIdent, MAX_WORD, SkipSpace(s))
  }

  // Word(nums) and Word(nums + ".") have no upper limit on their length.
  function Number(p: char -> bool, s: string): (r: Parsed<string>)
    ensures r.Done? ==> |r.rest| < |s|
  {
    var t := SkipSpace(s);
    WordOf(p, |t|, t)
  }

  lemma NameReads(tok: Tok, tail: string)
    requires AllSpace(tok.ws) && IsName(tok.text)
    requires tail == "" || !IsIdent(tail[0])
    ensures Name(tok.ws + (tok.text + tail)) == Done(tok.text, tail)
  {
    assert (tok.text + tail)[0] == tok.text[0];
    SkipsTo(tok.ws, tok.text + tail);
    WordReads(IsIdent, MAX_WORD, tok.text, tail);
  }

  lemma NumberReads(p: char -> bool, tok: Tok, tail: string)
    requires AllSpace(tok.ws) && IsWord(tok.text, p)
    requires tail == "" || !p(tail[0])
    requires forall c | p(c) :: !IsSpace(c)
    ensures Number(p, tok.ws + (tok.text + tail)) == Done(tok.text, tail)
  {
    assert (tok.text + tail)[0] == tok.text[0];
    SkipsTo(tok.ws, tok.text + tail);
    WordReads(p, |tok.text + tail|, tok.text, tail);
  }

  lemma NameSound(s: string) returns (tok: Tok)
    requires Name(s).Done?
    ensures AllSpace(tok.ws) && s == tok.ws + (tok.text + Name(s).rest)
    ensures tok.text == Name(s).value && IsName(tok.text)
    ensures Name(s).rest == "" || !IsIdent(Name(s).rest[0])
  {
    var sp := Skipped(s);
    tok := Tok(sp, Name(s).value);
  }

  lemma NumberSound(p: char -> bool, s: string) returns (tok: Tok)
    requires Number(p, s).Done?
    ensures AllSpace(tok.ws) && s == tok.ws + (tok.text + Number(p, s).rest)
    ensures tok.text == Number(p, s).value && IsWord(tok.text, p)
    ensures Number(p, s).rest == "" || !p(Number(p, s).rest[0])
  {
    var sp := Skipped(s);
    tok := Tok(sp, Number(p, s).value);
  }

  // --- dimension lists over names of the characters p: no white space is skipped inside them ---

  datatype DimensionList =
    | One(name: string, value: string)
    | More(name: string, value: string, rest: DimensionList)

  predicate LegalList(p: char -> bool, l: DimensionList) {
    IsWordUpTo(l.name, p, MAX_WORD) && IsWordUpTo(l.value, p, MAX_WORD) && (l.More? ==> LegalList(p, l.rest))
  }

  // name=value,name=value in front of tail
  function ListOnto(l: DimensionList, tail: string): string {
    l.name + (['='] + (l.value + (if l.One? then tail else [','] + ListOnto(l.rest, tail))))
  }

  // delimitedList(name + '=' + value, delim=',', combine=True): a comma is read only with the dimension behind it.
  function ParseDimensionList(p: char -> bool, s: string): (r: Parsed<DimensionList>)
    decreases |s|
    ensures r.Done? ==> |r.rest| < |s|
  {
    var name := WordOf(p, MAX_WORD, s);
    if name.Fail? || name.rest == "" || name.rest[0] != '=' then Fail
    else
      var value := WordOf(p, MAX_WORD, name.rest[1..]);
      if value.Fail? then Fail
      else if value.rest == "" || value.rest[0] != ',' then Done(One(name.value, value.value), value.rest)
      else
        var more := ParseDimensionList(p, value.rest[1..]);
        if more.Fail? then Done(One(name.value, value.value), value.rest)
        else Done(More(name.value, value.value, more.value), more.rest)
  }

  lemma Head(c: char, s: string)
    ensures ([c] + s)[0] == c && ([c] + s)[1..] == s
  {
  }

  // What a list reads once its first dimension is known
  function AfterDimension(p: char -> bool, name: string, value: string, rest: string): Parsed<DimensionList> {
    if rest == "" || rest[0] != ',' then Done(One(name, value), rest)
    else
      var more := ParseDimensionList(p, rest[1..]);
      if more.Fail? then Done(One(name, value), rest)
      else Done(More(name, value, more.value), more.rest)
  }

  lemma FirstDimension(p: char -> bool, name: string, value: string, rest: string)
    requires IsWordUpTo(name, p, MAX_WORD) && IsWordUpTo(value, p, MAX_WORD) && !p('=')
    requires rest == "" || !p(rest[0])
    ensures ParseDimensionList(p, name + (['='] + (value + rest))) == AfterDimension(p, name, value, rest)
  {
    Head('=', value + rest);
    WordReads(p, MAX_WORD, value, rest);
    WordReads(p, MAX_WORD, name, ['='] + (value + rest));
  }

  lemma {:induction false} DimensionListReads(p: char -> bool, l: DimensionList, tail: string)
    requires LegalList(p, l) && !p('=') && !p(',')
    requires tail != "" && !p(tail[0]) && tail[0] != ','
    ensures ParseDimensionList(p, ListOnto(l, tail)) == Done(l, tail)
    decreases l
  {
    if l.One? {
      FirstDimension(p, l.name, l.value, tail);
    } else {
      DimensionListReads(p, l.rest, tail);
      Head(',', ListOnto(l.rest, tail));
      FirstDimension(p, l.name, l.value, [','] + ListOnto(l.rest, tail));
    }
  }

  // A parsed list begins with a dimension.
  lemma DimensionSound(p: char -> bool, s: string) returns (name: string, value: string, rest: string)
    requires ParseDimensionList(p, s).Done?
    ensures IsWordUpTo(name, p, MAX_WORD) && IsWordUpTo(value, p, MAX_WORD)
    ensures s == name + (['='] + (value + rest)) && |rest| < |s|
    ensures ParseDimensionList(p, s) == AfterDimension(p, name, value, rest)
  {
    var n := WordOf(p, MAX_WORD, s);
    var v := WordOf(p, MAX_WORD, n.rest[1..]);
    assert n.rest == ['='] + n.rest[1..];
    name, value, rest := n.value, v.value, v.rest;
  }

  lemma {:induction false} AfterDimensionSound(p: char -> bool, name: string, value: string, rest: string)
    requires IsWordUpTo(name, p, MAX_WORD) && IsWordUpTo(value, p, MAX_WORD)
    ensures var l := AfterDimension(p, name, value, rest);
            LegalList(p, l.value) && name + (['='] + (value + rest)) == ListOnto(l.value, l.rest)
    decreases |rest|
  {
    if AfterDimension(p, name, value, rest).value.More? {
      var n, v, r := DimensionSound(p, rest[1..]);
      AfterDimensionSound(p, n, v, r);
      assert rest == [','] + rest[1..];
    }
  }

  lemma DimensionListSound(p: char -> bool, s: string)
    requires ParseDimensionList(p, s).Done?
    ensures s == ListOnto(ParseDimensionList(p, s).value, ParseDimensionList(p, s).rest)
    ensures LegalList(p, ParseDimensionList(p, s).value)
  {
    var name, value, rest := DimensionSound(p, s);
    AfterDimensionSound(p, name, value, rest);
  }
}
