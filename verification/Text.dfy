// Strings as the repository handles them: runs of characters, splitting, stripping.
module Text {

  datatype Option<+T> = None | Some(value: T)

  // Length of the longest prefix of s whose characters all satisfy p.
  function Run(s: string, p: char -> bool): (n: nat)
    ensures n <= |s|
    ensures forall i :: 0 <= i < n ==> p(s[i])
    ensures n < |s| ==> !p(s[n])
  {
    if s == "" || !p(s[0]) then 0 else 1 + Run(s[1..], p)
  }

  // A run is determined by where it stops.
  lemma {:induction false} RunStops(w: string, tail: string, p: char -> bool)
    requires forall i :: 0 <= i < |w| ==> p(w[i])
    requires tail == "" || !p(tail[0])
    ensures Run(w + tail, p) == |w|
  {
    if w == "" {
      assert w + tail == tail;
    } else {
      assert (w + tail)[1..] == w[1..] + tail;
      RunStops(w[1..], tail, p);
    }
  }

  // str.replace(' ', '')
  function Strip(s: string): string {
    if s == "" then "" else (if s[0] == ' ' then "" else [s[0]]) + Strip(s[1..])
  }

  lemma {:induction false} StripConcat(a: string, b: string)
    ensures Strip(a + b) == Strip(a) + Strip(b)
  {
    if a == "" {
      assert a + b == b;
    } else {
      assert (a + b)[1..] == a[1..] + b;
      StripConcat(a[1..], b);
    }
  }

  lemma {:induction false} StripIdentity(s: string)
    requires ' ' !in s
    ensures Strip(s) == s
  {
    if s != "" {
      StripIdentity(s[1..]);
    }
  }

  // Position of the first c in s, or |s|.
  function IndexOf(s: string, c: char): (n: nat)
    ensures n <= |s|
    ensures n < |s| ==> s[n] == c
    ensures c !in s[..n]
    ensures n == |s| <==> c !in s
  {
    if s == "" then 0
    else if s[0] == c then 0
    else
      var n := IndexOf(s[1..], c);
      assert s[..n + 1] == [s[0]] + s[1..][..n];
      assert s == [s[0]] + s[1..];
      n + 1
  }

  lemma {:induction false} IndexOfIsFirst(s: string, c: char, i: nat)
    requires i < |s| && s[i] == c
    ensures IndexOf(s, c) <= i
  {
    if s[0] != c {
      IndexOfIsFirst(s[1..], c, i - 1);
    }
  }

  lemma {:induction false} IndexOfConcat(w: string, c: char, tail: string)
    requires c !in w
    ensures IndexOf(w + [c] + tail, c) == |w|
    ensures IndexOf(w, c) == |w|
  {
    if w == "" {
      assert w + [c] + tail == [c] + tail;
    } else {
      assert (w + [c] + tail)[1..] == w[1..] + [c] + tail;
      IndexOfConcat(w[1..], c, tail);
    }
  }

  // str.split(c): the pieces between the separators, empty ones included.
  function Split(s: string, c: char): (parts: seq<string>)
    ensures |parts| >= 1
    decreases |s|
  {
    var n := IndexOf(s, c);
    if n == |s| then [s] else [s[..n]] + Split(s[n + 1..], c)
  }

  lemma SplitFirst(w: string, c: char, tail: string)
    requires c !in w
    ensures Split(w + [c] + tail, c) == [w] + Split(tail, c)
    ensures Split(w, c) == [w]
  {
    IndexOfConcat(w, c, tail);
    var s := w + [c] + tail;
    assert s[..|w|] == w && s[|w| + 1..] == tail;
  }

  // String.split: trailing empty pieces are dropped, but a text without the separator is one piece.
  function JavaSplit(s: string, c: char): seq<string> {
    if c !in s then [s] else DropTrailingEmpty(Split(s, c))
  }

  function DropTrailingEmpty(parts: seq<string>): seq<string> {
    if parts != [] && parts[|parts| - 1] == "" then DropTrailingEmpty(parts[..|parts| - 1]) else parts
  }

  // Two splittings of one text at the first c agree.
  lemma SplitUnique(a: string, x: string, b: string, y: string, c: char)
    requires c !in a && c !in b
    requires a + [c] + x == b + [c] + y
    ensures a == b && x == y
  {
    IndexOfConcat(a, c, x);
    IndexOfConcat(b, c, y);
    var s := a + [c] + x;
    assert s[..|a|] == a && s[..|b|] == b;
    assert s[|a| + 1..] == x && s[|b| + 1..] == y;
  }

  // lexicographic order of String.compareTo and of Python's < on strings
  predicate Less(a: string, b: string) {
    b != "" && (a == "" || a[0] < b[0] || (a[0] == b[0] && Less(a[1..], b[1..])))
  }

  lemma {:induction false} LessTransitive(a: string, b: string, c: string)
    requires Less(a, b) && Less(b, c)
    ensures Less(a, c)
  {
    if a != "" && a[0] == b[0] && b[0] == c[0] {
      LessTransitive(a[1..], b[1..], c[1..]);
    }
  }

  lemma {:induction false} LessTotal(a: string, b: string)
    ensures Less(a, b) || a == b || Less(b, a)
    ensures !(Less(a, b) && Less(b, a))
    ensures !Less(a, a)
  {
    if a != "" && b != "" && a[0] == b[0] {
      LessTotal(a[1..], b[1..]);
      assert a == [a[0]] + a[1..] && b == [b[0]] + b[1..];
    }
    if a != "" {
      LessTotal(a[1..], a[1..]);
    }
  }
}
