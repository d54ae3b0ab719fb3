/**
 Pages of an ascending list of names, each reached by the link of the page before: the page scans the names
 from a position on, and the link of a full page leads to a position that depends on its last name. When the
 pages give every name once, and when they come to an end.
 */
module LinkedPages {
  import opened Text
  import opened Ordering

  // The number of elements of a full page
  const LIMIT: nat := 50

  // What becomes of a name: it is passed over, makes the request fail, or is listed.
  datatype Kind = Skipped | Failing | Shown

  type Kinds = string -> Kind

  datatype Page<T> = Raised | Elements(elements: seq<T>)

  predicate StrictlyAscending(names: seq<string>) {
    forall i, j :: 0 <= i < j < |names| ==> Less(names[i], names[j])
  }

  function Prepend(name: string, p: Page<string>): Page<string> {
    if p.Raised? then Raised else Elements([name] + p.elements)
  }

  function Scan(kind: Kinds, names: seq<string>, room: int): Page<string> {
    if names == [] then Elements([])
    else
      match kind(names[0])
      case Skipped => Scan(kind, names[1..], room)
      case Failing => Raised
      case Shown => if room <= 1 then Elements([names[0]]) else Prepend(names[0], Scan(kind, names[1..], room - 1))
  }

  // The specification: the names that are listed, in order
  function Listable(kind: Kinds, names: seq<string>): seq<string> {
    if names == [] then []
    else (if kind(names[0]).Shown? then [names[0]] else []) + Listable(kind, names[1..])
  }

  function Count(kind: Kinds, names: seq<string>): nat {
    |Listable(kind, names)|
  }

  // Where the page behind a full page starts, by the last name of that page; None when the request fails.
  type Jump = string -> Option<nat>

  ghost predicate Chain(get: nat -> Page<string>, jump: Jump, start: nat, pages: seq<seq<string>>)
    decreases |pages|
  {
    pages != [] && get(start) == Elements(pages[0]) &&
    if |pages[0]| < LIMIT then |pages| == 1
    else
      var next := jump(pages[0][|pages[0]| - 1]);
      next.Some? && Chain(get, jump, next.value, pages[1..])
  }

  function PageAt(kind: Kinds, names: seq<string>): nat -> Page<string> {
    (i: nat) => if i <= |names| then Scan(kind, names[i..], LIMIT) else Raised
  }

  // What is given from a position on
  ghost predicate Follows(kind: Kinds, names: seq<string>, jump: Jump, start: nat, pages: seq<seq<string>>) {
    Chain(PageAt(kind, names), jump, start, pages)
  }

  lemma ChainAfter(get: nat -> Page<string>, jump: Jump, start: nat, page: seq<string>, more: seq<seq<string>>)
    requires get(start) == Elements(page) && |page| >= LIMIT && jump(page[|page| - 1]).Some?
    requires Chain(get, jump, jump(page[|page| - 1]).value, more)
    ensures Chain(get, jump, start, [page] + more)
  {
    var pages := [page] + more;
    assert pages[0] == page && pages[1..] == more;
  }

  lemma ChainFirst(get: nat -> Page<string>, jump: Jump, start: nat, pages: seq<seq<string>>)
    requires Chain(get, jump, start, pages)
    ensures pages != [] && get(start) == Elements(pages[0])
    ensures if |pages[0]| < LIMIT then |pages| == 1
            else var next := jump(pages[0][|pages[0]| - 1]);
                 |pages| > 1 && next.Some? && get(next.value).Elements? && Chain(get, jump, next.value, pages[1..])
  {
  }

  // The first page, and where its link leads
  lemma FirstPage(kind: Kinds, names: seq<string>, jump: Jump, start: nat, pages: seq<seq<string>>)
    requires Follows(kind, names, jump, start, pages)
    ensures start <= |names| && pages != [] && Scan(kind, names[start..], LIMIT) == Elements(pages[0])
    ensures if |pages[0]| < LIMIT then |pages| == 1
            else var next := jump(pages[0][|pages[0]| - 1]);
                 |pages| > 1 && next.Some? && next.value <= |names| &&
                   Follows(kind, names, jump, next.value, pages[1..])
  {
    ChainFirst(PageAt(kind, names), jump, start, pages);
  }

  // --- names and counts ---

  lemma {:induction false} ListableConcat(kind: Kinds, a: seq<string>, b: seq<string>)
    ensures Listable(kind, a + b) == Listable(kind, a) + Listable(kind, b)
  {
    if a == [] {
      assert a + b == b;
    } else {
      assert (a + b)[1..] == a[1..] + b;
      ListableConcat(kind, a[1..], b);
    }
  }

  lemma CountSplit(kind: Kinds, names: seq<string>, i: nat, j: nat)
    requires i <= j <= |names|
    ensures Count(kind, names[..j]) == Count(kind, names[..i]) + Count(kind, names[i..j])
    ensures Listable(kind, names[i..]) == Listable(kind, names[i..j]) + Listable(kind, names[j..])
  {
    assert names[..j] == names[..i] + names[i..j];
    assert names[i..] == names[i..j] + names[j..];
    ListableConcat(kind, names[..i], names[i..j]);
    ListableConcat(kind, names[i..j], names[j..]);
  }

  lemma CountLast(kind: Kinds, names: seq<string>, k: nat)
    requires 0 < k <= |names| && kind(names[k - 1]).Shown?
    ensures Count(kind, names[..k]) == Count(kind, names[..k - 1]) + 1
    ensures Listable(kind, names[k - 1..]) == [names[k - 1]] + Listable(kind, names[k..])
  {
    CountSplit(kind, names, k - 1, k);
    assert names[k - 1..k] == [names[k - 1]];
    assert names[k - 1..][1..] == names[k..];
  }

  // --- one page ---

  // A page takes the names up to its end: all that are left, or LIMIT of them up to one that is listed.
  ghost predicate Takes(kind: Kinds, names: seq<string>, page: seq<string>, room: int, j: nat) {
    && room >= 1 && j <= |names| && Listable(kind, names) == page + Listable(kind, names[j..])
    && (forall i :: 0 <= i < j ==> !kind(names[i]).Failing?)
    && if |page| < room then j == |names|
       else |page| == room && j > 0 && kind(names[j - 1]).Shown? && page[room - 1] == names[j - 1]
  }

  lemma TakesAfter(kind: Kinds, names: seq<string>, page: seq<string>, room: int, j: nat)
    requires names != [] && !kind(names[0]).Failing? && room >= 1 && Takes(kind, names[1..], page, room, j)
    ensures if kind(names[0]).Shown? then Takes(kind, names, [names[0]] + page, room + 1, j + 1)
            else Takes(kind, names, page, room, j + 1)
  {
    assert names[1..][j..] == names[j + 1..];
    forall i | 0 <= i < j + 1 ensures !kind(names[i]).Failing? {
      if i > 0 { assert names[1..][i - 1] == names[i]; }
    }
    Regroup(names[0], page, Listable(kind, names[j + 1..]));
  }

  lemma Regroup(name: string, page: seq<string>, more: seq<string>)
    ensures [name] + (page + more) == ([name] + page) + more
    ensures [] + (page + more) == page + more
  {
  }

  lemma {:induction false} ScanTakes(kind: Kinds, names: seq<string>, room: int) returns (j: nat)
    requires room >= 1 && Scan(kind, names, room).Elements?
    ensures Takes(kind, names, Scan(kind, names, room).elements, room, j)
  {
    if names == [] {
      j := 0;
    } else if kind(names[0]).Skipped? {
      j := ScanTakes(kind, names[1..], room);
      TakesAfter(kind, names, Scan(kind, names[1..], room).elements, room, j);
      j := j + 1;
    } else if room == 1 {
      j := 1;
    } else {
      j := ScanTakes(kind, names[1..], room - 1);
      TakesAfter(kind, names, Scan(kind, names[1..], room - 1).elements, room - 1, j);
      j := j + 1;
    }
  }

  // A page is given when a name that fails comes only behind enough names that are listed.
  lemma {:induction false} ScanSucceeds(kind: Kinds, names: seq<string>, room: int)
    requires room >= 1
    requires forall c :: 0 <= c < |names| && kind(names[c]).Failing? ==> Count(kind, names[..c]) >= room
    ensures Scan(kind, names, room).Elements?
  {
    if names != [] {
      assert names[..0] == [];
      assert !kind(names[0]).Failing?;
      var shown := if kind(names[0]).Shown? then 1 else 0;
      if kind(names[0]).Skipped? || room > 1 {
        forall c | 0 <= c < |names[1..]| && kind(names[1..][c]).Failing?
          ensures Count(kind, names[1..][..c]) >= room - shown {
          assert names[1..][c] == names[c + 1];
          assert names[..c + 1][0] == names[0] && names[..c + 1][1..] == names[1..][..c];
        }
        ScanSucceeds(kind, names[1..], room - shown);
      }
    }
  }

  // The page from a position of the list, and where it ends
  lemma PageFrom(kind: Kinds, names: seq<string>, i: nat, page: seq<string>) returns (k: nat)
    requires i <= |names| && Scan(kind, names[i..], LIMIT) == Elements(page)
    ensures i <= k <= |names| && Listable(kind, names[i..]) == page + Listable(kind, names[k..])
    ensures forall c :: i <= c < k ==> !kind(names[c]).Failing?
    ensures if |page| < LIMIT then k == |names|
            else |page| == LIMIT && i < k && kind(names[k - 1]).Shown? && page[LIMIT - 1] == names[k - 1]
    ensures Count(kind, names[..k]) == Count(kind, names[..i]) + |page|
  {
    var j := ScanTakes(kind, names[i..], LIMIT);
    k := i + j;
    assert names[i..][j..] == names[k..];
    forall c | i <= c < k ensures !kind(names[c]).Failing? { assert names[i..][c - i] == names[c]; }
    CountSplit(kind, names, i, k);
  }

  // --- pages that are linked by their last elements ---

  // A page starts with the last o elements of the page before.
  predicate Repeats<T(==)>(o: nat, page: seq<T>, next: seq<T>) {
    |page| >= o && |next| >= o && next[..o] == page[|page| - o..]
  }

  predicate Overlapping<T(==)>(o: nat, pages: seq<seq<T>>) {
    |pages| <= 1 || (Repeats(o, pages[0], pages[1]) && Overlapping(o, pages[1..]))
  }

  // The pages without these repetitions
  function Joined<T(==)>(o: nat, pages: seq<seq<T>>): (r: seq<T>)
    requires Overlapping(o, pages)
    ensures pages != [] ==> pages[0] <= r
  {
    if pages == [] then [] else if |pages| == 1 then pages[0] else pages[0] + Joined(o, pages[1..])[o..]
  }

  // --- the exact condition ---

  // A page ends behind this many listed names when each page repeats o names of the one before.
  predicate EndCount(o: nat, n: nat)
    requires o <= 1
  {
    n > o && (n - o) % (LIMIT - o) == 0
  }

  predicate PageEnd(kind: Kinds, names: seq<string>, o: nat, k: nat)
    requires o <= 1
  {
    0 < k <= |names| && kind(names[k - 1]).Shown? && EndCount(o, Count(kind, names[..k]))
  }

  // The link behind the first k names leads to a page of just the names that are due: those left, and the last o again.
  predicate LeadsOn(kind: Kinds, names: seq<string>, jump: Jump, o: nat, k: nat)
    requires o <= 1 && 0 < k <= |names|
  {
    var next := jump(names[k - 1]);
    next.Some? && next.value <= |names| && Listable(kind, names[next.value..]) == Listable(kind, names[k - o..])
  }

  // The link behind the first k names leads past a name that fails.
  predicate LeadsPast(names: seq<string>, jump: Jump, k: nat, c: nat)
    requires 0 < k <= |names|
  {
    var next := jump(names[k - 1]);
    k <= c && next.Some? && c < next.value
  }

  // The same from a position on: only page ends behind more than o further names count.
  predicate Later(kind: Kinds, names: seq<string>, o: nat, i: nat, k: nat)
    requires o <= 1 && i <= |names|
  {
    PageEnd(kind, names, o, k) && Count(kind, names[..k]) > Count(kind, names[..i]) + o
  }

  ghost predicate LinksLeadOn(kind: Kinds, names: seq<string>, jump: Jump, o: nat, i: nat)
    requires o <= 1 && i <= |names|
  {
    forall k: nat | Later(kind, names, o, i, k) :: LeadsOn(kind, names, jump, o, k)
  }

  ghost predicate FailuresPassed(kind: Kinds, names: seq<string>, jump: Jump, o: nat, i: nat)
    requires o <= 1 && i <= |names|
  {
    forall c: nat | i <= c < |names| && kind(names[c]).Failing? :: IsPassed(kind, names, jump, o, i, c)
  }

  ghost predicate IsPassed(kind: Kinds, names: seq<string>, jump: Jump, o: nat, i: nat, c: nat)
    requires o <= 1 && i <= |names|
  {
    exists k: nat :: Later(kind, names, o, i, k) && LeadsPast(names, jump, k, c)
  }

  ghost predicate InStep(kind: Kinds, names: seq<string>, o: nat, i: nat)
    requires o <= 1
  {
    i <= |names| && Count(kind, names[..i]) % (LIMIT - o) == 0
  }

  // The next page end is a whole page away.
  lemma EndIsFar(o: nat, a: nat, b: nat)
    requires o <= 1 && a % (LIMIT - o) == 0 && EndCount(o, b) && b > a + o
    ensures b >= a + LIMIT
  {
  }

  lemma CountGrows(kind: Kinds, names: seq<string>, i: nat, j: nat)
    requires i <= j <= |names|
    ensures Count(kind, names[..i]) <= Count(kind, names[..j])
  {
    CountSplit(kind, names, i, j);
  }

  // --- the condition is enough ---

  lemma PageIsGiven(kind: Kinds, names: seq<string>, jump: Jump, o: nat, i: nat)
    requires o <= 1 && InStep(kind, names, o, i) && FailuresPassed(kind, names, jump, o, i)
    ensures Scan(kind, names[i..], LIMIT).Elements?
  {
    forall c | 0 <= c < |names[i..]| && kind(names[i..][c]).Failing? ensures Count(kind, names[i..][..c]) >= LIMIT {
      assert names[i..][c] == names[i + c] && names[i..][..c] == names[i..i + c];
      assert IsPassed(kind, names, jump, o, i, i + c);
      var k: nat :| Later(kind, names, o, i, k) && LeadsPast(names, jump, k, i + c);
      EndIsFar(o, Count(kind, names[..i]), Count(kind, names[..k]));
      CountGrows(kind, names, k, i + c);
      CountSplit(kind, names, i, i + c);
    }
    ScanSucceeds(kind, names[i..], LIMIT);
  }

  // A full page from a position in step ends at a page end.
  lemma FullPageEnds(kind: Kinds, names: seq<string>, o: nat, i: nat, k: nat)
    requires o <= 1 && InStep(kind, names, o, i) && i < k <= |names| && kind(names[k - 1]).Shown?
    requires Count(kind, names[..k]) == Count(kind, names[..i]) + LIMIT
    ensures Later(kind, names, o, i, k)
  {
    var a := Count(kind, names[..i]);
    assert (a + LIMIT - o) % (LIMIT - o) == 0;
  }

  // The position a link leads to is in step when the link leads on.
  lemma NextInStep(kind: Kinds, names: seq<string>, jump: Jump, o: nat, k: nat)
    requires o <= 1 && PageEnd(kind, names, o, k) && LeadsOn(kind, names, jump, o, k)
    ensures var next := jump(names[k - 1]).value;
            InStep(kind, names, o, next) && Count(kind, names[..next]) == Count(kind, names[..k]) - o
  {
    var next := jump(names[k - 1]).value;
    CountSplit(kind, names, 0, next);
    CountSplit(kind, names, 0, k - o);
    assert names[0..] == names && names[0..next] == names[..next] && names[0..k - o] == names[..k - o];
    CountLast(kind, names, k);
  }

  // Two page ends behind the same number of listed names are the same.
  lemma EndByCount(kind: Kinds, names: seq<string>, k: nat, l: nat)
    requires 0 < k <= |names| && 0 < l <= |names| && kind(names[k - 1]).Shown? && kind(names[l - 1]).Shown?
    requires Count(kind, names[..k]) == Count(kind, names[..l])
    ensures k == l
  {
    CountLast(kind, names, k);
    CountLast(kind, names, l);
    if k < l { CountGrows(kind, names, k, l - 1); }
    if l < k { CountGrows(kind, names, l, k - 1); }
  }

  // A page end that counts from i but no more from the next page is the end of the page at i.
  lemma LaterOrHere(kind: Kinds, names: seq<string>, o: nat, i: nat, k: nat, next: nat, l: nat)
    requires o <= 1 && InStep(kind, names, o, i) && Later(kind, names, o, i, k) && next <= |names|
    requires Count(kind, names[..k]) == Count(kind, names[..i]) + LIMIT
    requires Count(kind, names[..next]) == Count(kind, names[..k]) - o
    requires Later(kind, names, o, i, l)
    ensures l == k || Later(kind, names, o, next, l)
  {
    EndIsFar(o, Count(kind, names[..i]), Count(kind, names[..l]));
    if Count(kind, names[..l]) == Count(kind, names[..k]) {
      EndByCount(kind, names, k, l);
    }
  }

  lemma ConditionStays(kind: Kinds, names: seq<string>, jump: Jump, o: nat, i: nat, k: nat)
    requires o <= 1 && InStep(kind, names, o, i) && Later(kind, names, o, i, k)
    requires Count(kind, names[..k]) == Count(kind, names[..i]) + LIMIT
    requires LinksLeadOn(kind, names, jump, o, i) && FailuresPassed(kind, names, jump, o, i)
    requires forall c :: i <= c < k ==> !kind(names[c]).Failing?
    ensures var next := jump(names[k - 1]).value;
            LeadsOn(kind, names, jump, o, k) && InStep(kind, names, o, next) &&
            LinksLeadOn(kind, names, jump, o, next) && FailuresPassed(kind, names, jump, o, next) &&
            Count(kind, names[..next]) == Count(kind, names[..k]) - o
  {
    assert LeadsOn(kind, names, jump, o, k);
    var next := jump(names[k - 1]).value;
    NextInStep(kind, names, jump, o, k);
    forall l: nat | Later(kind, names, o, next, l) ensures LeadsOn(kind, names, jump, o, l) {
      assert Later(kind, names, o, i, l);
    }
    forall c | next <= c < |names| && kind(names[c]).Failing? ensures IsPassed(kind, names, jump, o, next, c) {
      FailureStillPassed(kind, names, jump, o, i, k, c);
    }
  }

  lemma FailureStillPassed(kind: Kinds, names: seq<string>, jump: Jump, o: nat, i: nat, k: nat, c: nat)
    requires o <= 1 && InStep(kind, names, o, i) && Later(kind, names, o, i, k) && LeadsOn(kind, names, jump, o, k)
    requires Count(kind, names[..k]) == Count(kind, names[..i]) + LIMIT
    requires FailuresPassed(kind, names, jump, o, i)
    requires forall d :: i <= d < k ==> !kind(names[d]).Failing?
    requires jump(names[k - 1]).value <= c < |names| && kind(names[c]).Failing?
    ensures IsPassed(kind, names, jump, o, jump(names[k - 1]).value, c)
  {
    var next := jump(names[k - 1]).value;
    NextInStep(kind, names, jump, o, k);
    NextIsBehind(kind, names, jump, o, i, k);
    assert IsPassed(kind, names, jump, o, i, c);
    var l: nat :| Later(kind, names, o, i, l) && LeadsPast(names, jump, l, c);
    LaterOrHere(kind, names, o, i, k, next, l);
  }

  // A link that leads on leads behind the position its page started at.
  lemma NextIsBehind(kind: Kinds, names: seq<string>, jump: Jump, o: nat, i: nat, k: nat)
    requires o <= 1 && InStep(kind, names, o, i) && PageEnd(kind, names, o, k) && LeadsOn(kind, names, jump, o, k)
    requires Count(kind, names[..k]) == Count(kind, names[..i]) + LIMIT
    ensures jump(names[k - 1]).value > i
  {
    var next := jump(names[k - 1]).value;
    NextInStep(kind, names, jump, o, k);
    if next <= i { CountGrows(kind, names, next, i); }
  }

  lemma {:induction false} RightPages(kind: Kinds, names: seq<string>, jump: Jump, o: nat, i: nat)
      returns (pages: seq<seq<string>>)
    requires o <= 1 && InStep(kind, names, o, i)
    requires LinksLeadOn(kind, names, jump, o, i) && FailuresPassed(kind, names, jump, o, i)
    ensures Follows(kind, names, jump, i, pages) && Overlapping(o, pages) &&
            Joined(o, pages) == Listable(kind, names[i..])
    decreases |names| - i
  {
    PageIsGiven(kind, names, jump, o, i);
    var page := Scan(kind, names[i..], LIMIT).elements;
    var k := PageFrom(kind, names, i, page);
    if |page| < LIMIT {
      pages := [page];
      OnlyPage(kind, names, jump, o, i, page);
    } else {
      FullPageEnds(kind, names, o, i, k);
      ConditionStays(kind, names, jump, o, i, k);
      NextIsBehind(kind, names, jump, o, i, k);
      var more := RightPages(kind, names, jump, o, jump(names[k - 1]).value);
      pages := [page] + more;
      assert Follows(kind, names, jump, i, pages) by { FollowsAfter(kind, names, jump, i, page, more); }
      JoinPage(kind, names, o, page, k, more);
    }
  }

  lemma OnlyPage(kind: Kinds, names: seq<string>, jump: Jump, o: nat, i: nat, page: seq<string>)
    requires i <= |names| && Scan(kind, names[i..], LIMIT) == Elements(page) && |page| < LIMIT
    requires Listable(kind, names[i..]) == page + Listable(kind, names[|names|..])
    ensures Follows(kind, names, jump, i, [page]) && Overlapping(o, [page]) &&
            Joined(o, [page]) == Listable(kind, names[i..])
  {
    assert names[|names|..] == [] && page + [] == page;
  }

  lemma FollowsAfter(kind: Kinds, names: seq<string>, jump: Jump, i: nat, page: seq<string>, more: seq<seq<string>>)
    requires i <= |names| && Scan(kind, names[i..], LIMIT) == Elements(page) && |page| >= LIMIT
    requires var next := jump(page[|page| - 1]);
             next.Some? && next.value <= |names| && Follows(kind, names, jump, next.value, more)
    ensures Follows(kind, names, jump, i, [page] + more)
  {
    ChainAfter(PageAt(kind, names), jump, i, page, more);
  }

  // A full page in front of pages that start with its last o names
  lemma JoinPage(kind: Kinds, names: seq<string>, o: nat, page: seq<string>, k: nat, more: seq<seq<string>>)
    requires o <= 1 && 0 < k <= |names| && |page| == LIMIT && page[LIMIT - 1] == names[k - 1] &&
             kind(names[k - 1]).Shown?
    requires more != [] && Overlapping(o, more) && Joined(o, more) == Listable(kind, names[k - o..]) &&
             (|more| == 1 || more[0] != [])
    ensures Overlapping(o, [page] + more) && Joined(o, [page] + more) == page + Listable(kind, names[k..])
  {
    var pages := [page] + more;
    assert pages[1..] == more && pages[0] == page && pages[1] == more[0];
    CountLast(kind, names, k);
    if o == 1 {
      assert more[0] <= Joined(o, more) && Joined(o, more)[0] == names[k - 1];
      assert page[LIMIT - 1..] == [names[k - 1]];
      assert Joined(o, more)[1..] == Listable(kind, names[k..]);
    } else {
      assert page[LIMIT..] == [] && more[0][..0] == [];
      assert Joined(o, more)[0..] == Joined(o, more);
    }
  }

  // --- and it is needed ---

  lemma AscendingIsDistinct(names: seq<string>)
    requires StrictlyAscending(names)
    ensures Distinct(names)
  {
    forall i, j | 0 <= i < j < |names| ensures names[i] != names[j] {
      LessTotal(names[i], names[i]);
    }
  }

  // Where the first listed name from a position on stands
  lemma {:induction false} FirstListed(kind: Kinds, names: seq<string>, i: nat) returns (m: nat)
    requires i <= |names| && Listable(kind, names[i..]) != []
    ensures i <= m < |names| && names[m] == Listable(kind, names[i..])[0]
    ensures Listable(kind, names[m..]) == Listable(kind, names[i..])
    decreases |names| - i
  {
    assert names[i..][1..] == names[i + 1..];
    if kind(names[i]).Shown? {
      m := i;
    } else {
      m := FirstListed(kind, names, i + 1);
    }
  }

  // Positions from which the same first name is listed list the same names.
  lemma SameFirstSameRest(kind: Kinds, names: seq<string>, a: nat, b: nat)
    requires Distinct(names) && a <= |names| && b <= |names|
    requires Listable(kind, names[a..]) != [] && Listable(kind, names[b..]) != []
    requires Listable(kind, names[a..])[0] == Listable(kind, names[b..])[0]
    ensures Listable(kind, names[a..]) == Listable(kind, names[b..])
  {
    var m := FirstListed(kind, names, a);
    var n := FirstListed(kind, names, b);
  }

  // The pages from next on start with the names from e on, and so lie in front of the same names.
  lemma LedRight(kind: Kinds, names: seq<string>, jump: Jump, o: nat, next: nat, e: nat, pages: seq<seq<string>>)
    requires o <= 1 && Distinct(names) && next <= |names| && e <= |names|
    requires Follows(kind, names, jump, next, pages) && Overlapping(o, pages) &&
             Joined(o, pages) == Listable(kind, names[e..])
    ensures Listable(kind, names[next..]) == Listable(kind, names[e..])
  {
    FirstPage(kind, names, jump, next, pages);
    var k := PageFrom(kind, names, next, pages[0]);
    if pages[0] == [] {
      assert names[k..] == [];
    } else {
      assert pages[0] <= Joined(o, pages);
      SameFirstSameRest(kind, names, next, e);
    }
  }

  // What the pages behind the first have to be
  lemma RestIsDue(kind: Kinds, names: seq<string>, o: nat, i: nat, k: nat, pages: seq<seq<string>>)
    requires o <= 1 && i <= k <= |names| && 0 < k && kind(names[k - 1]).Shown?
    requires |pages| > 1 && |pages[0]| == LIMIT && pages[0][LIMIT - 1] == names[k - 1]
    requires Overlapping(o, pages) && Joined(o, pages) == Listable(kind, names[i..])
    requires Listable(kind, names[i..]) == pages[0] + Listable(kind, names[k..])
    ensures Overlapping(o, pages[1..]) && Joined(o, pages[1..]) == Listable(kind, names[k - o..])
  {
    var j := Joined(o, pages[1..]);
    assert pages[1..][0] == pages[1] && pages[1] <= j;
    DropCommon(pages[0], j[o..], Listable(kind, names[k..]));
    CountLast(kind, names, k);
    if o == 1 {
      LastIsFirst(pages[0], pages[1], j);
    } else {
      assert j[0..] == j;
    }
  }

  lemma DropCommon(page: seq<string>, a: seq<string>, b: seq<string>)
    requires page + a == page + b
    ensures a == b
  {
    assert (page + a)[|page|..] == a && (page + b)[|page|..] == b;
  }

  lemma LastIsFirst(page: seq<string>, next: seq<string>, j: seq<string>)
    requires page != [] && next != [] && next[..1] == page[|page| - 1..] && next <= j
    ensures j == [page[|page| - 1]] + j[1..]
  {
    assert next[..1][0] == page[|page| - 1..][0];
  }

  lemma {:induction false} RightNeeds(kind: Kinds, names: seq<string>, jump: Jump, o: nat, i: nat,
                                      pages: seq<seq<string>>)
    requires o <= 1 && Distinct(names) && InStep(kind, names, o, i)
    requires Follows(kind, names, jump, i, pages) && Overlapping(o, pages) &&
             Joined(o, pages) == Listable(kind, names[i..])
    ensures LinksLeadOn(kind, names, jump, o, i) && FailuresPassed(kind, names, jump, o, i)
    decreases |pages|
  {
    FirstPage(kind, names, jump, i, pages);
    var k := PageFrom(kind, names, i, pages[0]);
    if |pages[0]| < LIMIT {
      LastPageNeeds(kind, names, jump, o, i);
    } else {
      var next := jump(names[k - 1]).value;
      FullPageEnds(kind, names, o, i, k);
      FullPageNeeds(kind, names, jump, o, i, k, next, pages);
      NextInStep(kind, names, jump, o, k);
      RightNeeds(kind, names, jump, o, next, pages[1..]);
      ConditionBefore(kind, names, jump, o, i, k);
    }
  }

  lemma LeadsOnTo(kind: Kinds, names: seq<string>, jump: Jump, o: nat, k: nat, next: nat)
    requires o <= 1 && 0 < k <= |names| && next <= |names| && jump(names[k - 1]) == Some(next)
    ensures LeadsOn(kind, names, jump, o, k) <==> Listable(kind, names[next..]) == Listable(kind, names[k - o..])
  {
  }

  // The link of a full page leads to the pages behind it, which are due.
  lemma FullPageNeeds(kind: Kinds, names: seq<string>, jump: Jump, o: nat, i: nat, k: nat, next: nat,
                      pages: seq<seq<string>>)
    requires o <= 1 && Distinct(names) && i <= k <= |names| && 0 < k && kind(names[k - 1]).Shown?
    requires |pages| > 1 && |pages[0]| == LIMIT && pages[0][LIMIT - 1] == names[k - 1]
    requires Overlapping(o, pages) && Joined(o, pages) == Listable(kind, names[i..])
    requires Listable(kind, names[i..]) == pages[0] + Listable(kind, names[k..])
    requires jump(names[k - 1]) == Some(next) && next <= |names| && Follows(kind, names, jump, next, pages[1..])
    ensures LeadsOn(kind, names, jump, o, k) && Overlapping(o, pages[1..])
    ensures Joined(o, pages[1..]) == Listable(kind, names[next..])
  {
    RestIsDue(kind, names, o, i, k, pages);
    LedRight(kind, names, jump, o, next, k - o, pages[1..]);
    LeadsOnTo(kind, names, jump, o, k, next);
  }

  // Behind the last page there is no page end.
  lemma LastPageNeeds(kind: Kinds, names: seq<string>, jump: Jump, o: nat, i: nat)
    requires o <= 1 && InStep(kind, names, o, i) && Count(kind, names[..|names|]) < Count(kind, names[..i]) + LIMIT
    requires forall c :: i <= c < |names| ==> !kind(names[c]).Failing?
    ensures LinksLeadOn(kind, names, jump, o, i) && FailuresPassed(kind, names, jump, o, i)
  {
    forall k: nat ensures !Later(kind, names, o, i, k) {
      NoneLater(kind, names, o, i, k);
    }
  }

  lemma NoneLater(kind: Kinds, names: seq<string>, o: nat, i: nat, k: nat)
    requires o <= 1 && InStep(kind, names, o, i) && Count(kind, names[..|names|]) < Count(kind, names[..i]) + LIMIT
    ensures !Later(kind, names, o, i, k)
  {
    if k <= |names| {
      var a, b := Count(kind, names[..i]), Count(kind, names[..k]);
      CountGrows(kind, names, k, |names|);
      assert EndCount(o, b) && b > a + o ==> b >= a + LIMIT;
    }
  }

  lemma ConditionBefore(kind: Kinds, names: seq<string>, jump: Jump, o: nat, i: nat, k: nat)
    requires o <= 1 && InStep(kind, names, o, i) && Later(kind, names, o, i, k) && LeadsOn(kind, names, jump, o, k)
    requires Count(kind, names[..k]) == Count(kind, names[..i]) + LIMIT
    requires forall c :: i <= c < k ==> !kind(names[c]).Failing?
    requires LinksLeadOn(kind, names, jump, o, jump(names[k - 1]).value)
    requires FailuresPassed(kind, names, jump, o, jump(names[k - 1]).value)
    ensures LinksLeadOn(kind, names, jump, o, i) && FailuresPassed(kind, names, jump, o, i)
  {
    var next := jump(names[k - 1]).value;
    NextInStep(kind, names, jump, o, k);
    forall l: nat | Later(kind, names, o, i, l) ensures LeadsOn(kind, names, jump, o, l) {
      LaterOrHere(kind, names, o, i, k, next, l);
    }
    forall c | i <= c < |names| && kind(names[c]).Failing? ensures IsPassed(kind, names, jump, o, i, c) {
      if c < next {
        assert LeadsPast(names, jump, k, c);
      } else {
        assert IsPassed(kind, names, jump, o, next, c);
        var l: nat :| Later(kind, names, o, next, l) && LeadsPast(names, jump, l, c);
        assert Later(kind, names, o, i, l);
      }
    }
  }

  // Some pages from the first name on give every listed name once and in order, apart from the o names each page
  // repeats.
  ghost predicate GivesAll(kind: Kinds, names: seq<string>, jump: Jump, o: nat) {
    exists pages :: GiveAll(kind, names, jump, o, pages)
  }

  ghost predicate GiveAll(kind: Kinds, names: seq<string>, jump: Jump, o: nat, pages: seq<seq<string>>) {
    Follows(kind, names, jump, 0, pages) && Overlapping(o, pages) && Joined(o, pages) == Listable(kind, names)
  }

  /** The pages do so just if every link behind a page end leads on, and past every name that fails. */
  lemma RightIff(kind: Kinds, names: seq<string>, jump: Jump, o: nat)
    requires o <= 1 && StrictlyAscending(names)
    ensures GivesAll(kind, names, jump, o) <==>
            LinksLeadOn(kind, names, jump, o, 0) && FailuresPassed(kind, names, jump, o, 0)
  {
    if LinksLeadOn(kind, names, jump, o, 0) && FailuresPassed(kind, names, jump, o, 0) {
      RightIsEnough(kind, names, jump, o);
    }
    if GivesAll(kind, names, jump, o) {
      var pages :| GiveAll(kind, names, jump, o, pages);
      RightIsNeeded(kind, names, jump, o, pages);
    }
  }

  lemma FromStart(kind: Kinds, names: seq<string>, o: nat)
    requires o <= 1
    ensures names[0..] == names && InStep(kind, names, o, 0)
  {
    assert names[..0] == [];
  }

  lemma RightIsEnough(kind: Kinds, names: seq<string>, jump: Jump, o: nat)
    requires o <= 1 && LinksLeadOn(kind, names, jump, o, 0) && FailuresPassed(kind, names, jump, o, 0)
    ensures GivesAll(kind, names, jump, o)
  {
    FromStart(kind, names, o);
    var pages := RightPages(kind, names, jump, o, 0);
    assert GiveAll(kind, names, jump, o, pages);
  }

  lemma RightIsNeeded(kind: Kinds, names: seq<string>, jump: Jump, o: nat, pages: seq<seq<string>>)
    requires o <= 1 && StrictlyAscending(names) && GiveAll(kind, names, jump, o, pages)
    ensures LinksLeadOn(kind, names, jump, o, 0) && FailuresPassed(kind, names, jump, o, 0)
  {
    AscendingIsDistinct(names);
    FromStart(kind, names, o);
    RightNeeds(kind, names, jump, o, 0, pages);
  }

  // --- links that lead right behind their page ---

  ghost predicate Exact(kind: Kinds, names: seq<string>, jump: Jump, o: nat)
    requires o <= 1
  {
    forall i: nat | i < |names| && kind(names[i]).Shown? :: jump(names[i]) == Some(i + 1 - o)
  }

  ghost predicate NoneFails(kind: Kinds, names: seq<string>) {
    forall name | name in names :: !kind(name).Failing?
  }

  // Such pages give everything if they come to an end, and then no name fails.
  lemma {:induction false} ExactFollows(kind: Kinds, names: seq<string>, jump: Jump, o: nat, i: nat,
                                        pages: seq<seq<string>>)
    requires o <= 1 && Exact(kind, names, jump, o) && Follows(kind, names, jump, i, pages)
    ensures i <= |names| && Overlapping(o, pages) && Joined(o, pages) == Listable(kind, names[i..])
    ensures forall c :: i <= c < |names| ==> !kind(names[c]).Failing?
    decreases |pages|
  {
    FirstPage(kind, names, jump, i, pages);
    var k := PageFrom(kind, names, i, pages[0]);
    if |pages[0]| < LIMIT {
      OnlyPage(kind, names, jump, o, i, pages[0]);
      assert pages == [pages[0]];
    } else {
      assert jump(names[k - 1]) == Some(k - o);
      var more := pages[1..];
      ExactFollows(kind, names, jump, o, k - o, more);
      JoinFirst(kind, names, jump, o, i, k, pages);
    }
  }

  lemma JoinFirst(kind: Kinds, names: seq<string>, jump: Jump, o: nat, i: nat, k: nat, pages: seq<seq<string>>)
    requires o <= 1 && i <= |names| && 0 < k <= |names| && kind(names[k - 1]).Shown?
    requires |pages| > 1 && |pages[0]| == LIMIT && pages[0][LIMIT - 1] == names[k - 1]
    requires Listable(kind, names[i..]) == pages[0] + Listable(kind, names[k..])
    requires Follows(kind, names, jump, k - o, pages[1..])
    requires Overlapping(o, pages[1..]) && Joined(o, pages[1..]) == Listable(kind, names[k - o..])
    ensures Overlapping(o, pages) && Joined(o, pages) == Listable(kind, names[i..])
  {
    FirstPage(kind, names, jump, k - o, pages[1..]);
    JoinPage(kind, names, o, pages[0], k, pages[1..]);
    assert pages == [pages[0]] + pages[1..];
  }

  // --- steps from position to position ---

  type Step = nat -> Option<nat>

  // The position behind n steps
  function After(step: Step, i: nat, n: nat): Option<nat> {
    if n == 0 then Some(i)
    else
      var before := After(step, i, n - 1);
      if before.None? then None else step(before.value)
  }

  // The same position comes again behind a further number of steps.
  ghost predicate ComesBack(step: Step, i: nat, m: nat, n: nat) {
    m < n && After(step, i, m).Some? && After(step, i, m) == After(step, i, n)
  }

  ghost predicate Endless(step: Step, i: nat) {
    forall n: nat :: After(step, i, n).Some?
  }

  ghost predicate Within(step: Step, last: nat) {
    forall i: nat :: step(i).Some? ==> step(i).value <= last
  }

  lemma {:induction false} AfterFirst(step: Step, i: nat, n: nat)
    ensures After(step, i, n + 1) == if step(i).None? then None else After(step, step(i).value, n)
  {
    if n == 0 {
      assert After(step, i, 0) == Some(i);
    } else {
      AfterFirst(step, i, n - 1);
    }
  }

  lemma {:induction false} AfterEarlier(step: Step, i: nat, m: nat, n: nat)
    requires m <= n && After(step, i, n).Some?
    ensures After(step, i, m).Some?
    decreases n - m
  {
    if m < n {
      AfterEarlier(step, i, m, n - 1);
    }
  }

  // From equal positions on everything is equal.
  lemma {:induction false} AfterShifted(step: Step, i: nat, m: nat, n: nat, t: nat)
    requires ComesBack(step, i, m, n)
    ensures After(step, i, m + t) == After(step, i, n + t)
  {
    if t > 0 {
      AfterShifted(step, i, m, n, t - 1);
    }
  }

  lemma {:induction false} BackIsEndless(step: Step, i: nat, m: nat, n: nat, t: nat)
    requires ComesBack(step, i, m, n)
    ensures After(step, i, t).Some?
    decreases t
  {
    if t <= n {
      AfterEarlier(step, i, t, n);
    } else {
      BackIsEndless(step, i, m, n, t - n + m);
      AfterShifted(step, i, m, n, t - n);
    }
  }

  predicate AllBelow(s: seq<nat>, n: nat) {
    forall i :: 0 <= i < |s| ==> s[i] < n
  }

  predicate Differ(s: seq<nat>) {
    forall i, j :: 0 <= i < j < |s| ==> s[i] != s[j]
  }

  // Different numbers below n are at most n.
  lemma {:induction false} FewBelow(s: seq<nat>, n: nat)
    requires AllBelow(s, n) && Differ(s)
    ensures |s| <= n
    decreases n
  {
    if s == [] {
    } else if i :| 0 <= i < |s| && s[i] == n - 1 {
      var rest := s[..i] + s[i + 1..];
      assert forall j :: 0 <= j < |rest| ==> rest[j] == s[if j < i then j else j + 1];
      FewBelow(rest, n - 1);
    } else {
      assert s[0] < n;
      FewBelow(s, n - 1);
    }
  }

  ghost function Positions(step: Step, last: nat, i: nat, n: nat): (s: seq<nat>)
    requires i <= last && Within(step, last) && After(step, i, n).Some?
    ensures |s| == n + 1 && AllBelow(s, last + 1)
    ensures forall m :: 0 <= m <= n ==> After(step, i, m) == Some(s[m])
    decreases n
  {
    (if n == 0 then [] else Positions(step, last, i, n - 1)) + [After(step, i, n).value]
  }

  // Among more positions than there are, one comes back.
  lemma LongComesBack(step: Step, last: nat, i: nat) returns (m: nat, n: nat)
    requires i <= last && Within(step, last) && After(step, i, last + 1).Some?
    ensures n <= last + 1 && ComesBack(step, i, m, n)
  {
    var s := Positions(step, last, i, last + 1);
    if Differ(s) {
      FewBelow(s, last + 1);
    }
    m, n :| 0 <= m < n < |s| && s[m] == s[n];
  }

  lemma EndlessIffBack(step: Step, last: nat, i: nat)
    requires i <= last && Within(step, last)
    ensures Endless(step, i) <==> exists m: nat, n: nat :: n <= last + 1 && ComesBack(step, i, m, n)
  {
    if Endless(step, i) {
      assert After(step, i, last + 1).Some?;
      var m, n := LongComesBack(step, last, i);
    }
    if m: nat, n: nat :| n <= last + 1 && ComesBack(step, i, m, n) {
      forall t: nat ensures After(step, i, t).Some? {
        BackIsEndless(step, i, m, n, t);
      }
    }
  }

  // No more steps than there are positions lead to one from which there is none.
  lemma StopIsNear(step: Step, last: nat, i: nat, n: nat)
    requires i <= last && Within(step, last) && After(step, i, n).Some? && step(After(step, i, n).value).None?
    ensures n <= last
  {
    assert After(step, i, n + 1).None?;
    if n > last {
      AfterEarlier(step, i, last + 1, n);
      var l, m := LongComesBack(step, last, i);
      BackIsEndless(step, i, l, m, n + 1);
    }
  }

  // --- when the pages come to an end ---

  // The link of the page from a position
  function LinkOf(get: nat -> Page<string>, jump: Jump, last: nat): Step {
    (i: nat) =>
      var page := get(i);
      if page.Raised? || |page.elements| < LIMIT then None
      else
        var next := jump(page.elements[|page.elements| - 1]);
        if next.Some? && next.value <= last then next else None
  }

  function Link(kind: Kinds, names: seq<string>, jump: Jump): Step {
    LinkOf(PageAt(kind, names), jump, |names|)
  }

  predicate IsLast(page: Page<string>) {
    page.Elements? && |page.elements| < LIMIT
  }

  lemma LinkStaysWithin(kind: Kinds, names: seq<string>, jump: Jump)
    ensures Within(Link(kind, names, jump), |names|)
  {
  }

  // The links from a position lead to a last page.
  ghost predicate LeadsToEnd(get: nat -> Page<string>, step: Step, i: nat, n: nat) {
    var r := After(step, i, n);
    r.Some? && IsLast(get(r.value))
  }

  ghost predicate ComesToEnd(kind: Kinds, names: seq<string>, jump: Jump, i: nat, n: nat) {
    LeadsToEnd(PageAt(kind, names), Link(kind, names, jump), i, n)
  }

  lemma {:induction false} ChainLeadsToEnd(get: nat -> Page<string>, jump: Jump, last: nat, i: nat,
                                           pages: seq<seq<string>>)
    requires Chain(get, jump, i, pages) && forall j: nat :: get(j).Elements? ==> j <= last
    ensures LeadsToEnd(get, LinkOf(get, jump, last), i, |pages| - 1)
    decreases |pages|
  {
    ChainFirst(get, jump, i, pages);
    var step := LinkOf(get, jump, last);
    if |pages[0]| >= LIMIT {
      var next := jump(pages[0][|pages[0]| - 1]).value;
      assert step(i) == Some(next);
      ChainLeadsToEnd(get, jump, last, next, pages[1..]);
      AfterFirst(step, i, |pages[1..]| - 1);
    } else {
      assert After(step, i, 0) == Some(i);
    }
  }

  lemma {:induction false} EndGivesChain(get: nat -> Page<string>, jump: Jump, last: nat, i: nat, n: nat)
      returns (pages: seq<seq<string>>)
    requires LeadsToEnd(get, LinkOf(get, jump, last), i, n)
    ensures Chain(get, jump, i, pages)
    decreases n
  {
    var step := LinkOf(get, jump, last);
    if n == 0 {
      pages := [get(i).elements];
    } else {
      AfterFirst(step, i, n - 1);
      var page := get(i).elements;
      var more := EndGivesChain(get, jump, last, step(i).value, n - 1);
      pages := [page] + more;
      ChainAfter(get, jump, i, page, more);
    }
  }

  lemma PagesComeToEnd(kind: Kinds, names: seq<string>, jump: Jump, i: nat, pages: seq<seq<string>>)
    requires Follows(kind, names, jump, i, pages)
    ensures pages != [] && ComesToEnd(kind, names, jump, i, |pages| - 1)
  {
    ChainLeadsToEnd(PageAt(kind, names), jump, |names|, i, pages);
  }

  /** The pages go on for ever just if, within one link more than there are names, one starts where another did. */
  lemma EndlessIff(kind: Kinds, names: seq<string>, jump: Jump)
    ensures Endless(Link(kind, names, jump), 0) <==>
            exists m: nat, n: nat :: n <= |names| + 1 && ComesBack(Link(kind, names, jump), 0, m, n)
  {
    LinkStaysWithin(kind, names, jump);
    EndlessIffBack(Link(kind, names, jump), |names|, 0);
  }

  /** Pages that go on for ever have no end. */
  lemma EndlessHasNoEnd(kind: Kinds, names: seq<string>, jump: Jump)
    requires Endless(Link(kind, names, jump), 0)
    ensures !Ends(kind, names, jump)
  {
    if Ends(kind, names, jump) {
      var pages :| Follows(kind, names, jump, 0, pages);
      NoneBehindLast(kind, names, jump, pages);
    }
  }

  lemma NoneBehindLast(kind: Kinds, names: seq<string>, jump: Jump, pages: seq<seq<string>>)
    requires Follows(kind, names, jump, 0, pages)
    ensures After(Link(kind, names, jump), 0, |pages|).None?
  {
    PagesComeToEnd(kind, names, jump, 0, pages);
  }

  ghost predicate Ends(kind: Kinds, names: seq<string>, jump: Jump) {
    exists pages :: Follows(kind, names, jump, 0, pages)
  }

  // Following at most as many links as there are names leads to a last page.
  ghost predicate EndIsReached(kind: Kinds, names: seq<string>, jump: Jump) {
    exists n: nat :: n <= |names| && ComesToEnd(kind, names, jump, 0, n)
  }

  /** The pages come to an end just if they do within as many links as there are names. */
  lemma EndsIff(kind: Kinds, names: seq<string>, jump: Jump)
    ensures Ends(kind, names, jump) <==> EndIsReached(kind, names, jump)
  {
    if Ends(kind, names, jump) {
      var pages :| Follows(kind, names, jump, 0, pages);
      PagesComeToEnd(kind, names, jump, 0, pages);
      EndIsNear(kind, names, jump, |pages| - 1);
    }
    if n: nat :| n <= |names| && ComesToEnd(kind, names, jump, 0, n) {
      NearEndIsEnd(kind, names, jump, n);
    }
  }

  lemma NearEndIsEnd(kind: Kinds, names: seq<string>, jump: Jump, n: nat)
    requires ComesToEnd(kind, names, jump, 0, n)
    ensures Ends(kind, names, jump)
  {
    var pages := EndGivesChain(PageAt(kind, names), jump, |names|, 0, n);
    assert Follows(kind, names, jump, 0, pages);
  }

  lemma EndIsNear(kind: Kinds, names: seq<string>, jump: Jump, n: nat)
    requires ComesToEnd(kind, names, jump, 0, n)
    ensures n <= |names|
  {
    LinkStaysWithin(kind, names, jump);
    StopIsNear(Link(kind, names, jump), |names|, 0, n);
  }
}
