/** The rate at which one service wrapper forks: a window of workers + 1 fork times holds forking back. */
module ForkRate {
  // interrupted: a signal ended the sleep before this fork early.
  datatype Fork = Fork(at: real, interrupted: bool)

  predicate Ordered(h: seq<Fork>) {
    forall i, j :: 0 <= i <= j < |h| ==> h[i].at <= h[j].at
  }

  // The k-th fork waits for the window to pass, or a second, unless the sleep is cut short.
  predicate HeldBack(h: seq<Fork>, workers: nat, k: nat)
    requires workers < k < |h|
  {
    h[k].interrupted || h[k].at >= h[k - workers - 1].at + workers as real || h[k].at >= h[k - 1].at + 1.0
  }

  predicate Paced(h: seq<Fork>, workers: nat) {
    Ordered(h) && forall k :: workers < k < |h| ==> HeldBack(h, workers, k)
  }

  // forktimes: the last workers + 1 fork times
  function Window(h: seq<Fork>, workers: nat): (r: seq<real>)
    ensures |r| == if |h| <= workers + 1 then |h| else workers + 1
    ensures forall i :: 0 <= i < |r| ==> r[i] == h[|h| - |r| + i].at
  {
    var n := if |h| <= workers + 1 then |h| else workers + 1;
    seq(n, i requires 0 <= i < n => h[|h| - n + i].at)
  }

  // How many of the forks behind i, up to k, came after an interrupted sleep
  function Interruptions(h: seq<Fork>, i: nat, k: nat): (n: nat)
    requires i <= k < |h|
  {
    if k == i then 0 else Interruptions(h, i, k - 1) + if h[k].interrupted then 1 else 0
  }

  lemma {:induction false} InterruptionsGrow(h: seq<Fork>, i: nat, j: nat, k: nat)
    requires i <= j <= k < |h|
    ensures Interruptions(h, i, j) <= Interruptions(h, i, k)
  {
    if j < k {
      InterruptionsGrow(h, i, j, k - 1);
    }
  }

  lemma Scale(w: real, a: real, b: real)
    requires w >= 0.0 && a >= b
    ensures w * a >= w * b
  {
  }

  // d is a time in which n forks count.
  predicate Lasts(workers: nat, d: real, n: int) {
    (workers as real + 1.0) * d >= workers as real * n as real
  }

  // After the window: w more seconds for w + 1 more forks
  lemma WindowStep(workers: nat, before: real, after: real, n: int)
    requires after >= before + workers as real && Lasts(workers, before, n)
    ensures Lasts(workers, after, n + workers + 1)
  {
    var w := workers as real;
    Scale(w + 1.0, after, before + w);
    assert (w + 1.0) * (before + w) == (w + 1.0) * before + (w + 1.0) * w;
    assert (n + workers + 1) as real == n as real + (w + 1.0);
    assert w * (n as real + (w + 1.0)) == w * n as real + (w + 1.0) * w;
  }

  // After a sleep: one more second for one more fork
  lemma SleepStep(workers: nat, before: real, after: real, n: int)
    requires after >= before + 1.0 && Lasts(workers, before, n)
    ensures Lasts(workers, after, n + 1)
  {
    var w := workers as real;
    Scale(w + 1.0, after, before + 1.0);
    assert (w + 1.0) * (before + 1.0) == (w + 1.0) * before + w + 1.0;
    assert (n + 1) as real == n as real + 1.0;
    assert w * (n as real + 1.0) == w * n as real + w;
  }

  lemma LastsLonger(workers: nat, before: real, after: real, n: int, m: int)
    requires after >= before && m <= n && Lasts(workers, before, n)
    ensures Lasts(workers, after, m)
  {
    Scale(workers as real + 1.0, after, before);
    Scale(workers as real, n as real, m as real);
  }

  lemma FewForks(workers: nat, d: real, n: int)
    requires d >= 0.0 && n <= 0
    ensures Lasts(workers, d, n)
  {
    Scale(workers as real + 1.0, d, 0.0);
    Scale(workers as real, 0.0, n as real);
  }

  /**
   Any two forks i <= k of a wrapper with w workers, at times t_i and t_k:
   (w + 1) (t_k - t_i) >= w (k - i - w), less w for every interrupted sleep between them.
   */
  lemma {:induction false} RateBound(h: seq<Fork>, workers: nat, i: nat, k: nat)
    requires Paced(h, workers) && i <= k < |h|
    ensures Lasts(workers, h[k].at - h[i].at, k - i - workers - Interruptions(h, i, k))
    decreases k
  {
    var d, c := h[k].at - h[i].at, Interruptions(h, i, k);
    if k - i <= workers + c {
      FewForks(workers, d, k - i - workers - c);
    } else {
      assert HeldBack(h, workers, k);
      if h[k].interrupted {
        RateBound(h, workers, i, k - 1);
        LastsLonger(workers, h[k - 1].at - h[i].at, d, k - 1 - i - workers - (c - 1), k - i - workers - c);
      } else if h[k].at >= h[k - 1].at + 1.0 {
        RateBound(h, workers, i, k - 1);
        SleepStep(workers, h[k - 1].at - h[i].at, d, k - 1 - i - workers - c);
      } else {
        var j := k - workers - 1;
        RateBound(h, workers, i, j);
        InterruptionsGrow(h, i, j, k);
        LastsLonger(workers, h[j].at - h[i].at, h[j].at - h[i].at, j - i - workers - Interruptions(h, i, j),
                    j - i - workers - c);
        WindowStep(workers, h[j].at - h[i].at, d, j - i - workers - c);
      }
    }
  }

  // A further fork that was held back as the window demands
  lemma PacedStep(h: seq<Fork>, workers: nat, f: Fork)
    requires Paced(h, workers) && (h != [] ==> h[|h| - 1].at <= f.at)
    requires |h| > workers ==>
             f.interrupted || f.at >= Window(h, workers)[0] + workers as real || f.at >= h[|h| - 1].at + 1.0
    ensures Paced(h + [f], workers)
    ensures Window(h + [f], workers) == (if |h| > workers then Window(h, workers)[1..] else Window(h, workers)) + [f.at]
  {
    var g := h + [f];
    forall k | workers < k < |g| ensures HeldBack(g, workers, k) {
      if k < |h| { assert HeldBack(h, workers, k); }
    }
  }
}
