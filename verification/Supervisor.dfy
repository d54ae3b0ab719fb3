/**
 The process launcher: wrappers of services with their child processes, signals that arrive at any time,
 reaping, respawning and stopping. The environment is a script of what the calls to the system meet; a
 run is observed for as long as the script lasts.
 */
module Supervisor {
  import opened ForkRate

  // What one call to the system meets: a signal delivered first (0 is none), time passing, the pid of a new
  // or an exited process (0 is none), and whether another green thread calls stop while this one sleeps.
  datatype Tick = Tick(signal: nat, elapsed: real, pid: nat, stopped: bool)

  const SIGHUP: nat := 1

  // The signals after which a launcher goes on: _is_sighup_and_daemon
  function Reloads(daemon: bool): set<nat> {
    if daemon then {SIGHUP} else {}
  }

  // These calls meet no signal.
  predicate Calm(ticks: seq<Tick>, n: nat) {
    n <= |ticks| && forall i :: 0 <= i < n ==> ticks[i].signal == 0
  }

  // Waiting for one child after the other, undisturbed, all of these exit.
  predicate AllExit(ticks: seq<Tick>, pids: set<nat>)
    decreases |ticks|
  {
    pids == {} || (ticks != [] && ticks[0].signal == 0 && AllExit(ticks[1..], pids - {ticks[0].pid}))
  }

  // Each of them can be sent a signal, and then all of them exit.
  predicate AllEnd(ticks: seq<Tick>, pids: set<nat>) {
    Calm(ticks, |pids|) && AllExit(ticks[|pids|..], pids)
  }

  // Idle: the script ended while the launcher was sleeping; Cut: at any other point, or killed.
  datatype Progress = Finished | Idle | Cut

  lemma OneFurther(ticks: seq<Tick>, n: nat)
    ensures n < |ticks| ==> ticks[n..][1..] == ticks[n + 1..]
  {
  }

  lemma OneLess<T>(before: map<nat, T>, after: map<nat, T>, pid: nat)
    requires if pid in before then after == before - {pid} else after == before
    ensures |before| <= |after| + 1 && after.Keys == before.Keys - {pid}
  {
    if pid in before {
      assert before.Keys == after.Keys + {pid};
    }
  }

  class ServiceWrapper {
    const workers: nat
    var children: set<nat>
    var forktimes: seq<real>
    ghost var forks: seq<Fork>    // all forks so far

    constructor (workers: nat)
      ensures this.workers == workers && children == {} && forktimes == [] && forks == []
    {
      this.workers, children, forktimes, forks := workers, {}, [], [];
    }

    ghost predicate Valid()
      reads this
    {
      |children| <= workers && Timed()
    }

    ghost predicate Timed()
      reads `forks, `forktimes
    {
      Paced(forks, workers) && forktimes == Window(forks, workers)
    }

    ghost predicate ForkedBefore(clock: real)
      reads `forks
    {
      forall i :: 0 <= i < |forks| ==> forks[i].at <= clock
    }
  }

  class ProcessLauncher {
    var children: map<nat, ServiceWrapper>
    var running: bool
    var sigcaught: nat
    var handled: bool                  // the handlers are installed; otherwise a signal kills
    ghost var wraps: set<ServiceWrapper>
    ghost var signals: set<nat>        // the signals met so far
    ghost var heeded: set<nat>         // those after which it went on
    ghost var atStart: set<nat>        // those met when the last start of a child began
    // the environment
    var script: seq<Tick>
    var over: bool                     // the script has ended or a signal killed the process
    var clock: real

    ghost predicate ChildrenKnown()
      reads this`children, this`wraps, wraps
    {
      forall pid | pid in children :: children[pid] in wraps && pid in children[pid].children
    }

    ghost predicate WrapsKnown()
      reads this`children, this`wraps, wraps
    {
      forall w: ServiceWrapper, pid | w in wraps && pid in w.children :: pid in children && children[pid] == w
    }

    ghost predicate WrapsValid()
      reads this`wraps, this`clock, wraps
    {
      forall w: ServiceWrapper | w in wraps :: w.Valid() && w.ForkedBefore(clock)
    }

    /** The two maps are inverse, no wrapper has too many children, and the fork times are what they should be. */
    ghost predicate Valid()
      reads this`children, this`wraps, this`clock, wraps
    {
      ChildrenKnown() && WrapsKnown() && WrapsValid()
    }

    // What signals do: the one that comes with the handlers installed is caught and stops the launcher, any later one
    // kills; a child is started only in front of it.
    twostate predicate Heeds()
      reads this
    {
      && (!over ==> !old(over))
      && (handled ==> old(handled) && signals == old(signals) && sigcaught == old(sigcaught))
      && (old(handled) && !handled ==> !running)
      && (old(handled) && !handled && !over ==> sigcaught != 0 && signals == old(signals) + {sigcaught})
      && (!old(handled) && !over ==> signals == old(signals) && sigcaught == old(sigcaught))
      && (atStart == old(atStart) || (old(running) && (old(handled) ==> atStart == old(signals))))
    }

    // A launcher that runs and has met no signal since it last went on, or has caught one
    ghost predicate Launched()
      reads this`over, this`running, this`sigcaught, this`handled, this`signals, this`heeded, this`atStart
    {
      atStart <= heeded &&
      (over || (running && handled && sigcaught == 0 && signals == heeded) ||
       (!running && !handled && sigcaught != 0 && signals == heeded + {sigcaught}))
    }

    // Who is not running was signalled or has no children left.
    ghost predicate Settled()
      reads this`children, this`running, this`sigcaught
    {
      running || sigcaught != 0 || children == map[]
    }

    constructor (script: seq<Tick>, clock: real)
      ensures Valid() && Settled() && running && sigcaught == 0 && children == map[] && wraps == {}
      ensures this.script == script && !over && this.clock == clock && signals == {}
      ensures Launched() && heeded == {}
    {
      children, running, sigcaught, handled, wraps := map[], true, 0, true, {};
      signals, heeded, atStart := {}, {}, {};
      this.script, over, this.clock := script, false, clock;
    }

    // Between two points of a run nothing turns running on, and only a caught signal turns it off.
    twostate predicate Observed()
      reads this
    {
      && |script| <= |old(script)| && (!over ==> !old(over))
      && (running ==> old(running)) && (old(running) && !running ==> sigcaught != 0)
      && (old(sigcaught) != 0 ==> sigcaught != 0) && clock >= old(clock)
    }

    // One call to the system: a signal that is handled sets the flags, and the next one kills.
    twostate predicate Stepped()
      reads this
    {
      if old(over) || old(script) == [] then
        over && script == old(script) && running == old(running) && sigcaught == old(sigcaught) &&
          handled == old(handled) && signals == old(signals)
      else
        var signal := old(script)[0].signal;
        script == old(script)[1..] && (over <==> signal != 0 && !old(handled)) &&
        signals == (if signal == 0 then old(signals) else old(signals) + {signal}) &&
        if signal != 0 && old(handled) then sigcaught == signal && !running && !handled
        else running == old(running) && sigcaught == old(sigcaught) && handled == old(handled)
    }

    // No signal was met.
    twostate predicate Undisturbed()
      reads this
    {
      running == old(running) && sigcaught == old(sigcaught) && handled == old(handled) && signals == old(signals)
    }

    // Nothing that a run shows has changed.
    twostate predicate Resting()
      reads this
    {
      script == old(script) && over == old(over) && running == old(running) && sigcaught == old(sigcaught)
      && handled == old(handled) && children == old(children) && signals == old(signals) && atStart == old(atStart)
      && heeded == old(heeded)
    }

    method Next() returns (t: Tick)
      modifies this`script, this`over, this`running, this`sigcaught, this`handled, this`signals
      ensures Observed() && Heeds() && (!over ==> |script| < |old(script)|)
      ensures Stepped() && t == if old(over) || old(script) == [] then Tick(0, 0.0, 0, false) else old(script)[0]
    {
      t := Tick(0, 0.0, 0, false);
      if over || script == [] {
        over := true;
        return;
      }
      t, script := script[0], script[1..];
      if t.signal != 0 {
        signals := signals + {t.signal};
        if handled {
          sigcaught, running, handled := t.signal, false, false;
        } else {
          over := true;
        }
      }
    }

    // time.time()
    method Now() returns (now: real)
      modifies this`script, this`over, this`running, this`sigcaught, this`handled, this`signals, this`clock
      ensures Observed() && Heeds() && Stepped() && now == clock
    {
      var t := Next();
      clock := clock + if t.elapsed > 0.0 then t.elapsed else 0.0;
      now := clock;
    }

    // time.sleep(seconds), which a signal cuts short
    method Sleep(seconds: real) returns (interrupted: bool)
      requires seconds >= 0.0
      modifies this`script, this`over, this`running, this`sigcaught, this`handled, this`signals, this`clock
      ensures Observed() && Heeds() && (interrupted || clock >= old(clock) + seconds)
    {
      var t := Next();
      interrupted := t.signal != 0;
      var elapsed := if t.elapsed > 0.0 then t.elapsed else 0.0;
      clock := clock + if interrupted || elapsed > seconds then elapsed else seconds;
    }

    // The part of _start_child in front of the fork
    method HoldBack(wrap: ServiceWrapper)
      requires wrap.Timed() && wrap.ForkedBefore(clock)
      modifies this`script, this`over, this`running, this`sigcaught, this`handled, this`signals, this`clock,
        wrap`forktimes, wrap`forks
      ensures Observed() && Heeds() && wrap.Timed() && wrap.ForkedBefore(clock)
      ensures |wrap.forks| == |old(wrap.forks)| + 1 && wrap.forks[..|old(wrap.forks)|] == old(wrap.forks)
      ensures |old(wrap.forktimes)| <= wrap.workers ==> Stepped()
    {
      var interrupted := false;
      ghost var before := wrap.forks;
      ghost var slept := false;
      if |wrap.forktimes| > wrap.workers {
        var t := Now();
        if t - wrap.forktimes[0] < wrap.workers as real {
          slept := true;
          interrupted := Sleep(1.0);
        }
        wrap.forktimes := wrap.forktimes[1..];
      }
      var now := Now();
      wrap.forktimes := wrap.forktimes + [now];
      ghost var f := Fork(now, interrupted);
      PacedStep(before, wrap.workers, f);
      wrap.forks := before + [f];
    }

    // The same for the launcher as a whole: the start of a child begins.
    method RecordFork(wrap: ServiceWrapper)
      requires Valid() && wrap in wraps
      modifies this`script, this`over, this`running, this`sigcaught, this`handled, this`signals, this`atStart,
        this`clock, wrap`forktimes, wrap`forks
      ensures Observed() && (old(running) ==> Heeds()) && Valid()
      ensures atStart == old(signals)
      ensures |old(wrap.forktimes)| <= wrap.workers ==> Stepped()
    {
      assert wrap.Timed() && wrap.ForkedBefore(clock);
      atStart := signals;
      HoldBack(wrap);
    }

    // A new child is entered in both maps.
    method AddChild(wrap: ServiceWrapper, pid: nat)
      requires Valid() && wrap in wraps && |wrap.children| < wrap.workers && pid !in children
      modifies this`children, wrap
      ensures Valid() && Added(wrap, pid)
    {
      wrap.children := wrap.children + {pid};
      children := children[pid := wrap];
      assert ChildrenKnown();
      assert WrapsKnown();
      assert WrapsValid();
    }

    // The next call starts a new process, and no signal is delivered with it.
    ghost predicate ForkSucceeds()
      reads this`script, this`over, this`children
    {
      !over && script != [] && script[0].signal == 0 && script[0].pid != 0 && script[0].pid !in children
    }

    // The wrapper forks without being held back, undisturbed.
    ghost predicate CalmFork(wrap: ServiceWrapper)
      reads this`script, this`over, this`children, wrap`forktimes
    {
      !over && |wrap.forktimes| <= wrap.workers && |script| >= 2 && script[0].signal == 0 &&
      script[1].signal == 0 && script[1].pid != 0 && script[1].pid !in children
    }

    // What it leads to
    twostate predicate Forked(wrap: ServiceWrapper)
      requires |old(script)| >= 2
      reads this
    {
      children == old(children)[old(script)[1].pid := wrap] && script == old(script)[2..] && !over &&
      running == old(running) && sigcaught == old(sigcaught) && handled == old(handled)
    }

    // os.fork() in the parent; a pid that is in use ends the run, as no new process has it.
    method ForkChild() returns (pid: nat)
      modifies this`script, this`over, this`running, this`sigcaught, this`handled, this`signals
      ensures Observed() && Heeds() && (!over ==> |script| < |old(script)| && pid !in children)
      ensures old(ForkSucceeds()) ==> Stepped() && !over && pid == old(script)[0].pid
    {
      var t := Next();
      pid := t.pid;
      if pid == 0 || pid in children {
        over := true;
      }
    }

    method StartChild(wrap: ServiceWrapper) returns (pid: nat)
      requires Valid() && wrap in wraps && |wrap.children| < wrap.workers
      modifies this`script, this`over, this`running, this`sigcaught, this`handled, this`signals, this`atStart,
        this`clock, this`children, wrap
      ensures Observed() && (old(running) ==> Heeds()) && (!over ==> |script| < |old(script)|) && Valid()
      ensures atStart == old(signals)
      ensures if over then children == old(children) && wrap.children == old(wrap.children)
              else Added(wrap, pid)
      ensures old(CalmFork(wrap)) ==> Forked(wrap)
    {
      ghost var before, kids := children, wrap.children;
      RecordFork(wrap);
      pid := ForkChild();
      assert children == before && wrap.children == kids;
      if !over {
        AddChild(wrap, pid);
        assert children == before[pid := wrap];
      }
    }

    // Children are started one by one until the wrapper is full or the launcher no longer runs.
    method Refill(wrap: ServiceWrapper)
      requires Valid() && wrap in wraps
      modifies this`script, this`over, this`running, this`sigcaught, this`handled, this`signals, this`atStart,
        this`clock, this`children, wrap
      ensures Observed() && Heeds() && Valid()
      ensures over || !running || |wrap.children| == wrap.workers
      ensures old(wrap.children) <= wrap.children && old(children).Keys <= children.Keys
      ensures !old(running) ==> Resting() && wrap.children == old(wrap.children)
    {
      while running && |wrap.children| < wrap.workers && !over
        invariant Observed() && Heeds() && Valid()
        invariant old(wrap.children) <= wrap.children && old(children).Keys <= children.Keys
        invariant !old(running) ==> Resting() && wrap.children == old(wrap.children)
        decreases |script|, !over
      {
        var pid := StartChild(wrap);
      }
      assert wrap.Valid();
    }

    /** A launch that ends with the launcher still running leaves exactly the workers asked for. */
    method LaunchService(workers: nat) returns (wrap: ServiceWrapper)
      requires Valid()
      modifies this`script, this`over, this`running, this`sigcaught, this`handled, this`signals, this`atStart,
        this`clock, this`children, this`wraps
      ensures Observed() && Heeds() && Valid() && fresh(wrap) && wraps == old(wraps) + {wrap} && wrap.workers == workers
      ensures over || !running || |wrap.children| == workers
      ensures forall pid | pid in old(children) :: pid in children
      ensures old(!over && Launched()) ==> Launched()
    {
      wrap := new ServiceWrapper(workers);
      wraps := wraps + {wrap};
      Refill(wrap);
    }

    // pid was a child of wrap and of nothing else, and is gone from both maps.
    twostate predicate Reaped(wrap: ServiceWrapper, pid: nat)
      reads this, wrap
    {
      pid in old(children) && old(children)[pid] == wrap && children == old(children) - {pid} &&
      pid in old(wrap.children) && wrap.children == old(wrap.children) - {pid}
    }

    // The converse: pid is a child of wrap now.
    twostate predicate Added(wrap: ServiceWrapper, pid: nat)
      reads this, wrap
    {
      pid !in old(children) && children == old(children)[pid := wrap] && wrap.children == old(wrap.children) + {pid}
    }

    // A child that exited is taken out of both maps.
    method RemoveChild(wrap: ServiceWrapper, pid: nat)
      requires Valid() && wrap in wraps && pid in children && children[pid] == wrap
      modifies this`children, wrap`children
      ensures Valid() && Reaped(wrap, pid)
    {
      ghost var before := children;
      children := children - {pid};
      wrap.children := wrap.children - {pid};
      forall p | p in children ensures children[p] in wraps && p in children[p].children {
        assert p in before && p in old(before[p].children);
      }
      assert WrapsKnown();
      assert WrapsValid();
    }

    method WaitChild() returns (wrap: ServiceWrapper?, ghost pid: nat)
      requires Valid()
      modifies this`script, this`over, this`running, this`sigcaught, this`handled, this`signals, this`children,
        wraps
      ensures Observed() && Heeds() && Valid() && (!over ==> |script| < |old(script)|)
      ensures wrap == null ==> children == old(children)
      ensures wrap != null ==> !over && wrap in wraps && Reaped(wrap, pid)
      ensures forall w: ServiceWrapper | w in wraps && w != wrap :: w.children == old(w.children)
      ensures Stepped() && (wrap == null <==> over || old(script)[0].pid !in old(children))
      ensures wrap != null ==> pid == old(script)[0].pid
    {
      wrap, pid := null, 0;
      var t := Next();
      if !over && t.pid in children {
        pid := t.pid;
        wrap := Reap(t.pid);
      }
    }

    // The part of _wait_child behind waitpid
    method Reap(pid: nat) returns (wrap: ServiceWrapper)
      requires Valid() && pid in children
      modifies this`children, wraps
      ensures Valid() && wrap in wraps && Reaped(wrap, pid)
      ensures forall w: ServiceWrapper | w in wraps && w != wrap :: w.children == old(w.children)
    {
      wrap := children[pid];
      RemoveChild(wrap, pid);
    }

    // Everything is sent a signal and reaped while nothing comes in between.
    ghost predicate CanEnd()
      reads this`script, this`over, this`children
    {
      !over && AllEnd(script, children.Keys)
    }

    /**
     A stop that completes leaves no children, in neither map. It sends each child a signal and then waits for all of
     them, and it completes when they all exit.
     */
    method Stop() returns (completed: bool)
      requires Valid()
      modifies this`script, this`over, this`running, this`sigcaught, this`handled, this`signals, this`clock,
        this`children, wraps
      ensures Valid() && !running && |script| <= |old(script)| && (!over ==> !old(over)) && clock >= old(clock)
      ensures Heeds()
      ensures old(sigcaught) != 0 ==> sigcaught != 0
      ensures completed <==> children == map[]
      ensures completed ==> forall w: ServiceWrapper | w in wraps :: w.children == {}
      ensures !completed ==> over
      ensures !over ==> |script| + 2 * |old(children)| <= |old(script)|
      ensures old(CanEnd()) ==> completed && !over
      ensures forall w: ServiceWrapper | w in wraps :: w.children <= old(w.children)
    {
      Halt();
      completed := WaitForAll();
      if completed {
        NoChildren();
      }
    }

    // Stop up to the waiting
    method Halt()
      modifies this`script, this`over, this`running, this`sigcaught, this`handled, this`signals
      ensures Heeds()
      ensures !running && |script| <= |old(script)| && (!over ==> !old(over))
      ensures old(sigcaught) != 0 ==> sigcaught != 0
      ensures !over ==> |script| + |children| <= |old(script)|
      ensures old(!over && Calm(script, |children|)) ==> !over && script == old(script)[|children|..]
    {
      running := false;
      assert Heeds();
      Signal();
    }

    // The loop at the end of stop
    method WaitForAll() returns (completed: bool)
      requires Valid() && !running
      modifies this`script, this`over, this`running, this`sigcaught, this`handled, this`signals, this`children,
        wraps
      ensures Observed() && Heeds() && Valid()
      ensures completed <==> children == map[]
      ensures !completed ==> over
      ensures !over ==> |script| + |old(children)| <= |old(script)|
      ensures old(!over && AllExit(script, children.Keys)) ==> completed && !over
      ensures forall w: ServiceWrapper | w in wraps :: w.children <= old(w.children)
    {
      while children != map[] && !over
        invariant Observed() && Heeds() && Valid()
        invariant forall w: ServiceWrapper | w in wraps :: w.children <= old(w.children)
        invariant !over ==> |script| + |old(children)| <= |old(script)| + |children|
        invariant old(!over && AllExit(script, children.Keys)) ==> !over && AllExit(script, children.Keys)
        decreases |script|, !over
      {
        WaitForOne();
      }
      completed := children == map[];
    }

    // One turn of it
    method WaitForOne()
      requires Valid()
      modifies this`script, this`over, this`running, this`sigcaught, this`handled, this`signals, this`children,
        wraps
      ensures Observed() && Heeds() && Valid()
      ensures forall w: ServiceWrapper | w in wraps :: w.children <= old(w.children)
      ensures !over ==> |script| < |old(script)| && |old(children)| <= |children| + 1
      ensures old(!over && children != map[] && AllExit(script, children.Keys)) ==>
              !over && AllExit(script, children.Keys)
    {
      ghost var before, next := children, script;
      var wrap, pid := WaitChild();
      if !over {
        OneLess(before, children, next[0].pid);
      }
    }

    // The first signal to a child meets a signal, and nothing comes behind the last one.
    ghost predicate Overtaken()
      reads this`script, this`over, this`children
    {
      !over && |script| == |children| && children != map[] && script[0].signal != 0 &&
      forall i :: 1 <= i < |script| ==> script[i].signal == 0
    }

    // Every child is sent a signal; each sending is a call to the system.
    method Signal()
      modifies this`script, this`over, this`running, this`sigcaught, this`handled, this`signals
      ensures Observed() && Heeds() && (children == map[] ==> Resting())
      ensures !over ==> |children| <= |old(script)| && script == old(script)[|children|..]
      ensures old(!over && Calm(script, |children|)) ==> !over && Undisturbed()
      ensures old(handled && Overtaken()) ==> !over && script == [] && old(script)[0].signal in signals
    {
      var pids := children.Keys;
      ghost var sent: nat := 0;
      while pids != {}
        invariant pids <= children.Keys && sent + |pids| == |children|
        invariant Observed() && Heeds() && (children == map[] ==> Resting())
        invariant !over ==> sent <= |old(script)| && script == old(script)[sent..]
        invariant old(!over && Calm(script, |children|)) ==> !over && Undisturbed()
        invariant old(handled && Overtaken()) ==>
                    !over && if sent == 0 then handled else old(script)[0].signal in signals
        decreases pids
      {
        var pid :| pid in pids;
        assert pid in children;
        OneFurther(old(script), sent);
        pids, sent := pids - {pid}, sent + 1;
        var t := Next();
      }
    }

    // Wrappers that had no children have none.
    twostate predicate StayEmpty(was: set<ServiceWrapper>)
      reads was
    {
      forall w: ServiceWrapper | w in was && old(w.children) == {} :: w.children == {}
    }

    // Of these wrappers, the reaped ones are full, and the others have the children they had.
    twostate predicate Respawned(new reaped: set<ServiceWrapper>, was: set<ServiceWrapper>)
      reads was
    {
      forall w: ServiceWrapper | w in was ::
        if w in reaped then |w.children| == w.workers else w.children == old(w.children)
    }

    ghost predicate NoneHasChildren()
      reads this`wraps, wraps
    {
      forall w: ServiceWrapper | w in wraps :: w.children == {}
    }

    // Nothing happened but that the script ended.
    twostate predicate AtRest()
      reads this
    {
      running == old(running) && sigcaught == old(sigcaught) && children == old(children) && signals == old(signals)
    }

    // The launcher, asleep, meets a signal with no child exiting, and sleeps on undisturbed.
    ghost predicate CatchesAsleep()
      reads this`script, this`over, this`running, this`children
    {
      running && !over && |script| >= 2 && script[0].signal != 0 && script[0].pid !in children &&
      script[1].signal == 0 && !script[1].stopped
    }

    // What comes of it: it stops running, with all its children.
    twostate predicate CaughtAsleep()
      requires |old(script)| >= 2
      reads this
    {
      script == old(script)[2..] && !over && !running && sigcaught == old(script)[0].signal && children == old(children)
    }

    // The only child there is exits, and the signal to reload is caught while it is reaped.
    ghost predicate LosesChild()
      reads this`script, this`over, this`running, this`children
    {
      running && !over && script != [] && script[0].signal == SIGHUP && children.Keys == {script[0].pid}
    }

    // What comes of it: the launcher stops running and the child is not replaced.
    twostate predicate LostChild()
      requires old(script) != []
      reads this
    {
      script == old(script)[1..] && !over && !running && sigcaught == SIGHUP && children == map[]
    }

    // One turn of the respawning loop: a child that exited is replaced until its wrapper is full again.
    method RespawnOne() returns (wrap: ServiceWrapper?)
      requires Valid() && running
      modifies this`script, this`over, this`running, this`sigcaught, this`handled, this`signals, this`atStart,
        this`clock, this`children, wraps
      ensures Observed() && Heeds() && Valid() && StayEmpty(wraps)
      ensures (wrap != null || !over ==> |script| < |old(script)|)
      ensures wrap == null ==> children == old(children) && Stepped()
      ensures wrap != null ==> wrap in wraps && (over || !running || |wrap.children| == wrap.workers)
      ensures forall w: ServiceWrapper | w in wraps && w != wrap :: w.children == old(w.children)
      ensures old(handled && LosesChild()) ==> wrap != null && LostChild()
      ensures old(CatchesAsleep()) ==> wrap == null
    {
      ghost var pid;
      wrap, pid := WaitChild();
      if wrap == null {
        return;
      }
      Refill(wrap);
    }

    // The sleep of the loop, in which another green thread may call stop
    method Doze() returns (p: Progress)
      requires Valid()
      modifies this`script, this`over, this`running, this`sigcaught, this`handled, this`signals, this`clock,
        this`children, wraps
      ensures Valid() && StayEmpty(wraps) && Heeds() && clock >= old(clock) && (running ==> old(running))
      ensures p.Finished? ==> !over && |script| < |old(script)|
      ensures p.Finished? && old(running) && !running ==> sigcaught != 0 || children == map[]
      ensures p.Finished? && old(script[0].stopped) ==> !running && children == map[]
      ensures old(sigcaught) != 0 ==> sigcaught != 0
      ensures p.Idle? || (p.Finished? && running) ==>
              children == old(children) && forall w: ServiceWrapper | w in wraps :: w.children == old(w.children)
      ensures !p.Finished? ==> over
      ensures old(over) || old(script) == [] ==> p.Idle? && AtRest()
      ensures old(!over && script != [] && script[0].signal == 0 && !script[0].stopped) ==>
              p.Finished? && script == old(script)[1..] && AtRest()
    {
      var t := Next();
      if over {
        return Idle;
      }
      if t.stopped {
        var completed := Stop();
        return if completed && !over then Finished else Cut;
      }
      return Finished;
    }

    // One turn of the loop, and the wrapper whose child was reaped in it; Finished when it is done
    method Turn() returns (p: Progress, ghost reaped: set<ServiceWrapper>)
      requires Valid() && running
      modifies this`script, this`over, this`running, this`sigcaught, this`handled, this`signals, this`atStart,
        this`clock, this`children, wraps
      ensures Valid() && StayEmpty(wraps) && Heeds() && clock >= old(clock)
      ensures p.Finished? ==> !over && |script| < |old(script)| && Settled()
      ensures p.Idle? || (p.Finished? && running) ==> Respawned(reaped, wraps)
      ensures p.Idle? ==> reaped == {}
      ensures !p.Finished? ==> over
      ensures old(handled && LosesChild()) ==> p.Finished? && LostChild()
      ensures old(handled && CatchesAsleep()) ==> p.Finished? && CaughtAsleep()
      ensures old(script) == [] ==> p.Idle? && AtRest()
    {
      var wrap := RespawnOne();
      reaped := {};
      if wrap != null {
        reaped := {wrap};
        return if over then Cut else Finished, reaped;
      }
      p := Doze();
    }

    /**
     Respawning goes on while the launcher runs. Observed asleep, a wrapper is full just if it was when the round of
     respawning began or had a child reaped in the round: only a reaped child is replaced, and what a round before it
     left undone stays undone.
     */
    method RespawnChildren() returns (p: Progress, ghost reaped: set<ServiceWrapper>)
      requires Valid() && Settled()
      modifies this`script, this`over, this`running, this`sigcaught, this`handled, this`signals, this`atStart,
        this`clock, this`children, wraps
      ensures Valid() && StayEmpty(wraps) && Heeds() && clock >= old(clock)
      ensures p.Finished? ==>
              !running && Settled() && |script| <= |old(script)| && (old(running) ==> |script| < |old(script)|)
      ensures p.Idle? ==> Respawned(reaped, wraps)
      ensures p.Idle? ==> forall w: ServiceWrapper | w in wraps :: |w.children| == w.workers <==>
              |old(w.children)| == w.workers || w in reaped
      ensures !p.Finished? ==> over
      ensures old(handled && LosesChild()) ==> p.Finished? && LostChild()
      ensures old(handled && CatchesAsleep()) ==> p.Finished? && CaughtAsleep()
      ensures old(running) && old(script) == [] ==> p.Idle? && AtRest()
      ensures p.Finished? && !old(over) ==> !over
      ensures !old(running) ==> p.Finished? && Resting()
    {
      ghost var first := true;
      reaped := {};
      while running
        invariant Valid() && StayEmpty(wraps) && Heeds() && Settled()
        invariant clock >= old(clock) && |script| <= |old(script)|
        invariant if first then Resting() && reaped == {} else old(running) && |script| < |old(script)|
        invariant running ==> Respawned(reaped, wraps)
        invariant !first && old(handled && LosesChild()) ==> LostChild()
        invariant !first && old(handled && CatchesAsleep()) ==> CaughtAsleep()
        invariant !old(over) ==> !over
        decreases |script|
      {
        ghost var more;
        p, more := Turn();
        reaped, first := reaped + more, false;
        if !p.Finished? {
          return;
        }
      }
      p := Finished;
    }
    // A launcher that wait can take over: what was met since it last went on is the signal that it has caught, and no
    // child is to be signalled for it with the handlers installed again.
    ghost predicate Ready(daemon: bool)
      reads this`children, this`over, this`running, this`sigcaught, this`signals, this`heeded, this`atStart
    {
      !over && heeded <= Reloads(daemon) && atStart <= Reloads(daemon) &&
      if running then sigcaught == 0 && signals == heeded
      else
        (signals == heeded || (sigcaught != 0 && signals == heeded + {sigcaught})) &&
        (sigcaught in Reloads(daemon) ==> children == map[])
    }

    /** A launcher is ready for wait unless it has children and has caught the signal to reload. */
    lemma LaunchedIsReady(daemon: bool)
      requires Launched() && heeded == {} && !over
      ensures Ready(daemon) <==> !(daemon && sigcaught == SIGHUP && children != map[])
    {
    }

    // It has caught the signal to reload alone, and the next signal kills or there is nobody to send one to.
    ghost predicate GoesOn(daemon: bool)
      reads this`children, this`over, this`signals, this`handled
    {
      !over && signals <= Reloads(daemon) && (handled ==> children == map[])
    }

    // What wait does between two rounds of respawning, for a signal that was caught: Finished when it goes on
    method Restart() returns (p: Progress)
      modifies this`script, this`over, this`running, this`sigcaught, this`handled, this`signals, this`heeded
      ensures |script| <= |old(script)|
      ensures if over then p.Cut? else p.Finished? && running && sigcaught == 0 && heeded == signals
      ensures children == map[] && !old(over) ==> !over && script == old(script) && signals == old(signals)
      ensures !old(handled) && !over ==> signals == old(signals)
      ensures old(handled && Overtaken()) ==> !over && script == [] && old(script)[0].signal in signals
    {
      Signal();
      assert children == map[] ==> Resting();
      p := Cut;
      if !over {
        running, sigcaught, heeded := true, 0, signals;
        p := Finished;
      }
    }

    // A signal was caught: the one to reload starts a new round, any other ends the loop.
    method Caught(daemon: bool) returns (p: Progress, interrupted: bool, again: bool)
      requires Valid()
      modifies this`script, this`over, this`running, this`sigcaught, this`handled, this`signals, this`heeded
      ensures |script| <= |old(script)| && (again ==> running && !interrupted)
      ensures !again && p.Finished? ==> interrupted
      ensures !p.Finished? ==> over && !again
      ensures !p.Finished? ==> p.Cut?
      ensures daemon && old(sigcaught == SIGHUP && children == map[] && !over) ==> again && script == old(script)
      ensures old(sigcaught) !in Reloads(daemon) ==> p.Finished? && interrupted && !again && Resting()
      ensures old(GoesOn(daemon)) && again && atStart <= Reloads(daemon) ==> Ready(daemon)
      ensures daemon && old(sigcaught == SIGHUP && handled && Overtaken()) ==>
              again && script == [] && old(script)[0].signal in signals
    {
      if !(sigcaught == SIGHUP && daemon) {
        return Finished, true, false;
      }
      p := Restart();
      return p, false, p.Finished?;
    }

    // The handlers are installed, and children are respawned.
    method Watch(ghost daemon: bool) returns (p: Progress)
      requires Valid() && Settled()
      modifies this`script, this`over, this`running, this`sigcaught, this`handled, this`signals, this`atStart,
        this`clock, this`children, wraps
      ensures Valid() && StayEmpty(wraps)
      ensures p.Finished? ==>
              !running && Settled() && |script| <= |old(script)| && (old(running) ==> |script| < |old(script)|)
      ensures !p.Finished? ==> over
      ensures old(LosesChild()) ==> p.Finished? && LostChild()
      ensures old(running) && old(script) == [] ==> p.Idle? && AtRest()
      ensures old(CatchesAsleep()) ==> p.Finished? && CaughtAsleep()
      ensures old(Ready(daemon)) ==> atStart <= Reloads(daemon) && (running ==> signals <= Reloads(daemon))
      ensures old(Ready(daemon)) && p.Finished? && sigcaught in Reloads(daemon) ==> GoesOn(daemon)
      ensures !old(running) ==> p.Finished? && handled && script == old(script) && over == old(over) && AtRest()
    {
      handled := true;
      ghost var reaped;
      p, reaped := RespawnChildren();
    }

    // The signal it has caught is to end it.
    ghost predicate IsToEnd(daemon: bool)
      reads this`over, this`running, this`sigcaught
    {
      !running && !over && sigcaught != 0 && sigcaught !in Reloads(daemon)
    }

    // Asleep it catches such a signal.
    ghost predicate EndsAsleep(daemon: bool)
      reads this`script, this`over, this`running, this`children
    {
      CatchesAsleep() && script[0].signal !in Reloads(daemon)
    }

    // The signal to reload was caught before, and while children are sent it one that is to end the launcher comes.
    ghost predicate LosesSignal(daemon: bool)
      reads this`script, this`over, this`running, this`sigcaught, this`children
    {
      daemon && !running && sigcaught == SIGHUP && Overtaken() && script[0].signal != SIGHUP
    }

    // The body of the loop of wait
    method Round(daemon: bool) returns (p: Progress, interrupted: bool, again: bool)
      requires Valid() && Settled()
      modifies this`script, this`over, this`running, this`sigcaught, this`handled, this`signals, this`atStart,
        this`clock, this`children, this`heeded, wraps
      ensures Valid() && StayEmpty(wraps)
      ensures again ==> running && !interrupted
      ensures again ==> (|script| < |old(script)| || (|script| == |old(script)| && !old(running)))
      ensures !again && p.Finished? && !interrupted ==> !running && children == map[]
      ensures !p.Finished? ==> over && !again
      ensures daemon && old(LosesChild()) ==> again && children == map[] && script == old(script)[1..]
      ensures old(running) && old(script) == [] ==> p.Idle? && running && !interrupted && signals == old(signals)
      ensures old(Ready(daemon)) ==> atStart <= Reloads(daemon) && (again ==> Ready(daemon))
      ensures old(Ready(daemon)) && p.Idle? && running ==> signals <= Reloads(daemon)
      ensures old(EndsAsleep(daemon)) ==> p.Finished? && interrupted && !again && CaughtAsleep()
      ensures old(IsToEnd(daemon)) ==>
              p.Finished? && interrupted && !again && !over && script == old(script) && children == old(children)
      ensures old(LosesSignal(daemon)) ==> again && script == [] && old(script)[0].signal in signals
    {
      interrupted, again := false, false;
      p := Watch(daemon);
      if p.Finished? && sigcaught != 0 {
        p, interrupted, again := Caught(daemon);
      }
    }

    // The loop of wait: interrupted is set when a signal other than the one to reload ended it.
    method Rounds(daemon: bool) returns (p: Progress, interrupted: bool)
      requires Valid() && Settled()
      modifies this`script, this`over, this`running, this`sigcaught, this`handled, this`signals, this`atStart,
        this`clock, this`children, this`heeded, wraps
      ensures Valid() && StayEmpty(wraps)
      ensures p.Finished? && !interrupted ==> !running && children == map[]
      ensures !p.Finished? ==> over
      ensures daemon && old(LosesChild()) ==>
              NoneHasChildren() && (|old(script)| == 1 ==> p.Idle? && running && !interrupted)
      ensures old(Ready(daemon)) ==> atStart <= Reloads(daemon)
      ensures old(Ready(daemon)) && p.Idle? && running ==> signals <= Reloads(daemon)
      ensures old(EndsAsleep(daemon)) ==> p.Finished? && interrupted && CaughtAsleep()
      ensures old(IsToEnd(daemon)) ==>
              p.Finished? && interrupted && !over && script == old(script) && children == old(children)
      ensures old(LosesSignal(daemon)) ==>
              p.Idle? && running && !interrupted && old(script)[0].signal in signals
    {
      ghost var first := true;
      var again := true;
      p, interrupted := Finished, false;
      while again
        invariant Valid() && StayEmpty(wraps) && (again ==> Settled())
        invariant !again && p.Finished? && !interrupted ==> !running && children == map[]
        invariant !p.Finished? ==> over
        invariant first ==> again && Resting() && (old(LosesChild()) ==> LosesChild())
        invariant !first && daemon && old(LosesChild()) ==>
                    NoneHasChildren() &&
                      (|old(script)| == 1 ==>
                       if again then running && script == [] else p.Idle? && running && !interrupted)
        invariant old(Ready(daemon)) ==> atStart <= Reloads(daemon) && (again ==> Ready(daemon))
        invariant old(Ready(daemon)) && !again && p.Idle? && running ==> signals <= Reloads(daemon)
        invariant !first && old(EndsAsleep(daemon)) ==> !again && p.Finished? && interrupted && CaughtAsleep()
        invariant !first && old(IsToEnd(daemon)) ==>
                    !again && p.Finished? && interrupted && !over && script == old(script) && children == old(children)
        invariant !first && old(LosesSignal(daemon)) ==>
                    running && !interrupted && old(script)[0].signal in signals &&
                    if again then script == [] else p.Idle?
        decreases again, |script|, !running
      {
        p, interrupted, again := Round(daemon);
        first := false;
        if children == map[] { NoChildren(); }
      }
    }

    /**
     When wait returns there are no children left, whether it was ended by a signal or by a stop elsewhere. A
     wrapper that loses its only child to a reload stays empty for as long as the launcher is waited for.
     Once a signal is met that is to end the launcher, any but the one to reload and for no daemon also that one, the
     start of no further child begins, and the launcher is not found asleep and running again; when its children can
     be sent a signal and exit undisturbed, wait returns. Only where the signal to reload was caught before wait, with
     children there, is another signal lost.
     */
    method Wait(daemon: bool) returns (p: Progress)
      requires Valid() && Settled()
      modifies this`script, this`over, this`running, this`sigcaught, this`handled, this`signals, this`atStart,
        this`clock, this`children, this`heeded, wraps
      ensures Valid() && StayEmpty(wraps)
      ensures p.Finished? ==> !running && children == map[] && forall w: ServiceWrapper | w in wraps :: w.children == {}
      ensures !p.Finished? ==> over
      ensures daemon && old(LosesChild()) ==> NoneHasChildren() && (|old(script)| == 1 ==> p.Idle? && running)
      ensures old(Ready(daemon)) ==> atStart <= Reloads(daemon)
      ensures old(Ready(daemon)) && p.Idle? && running ==> signals <= Reloads(daemon)
      ensures old(EndsAsleep(daemon) && AllEnd(script[2..], children.Keys)) ==> p.Finished? && !over
      ensures old(IsToEnd(daemon) && AllEnd(script, children.Keys)) ==> p.Finished? && !over
      ensures old(LosesSignal(daemon)) ==> p.Idle? && running && old(script)[0].signal in signals
    {
      var interrupted;
      p, interrupted := Rounds(daemon);
      if interrupted {
        var completed := Stop();
        p := if completed then Finished else Cut;
      }
      if p.Finished? {
        NoChildren();
      }
    }

    /** The rate bound holds of the forks of every wrapper, and forktimes are the last workers + 1 of them. */
    lemma ForksAreFew(w: ServiceWrapper, i: nat, k: nat)
      requires Valid() && w in wraps && i <= k < |w.forks|
      ensures Lasts(w.workers, w.forks[k].at - w.forks[i].at, k - i - w.workers - Interruptions(w.forks, i, k))
      ensures w.forktimes == Window(w.forks, w.workers)
    {
      assert w.Valid();
      RateBound(w.forks, w.workers, i, k);
    }

    lemma NoChildren()
      requires Valid() && children == map[]
      ensures forall w: ServiceWrapper | w in wraps :: w.children == {}
    {
      forall w: ServiceWrapper | w in wraps ensures w.children == {} {
        assert forall pid | pid in w.children :: pid in children;
      }
    }
  }

  // A launcher with one worker, whose child was started undisturbed
  method LaunchOne(pid: nat, rest: seq<Tick>) returns (launcher: ProcessLauncher, wrap: ServiceWrapper)
    requires pid != 0
    ensures fresh(launcher) && fresh(wrap) && launcher.Valid() && launcher.running && !launcher.over &&
            launcher.wraps == {wrap}
    ensures wrap.workers == 1 && launcher.children == map[pid := wrap] && launcher.script == rest
    ensures launcher.handled && launcher.Ready(true)
  {
    var script := [Tick(0, 0.0, 0, false), Tick(0, 0.0, pid, false)] + rest;
    launcher := new ProcessLauncher(script, 0.0);
    wrap := new ServiceWrapper(1);
    launcher.wraps := {wrap};
    var started := launcher.StartChild(wrap);
  }

  /**
   A run: one worker is started; it exits, and the signal to reload is caught before it is replaced. The launcher
   goes on respawning, asleep, with an empty wrapper that should have one child.
   */
  method ReloadLosesChild() returns (launcher: ProcessLauncher, wrap: ServiceWrapper, p: Progress)
    ensures p.Idle? && launcher.running && launcher.Valid() && wrap in launcher.wraps
    ensures wrap.workers == 1 && wrap.children == {}
  {
    launcher, wrap := LaunchOne(7, [Tick(SIGHUP, 0.0, 7, false)]);
    p := launcher.Wait(true);
  }

  const SIGTERM: nat := 15

  // A call that meets nothing
  const QUIET := Tick(0, 0.0, 0, false)

  // SIGTERM arrives while the launcher sleeps; it sleeps on, signals its child, and the child exits.
  function TerminatedScript(): (ticks: seq<Tick>)
    ensures |ticks| == 4 && ticks[0] == Tick(SIGTERM, 0.0, 0, false) && ticks[1] == QUIET
    ensures AllEnd(ticks[2..], {7})
  {
    var exits := Tick(0, 0.0, 7, false);
    assert [QUIET, exits][1..] == [exits] && [exits][0].pid == 7;
    assert AllExit([exits], {7}) by { assert {7} - {7 as nat} == {}; }
    assert [Tick(SIGTERM, 0.0, 0, false), QUIET, QUIET, exits][2..] == [QUIET, exits];
    [Tick(SIGTERM, 0.0, 0, false), QUIET, QUIET, exits]
  }

  /** A daemon with one worker is sent SIGTERM: it signals its child, waits for it and returns. */
  method TerminatedDaemonEnds() returns (launcher: ProcessLauncher, wrap: ServiceWrapper, p: Progress)
    ensures p.Finished? && !launcher.running && !launcher.over && launcher.Valid() && wrap in launcher.wraps
    ensures launcher.children == map[] && wrap.children == {} && launcher.atStart <= {SIGHUP}
  {
    var rest := TerminatedScript();
    launcher, wrap := LaunchOne(7, rest);
    assert launcher.children.Keys == {7} && launcher.CatchesAsleep();
    p := launcher.Wait(true);
  }

  // A launcher with one child that has caught the signal to reload before it is waited for
  method ReloadBeforeWait(next: Tick) returns (launcher: ProcessLauncher, wrap: ServiceWrapper)
    ensures fresh(launcher) && fresh(launcher.wraps) && launcher.Valid() && !launcher.over && !launcher.running
    ensures launcher.sigcaught == SIGHUP && |launcher.children| == 1 && launcher.script == [next]
  {
    launcher, wrap := LaunchOne(7, [Tick(SIGHUP, 0.0, 0, false), next]);
    var before := launcher.Next();
    assert launcher.script == [next];
  }

  /** Then SIGTERM comes while wait passes that signal on: the daemon goes on with its child. */
  method TerminationIsLost() returns (launcher: ProcessLauncher, wrap: ServiceWrapper, p: Progress)
    ensures p.Idle? && launcher.running && launcher.Valid() && SIGTERM in launcher.signals
  {
    launcher, wrap := ReloadBeforeWait(Tick(SIGTERM, 0.0, 0, false));
    assert launcher.LosesSignal(true);
    p := launcher.Wait(true);
  }
}
