/**
 Named locks let every thread through: in a run in which no attempt to lock a file fails unexpectedly and no callback
 runs late, each call that can reach its body still can, whatever the others are doing, and it does not end before.
 */
module LockProgress {
  import opened NamedLocks
  import Text

  // --- nobody holds what he has given back ---

  ghost predicate GuardsOk(s: State) {
    forall pid | pid in s.guards :: s.guards[pid].pid == pid && HasGuard(At(s, s.guards[pid]))
  }

  ghost predicate HoldersOk(s: State) {
    forall m | m in s.holders :: HasSemaphore(At(s, s.holders[m])) && At(s, s.holders[m]).sem == m
  }

  // Some thread of the process is inside the lock of the file.
  ghost predicate InsideFile(s: State, path: string, pid: nat) {
    exists u: Thread :: u.pid == pid && InFile(s, u) && At(s, u).req.path == Text.Some(path)
  }

  ghost predicate OwnersOk(s: State) {
    forall path | path in s.owners :: InsideFile(s, path, s.owners[path])
  }

  ghost predicate OpenedOk(s: State) {
    forall t :: At(s, t).Opened? ==> Locks(At(s, t).req)
  }

  // What is held is held by a thread that is where it holds it.
  ghost predicate Held(s: State) {
    GuardsOk(s) && HoldersOk(s) && OwnersOk(s) && OpenedOk(s)
  }

  ghost predicate OthersStay(s: State, after: State, t: Thread) {
    forall u | u != t :: At(after, u) == At(s, u)
  }

  // t is still inside the lock of the file, or its process has given it up.
  predicate StaysOrGivesUp(s: State, after: State, t: Thread) {
    InFile(s, t) ==>
    (InFile(after, t) && At(after, t).req == At(s, t).req) ||
    !(At(s, t).req.path.value in after.owners && after.owners[At(s, t).req.path.value] == t.pid)
  }

  predicate OwnersShrink(s: State, after: State) {
    forall path | path in after.owners :: path in s.owners && after.owners[path] == s.owners[path]
  }

  lemma OwnersAfter(s: State, after: State, t: Thread)
    requires OwnersOk(s) && OthersStay(s, after, t) && StaysOrGivesUp(s, after, t) && OwnersShrink(s, after)
    ensures OwnersOk(after)
  {
    forall path | path in after.owners ensures InsideFile(after, path, after.owners[path]) {
      var u: Thread :| u.pid == s.owners[path] && InFile(s, u) && At(s, u).req.path == Text.Some(path);
      assert InFile(after, u) && At(after, u).req.path == Text.Some(path);
    }
  }

  lemma GuardsAfter(s: State, after: State, t: Thread)
    requires GuardsOk(s) && OthersStay(s, after, t) && after.guards == s.guards
    requires HasGuard(At(s, t)) ==> HasGuard(At(after, t))
    ensures GuardsOk(after)
  {
  }

  lemma HoldersAfter(s: State, after: State, t: Thread)
    requires HoldersOk(s) && OthersStay(s, after, t) && after.holders == s.holders
    requires HasSemaphore(At(s, t)) ==> HasSemaphore(At(after, t)) && At(after, t).sem == At(s, t).sem
    ensures HoldersOk(after)
  {
  }

  // A step of t by which it neither takes nor drops the guard or the semaphore, and takes no file
  ghost predicate Moved(s: State, after: State, t: Thread) {
    && OthersStay(s, after, t) && after.guards == s.guards && after.holders == s.holders && OwnersShrink(s, after)
    && (HasGuard(At(s, t)) ==> HasGuard(At(after, t)))
    && (HasSemaphore(At(s, t)) ==> HasSemaphore(At(after, t)) && At(after, t).sem == At(s, t).sem)
    && StaysOrGivesUp(s, after, t)
    && (At(after, t).Opened? ==> Locks(At(after, t).req))
  }

  lemma MovedIsHeld(s: State, after: State, t: Thread)
    requires Held(s) && Moved(s, after, t)
    ensures Held(after)
  {
    GuardsAfter(s, after, t);
    HoldersAfter(s, after, t);
    OwnersAfter(s, after, t);
  }

  lemma CallMoves(s: State, t: Thread, req: Request)
    requires OpenedOk(s)
    ensures Moved(s, Apply(s, Call(t, req)), t)
  {
  }

  lemma LookUpMoves(s: State, t: Thread)
    requires OpenedOk(s)
    ensures Moved(s, Apply(s, LookUp(t)), t)
  {
  }

  lemma StoreMoves(s: State, t: Thread)
    requires OpenedOk(s)
    ensures Moved(s, Apply(s, Store(t)), t)
  {
  }

  lemma EnterMoves(s: State, t: Thread)
    requires OpenedOk(s)
    ensures Moved(s, Apply(s, Enter(t)), t)
  {
  }

  lemma OpenMoves(s: State, t: Thread)
    requires OpenedOk(s)
    ensures Moved(s, Apply(s, Open(t)), t)
  {
  }

  lemma LeaveMoves(s: State, t: Thread)
    requires OpenedOk(s)
    ensures Moved(s, Apply(s, Leave(t)), t)
  {
  }

  lemma CloseMoves(s: State, t: Thread)
    requires OpenedOk(s)
    ensures Moved(s, Apply(s, Close(t)), t)
  {
  }

  lemma CollectMoves(s: State, pid: nat, name: string, t: Thread)
    requires OpenedOk(s)
    ensures Moved(s, Apply(s, Collect(pid, name)), t)
  {
  }

  // --- taking and dropping ---

  lemma TakeGuardHolds(s: State, t: Thread)
    requires Held(s)
    ensures Held(Apply(s, TakeGuard(t)))
  {
    var pc, after := At(s, t), Apply(s, TakeGuard(t));
    if pc.AtGuard? && t.pid !in s.guards {
      GuardTakenBy(s, t, pc.req);
      HoldersAfter(s, after, t);
      OwnersAfter(s, after, t);
    }
  }

  lemma GuardDropped(s: State, t: Thread)
    requires At(s, t).Found?
    ensures Apply(s, DropGuard(t)) ==
            s.(pcs := s.pcs[t := AtSemaphore(At(s, t).req, At(s, t).sem)], guards := s.guards - {t.pid})
  {
  }

  lemma DropGuardHolds(s: State, t: Thread)
    requires Held(s)
    ensures Held(Apply(s, DropGuard(t)))
  {
    var pc, after := At(s, t), Apply(s, DropGuard(t));
    if pc.Found? {
      GuardDropped(s, t);
      HoldersAfter(s, after, t);
      OwnersAfter(s, after, t);
    }
  }

  lemma AcquireHolds(s: State, t: Thread)
    requires Held(s)
    ensures Held(Apply(s, Acquire(t)))
  {
    var pc, after := At(s, t), Apply(s, Acquire(t));
    if pc.AtSemaphore? && pc.sem !in s.holders {
      SemaphoreAcquired(s, t, pc.req, pc.sem);
      GuardsAfter(s, after, t);
      OwnersAfter(s, after, t);
    }
  }

  lemma ReleaseHolds(s: State, t: Thread)
    requires Held(s)
    ensures Held(Apply(s, Release(t)))
  {
    var pc, after := At(s, t), Apply(s, Release(t));
    if pc.Leaving? {
      SemaphoreReleased(s, t, pc.req, pc.sem);
      GuardsAfter(s, after, t);
      OwnersAfter(s, after, t);
    }
  }

  lemma OwnerIsInside(s: State, after: State, t: Thread, path: string)
    requires OwnersOk(s) && OthersStay(s, after, t) && !InFile(s, t)
    requires InFile(after, t) && At(after, t).req.path == Text.Some(path)
    requires after.owners == s.owners[path := t.pid]
    ensures OwnersOk(after)
  {
    forall p | p in after.owners ensures InsideFile(after, p, after.owners[p]) {
      if p == path {
        assert t.pid == after.owners[p];
      } else {
        var u: Thread :| u.pid == s.owners[p] && InFile(s, u) && At(s, u).req.path == Text.Some(p);
        assert InFile(after, u) && At(after, u).req.path == Text.Some(p);
      }
    }
  }

  lemma TryLockHolds(s: State, t: Thread)
    requires Held(s)
    ensures Held(Apply(s, TryLock(t)))
  {
    var pc, after := At(s, t), Apply(s, TryLock(t));
    if pc.Opened? && (pc.req.path.value in s.owners ==> s.owners[pc.req.path.value] == t.pid) {
      FileLocked(s, t, pc.req, pc.sem);
      assert OthersStay(s, after, t) && At(after, t) == Inside(pc.req, pc.sem);
      GuardsAfter(s, after, t);
      HoldersAfter(s, after, t);
      OwnerIsInside(s, after, t, pc.req.path.value);
    }
  }

  lemma CrashHolds(s: State, pid: nat)
    requires Held(s)
    ensures Held(Apply(s, Crash(pid)))
  {
    var after := Apply(s, Crash(pid));
    assert forall t: Thread | t.pid != pid :: At(after, t) == At(s, t);
    forall path | path in after.owners ensures InsideFile(after, path, after.owners[path]) {
      var u: Thread :| u.pid == s.owners[path] && InFile(s, u) && At(s, u).req.path == Text.Some(path);
      assert InFile(after, u) && At(after, u).req.path == Text.Some(path);
    }
  }

  // --- every state of a run without mishaps is sound ---

  ghost predicate Sound(s: State) {
    AllOk(s) && s.pending == {} && s.leaked == {} && Held(s)
  }

  lemma StepHolds(s: State, e: Event)
    requires Held(s) && s.pending == {} && s.leaked == {} && !e.TryFails? && !e.Die?
    ensures Held(Apply(s, e))
  {
    match e
    case Call(t, req) => CallMoves(s, t, req); MovedIsHeld(s, Apply(s, e), t);
    case TakeGuard(t) => TakeGuardHolds(s, t);
    case LookUp(t) => LookUpMoves(s, t); MovedIsHeld(s, Apply(s, e), t);
    case Store(t) => StoreMoves(s, t); MovedIsHeld(s, Apply(s, e), t);
    case DropGuard(t) => DropGuardHolds(s, t);
    case Acquire(t) => AcquireHolds(s, t);
    case Enter(t) => EnterMoves(s, t); MovedIsHeld(s, Apply(s, e), t);
    case Open(t) => OpenMoves(s, t); MovedIsHeld(s, Apply(s, e), t);
    case TryLock(t) => TryLockHolds(s, t);
    case Leave(t) => LeaveMoves(s, t); MovedIsHeld(s, Apply(s, e), t);
    case Close(t) => CloseMoves(s, t); MovedIsHeld(s, Apply(s, e), t);
    case Release(t) => ReleaseHolds(s, t);
    case Collect(pid, name) => CollectMoves(s, pid, name, Thread(0, 0)); MovedIsHeld(s, Apply(s, e), Thread(0, 0));
    case Forget(pid, name) => assert Apply(s, e) == s;
    case CloseLeaked(pid, path) => assert Apply(s, e) == s;
    case Crash(pid) => CrashHolds(s, pid);
  }

  lemma StepKeepsSound(s: State, e: Event)
    requires Sound(s) && !e.TryFails? && !e.Die?
    ensures Sound(Apply(s, e))
  {
    StepKeepsOk(s, e);
    NothingPending(s, e);
    NothingLeaks(s, e);
    StepHolds(s, e);
  }

  lemma {:induction false} RunIsSound(reqs: iset<Request>, events: seq<Event>)
    requires Run(reqs, Mishaps(false, false), events)
    ensures Sound(After(events))
  {
    if events != [] {
      var before, e := events[..|events| - 1], events[|events| - 1];
      assert e in events && forall d | d in before :: d in events;
      RunIsSound(reqs, before);
      StepKeepsSound(After(before), e);
    }
  }

  // --- continuations ---

  // A step of a thread inside its call: no new call, no crash, nothing that goes wrong
  predicate IsStep(e: Event) {
    e.TakeGuard? || e.LookUp? || e.Store? || e.DropGuard? || e.Acquire? || e.Enter? || e.Open? || e.TryLock? ||
    e.Leave? || e.Close? || e.Release?
  }

  predicate AllSteps(events: seq<Event>) {
    forall e | e in events :: IsStep(e)
  }

  function Then(s: State, events: seq<Event>): State {
    if events == [] then s else Apply(Then(s, events[..|events| - 1]), events[|events| - 1])
  }

  lemma {:induction false} ThenAfter(events: seq<Event>, more: seq<Event>)
    ensures After(events + more) == Then(After(events), more)
  {
    if more == [] {
      assert events + more == events;
    } else {
      var before, all := more[..|more| - 1], events + more;
      assert all[..|all| - 1] == events + before && all[|all| - 1] == more[|more| - 1];
      ThenAfter(events, before);
    }
  }

  lemma {:induction false} ThenThen(s: State, first: seq<Event>, second: seq<Event>)
    ensures Then(s, first + second) == Then(Then(s, first), second)
  {
    if second == [] {
      assert first + second == first;
    } else {
      var before, all := second[..|second| - 1], first + second;
      assert all[..|all| - 1] == first + before && all[|all| - 1] == second[|second| - 1];
      ThenThen(s, first, before);
    }
  }

  ghost predicate Leads(s: State, after: State) {
    exists events :: AllSteps(events) && Then(s, events) == after
  }

  lemma LeadsNowhere(s: State)
    ensures Leads(s, s)
  {
    assert AllSteps([]) && Then(s, []) == s;
  }

  lemma LeadsOn(s: State, between: State, after: State)
    requires Leads(s, between) && Leads(between, after)
    ensures Leads(s, after)
  {
    var first :| AllSteps(first) && Then(s, first) == between;
    var second :| AllSteps(second) && Then(between, second) == after;
    ThenThen(s, first, second);
    assert AllSteps(first + second);
  }

  lemma StepLeads(s: State, e: Event)
    requires Sound(s) && IsStep(e)
    ensures Leads(s, Apply(s, e)) && Sound(Apply(s, e))
  {
    assert AllSteps([e]) && Then(s, []) == s;
    assert [e][..0] == [];
    assert Then(s, [e]) == Apply(s, e);
    StepKeepsSound(s, e);
  }

  lemma AndStep(s: State, between: State, e: Event)
    requires Leads(s, between) && Sound(between) && IsStep(e)
    ensures Leads(s, Apply(between, e)) && Sound(Apply(between, e))
  {
    StepLeads(between, e);
    LeadsOn(s, between, Apply(between, e));
  }

  // --- the guard ---

  lemma LookedUp(s: State, t: Thread)
    requires At(s, t).Guarded?
    ensures var pc := At(Apply(s, LookUp(t)), t); (pc.Found? || pc.Created?) && pc.req == At(s, t).req
    ensures OthersStay(s, Apply(s, LookUp(t)), t)
  {
  }

  lemma StoredEntry(s: State, t: Thread)
    requires At(s, t).Created?
    ensures At(Apply(s, Store(t)), t) == Found(At(s, t).req, At(s, t).sem)
    ensures OthersStay(s, Apply(s, Store(t)), t)
  {
  }

  // Whoever has the guard drops it, without waiting for anybody.
  lemma GuardIsDropped(s: State, t: Thread) returns (after: State)
    requires Sound(s) && HasGuard(At(s, t))
    ensures Leads(s, after) && Sound(after) && OthersStay(s, after, t) && t.pid !in after.guards
    ensures At(after, t).AtSemaphore? && At(after, t).req == At(s, t).req
  {
    after := s;
    LeadsNowhere(s);
    if At(after, t).Guarded? {
      LookedUp(after, t);
      AndStep(s, after, LookUp(t));
      after := Apply(after, LookUp(t));
    }
    if At(after, t).Created? {
      StoredEntry(after, t);
      AndStep(s, after, Store(t));
      after := Apply(after, Store(t));
    }
    GuardDropped(after, t);
    AndStep(s, after, DropGuard(t));
    after := Apply(after, DropGuard(t));
  }

  // A call gets to the semaphore of its name.
  lemma ReachesSemaphore(s: State, t: Thread) returns (after: State)
    requires Sound(s) && (At(s, t).AtGuard? || HasGuard(At(s, t)))
    ensures Leads(s, after) && Sound(after) && At(after, t).AtSemaphore? && At(after, t).req == At(s, t).req
  {
    after := s;
    LeadsNowhere(s);
    if At(s, t).AtGuard? {
      if t.pid in s.guards {
        after := GuardIsDropped(s, s.guards[t.pid]);
      }
      GuardTakenBy(after, t, At(s, t).req);
      AndStep(s, after, TakeGuard(t));
      after := Apply(after, TakeGuard(t));
    }
    var guarded := after;
    after := GuardIsDropped(guarded, t);
    LeadsOn(s, guarded, after);
  }

  // --- the body, and out of it ---

  ghost predicate WaitersStay(s: State, after: State) {
    forall u | At(s, u).AtSemaphore? :: At(after, u) == At(s, u)
  }

  // One that waits for a file, or for nothing
  predicate BeforeBody(pc: Pc) {
    pc.Holding? || pc.Opened?
  }

  lemma EnteredPlain(s: State, t: Thread)
    requires At(s, t).Holding? && !At(s, t).req.external
    ensures At(Apply(s, Enter(t)), t) == Inside(At(s, t).req, At(s, t).sem) && OthersStay(s, Apply(s, Enter(t)), t)
  {
  }

  lemma OpenedLock(s: State, t: Thread)
    requires At(s, t).Holding? && At(s, t).req.external
    ensures At(Apply(s, Open(t)), t) ==
            if Enters(At(s, t).req) then Opened(At(s, t).req, At(s, t).sem) else Leaving(At(s, t).req, At(s, t).sem)
    ensures OthersStay(s, Apply(s, Open(t)), t)
  {
  }

  lemma LeftBody(s: State, t: Thread)
    requires At(s, t).Inside?
    ensures At(Apply(s, Leave(t)), t) ==
            if Locks(At(s, t).req) then Unlocked(At(s, t).req, At(s, t).sem) else Leaving(At(s, t).req, At(s, t).sem)
    ensures OthersStay(s, Apply(s, Leave(t)), t)
    ensures Locks(At(s, t).req) && Owns(s, t) ==> At(s, t).req.path.value !in Apply(s, Leave(t)).owners
  {
  }

  predicate Owns(s: State, t: Thread) {
    var pc := At(s, t);
    pc.Inside? && Locks(pc.req) && pc.req.path.value in s.owners && s.owners[pc.req.path.value] == t.pid
  }

  lemma ClosedFile(s: State, t: Thread)
    requires At(s, t).Unlocked? && Locks(At(s, t).req)
    ensures At(Apply(s, Close(t)), t) == Leaving(At(s, t).req, At(s, t).sem) && OthersStay(s, Apply(s, Close(t)), t)
  {
  }

  // The thread of another process that has the file leaves it.
  lemma FileIsFreed(s: State, t: Thread) returns (after: State)
    requires Sound(s) && At(s, t).Opened? && Locks(At(s, t).req)
    ensures Leads(s, after) && Sound(after) && WaitersStay(s, after) && At(after, t) == At(s, t)
    ensures var path := At(s, t).req.path.value; path in after.owners ==> after.owners[path] == t.pid
  {
    after := s;
    LeadsNowhere(s);
    var path := At(s, t).req.path.value;
    if path in s.owners && s.owners[path] != t.pid {
      var u: Thread :| u.pid == s.owners[path] && InFile(s, u) && At(s, u).req.path == Text.Some(path);
      LeftBody(s, u);
      AndStep(s, s, Leave(u));
      after := Apply(s, Leave(u));
    }
  }

  lemma GetsFile(s: State, t: Thread) returns (after: State)
    requires Sound(s) && At(s, t).Opened?
    ensures Leads(s, after) && Sound(after) && WaitersStay(s, after)
    ensures At(after, t) == Inside(At(s, t).req, At(s, t).sem)
  {
    after := FileIsFreed(s, t);
    FileLocked(after, t, At(s, t).req, At(s, t).sem);
    AndStep(s, after, TryLock(t));
    after := Apply(after, TryLock(t));
  }

  // With the semaphore a thread gets to its body.
  lemma ReachesBody(s: State, t: Thread) returns (after: State)
    requires Sound(s) && BeforeBody(At(s, t)) && Enters(At(s, t).req)
    ensures Leads(s, after) && Sound(after) && WaitersStay(s, after)
    ensures At(after, t) == Inside(At(s, t).req, At(s, t).sem)
  {
    LeadsNowhere(s);
    if At(s, t).Opened? {
      after := GetsFile(s, t);
    } else if At(s, t).req.external {
      OpenedLock(s, t);
      AndStep(s, s, Open(t));
      var between := Apply(s, Open(t));
      after := GetsFile(between, t);
      LeadsOn(s, between, after);
    } else {
      EnteredPlain(s, t);
      AndStep(s, s, Enter(t));
      after := Apply(s, Enter(t));
    }
  }

  // A thread at the end of its call releases the semaphore.
  lemma EndReleases(s: State, t: Thread) returns (after: State)
    requires Sound(s) && (At(s, t).Inside? || At(s, t).Unlocked? || At(s, t).Leaving?)
    ensures Leads(s, after) && Sound(after) && WaitersStay(s, after)
    ensures At(s, t).sem !in after.holders
  {
    after := s;
    LeadsNowhere(s);
    if At(after, t).Inside? {
      LeftBody(after, t);
      AndStep(s, after, Leave(t));
      after := Apply(after, Leave(t));
    }
    if At(after, t).Unlocked? {
      assert ThreadOk(after, t);
      ClosedFile(after, t);
      AndStep(s, after, Close(t));
      after := Apply(after, Close(t));
    }
    SemaphoreReleased(after, t, At(after, t).req, At(after, t).sem);
    AndStep(s, after, Release(t));
    after := Apply(after, Release(t));
  }

  // Whoever holds a semaphore releases it.
  lemma SemaphoreIsReleased(s: State, t: Thread) returns (after: State)
    requires Sound(s) && HasSemaphore(At(s, t))
    ensures Leads(s, after) && Sound(after) && WaitersStay(s, after)
    ensures At(s, t).sem !in after.holders
  {
    var between := s;
    LeadsNowhere(s);
    if BeforeBody(At(s, t)) {
      if Enters(At(s, t).req) {
        between := ReachesBody(s, t);
      } else {
        assert At(s, t).Holding?;
        OpenedLock(s, t);
        AndStep(s, s, Open(t));
        between := Apply(s, Open(t));
      }
    }
    after := EndReleases(between, t);
    LeadsOn(s, between, after);
  }

  lemma TakesSemaphore(s: State, t: Thread) returns (after: State)
    requires Sound(s) && At(s, t).AtSemaphore?
    ensures Leads(s, after) && Sound(after) && At(after, t) == Holding(At(s, t).req, At(s, t).sem)
  {
    after := s;
    LeadsNowhere(s);
    var sem := At(s, t).sem;
    if sem in s.holders {
      after := SemaphoreIsReleased(s, s.holders[sem]);
    }
    SemaphoreAcquired(after, t, At(s, t).req, sem);
    AndStep(s, after, Acquire(t));
    after := Apply(after, Acquire(t));
  }

  // --- progress ---

  // Somewhere in a call, not yet behind the body
  predicate OnTheWay(pc: Pc) {
    !pc.Idle? && !pc.Unlocked? && !pc.Leaving?
  }

  lemma GoesOn(s: State, t: Thread) returns (after: State)
    requires Sound(s) && OnTheWay(At(s, t)) && Enters(At(s, t).req)
    ensures Leads(s, after) && InBody(after, t) && At(after, t).req == At(s, t).req
  {
    after := s;
    LeadsNowhere(s);
    if At(s, t).AtGuard? || HasGuard(At(s, t)) {
      after := ReachesSemaphore(s, t);
    }
    if At(after, t).AtSemaphore? {
      var between := after;
      after := TakesSemaphore(between, t);
      LeadsOn(s, between, after);
    }
    if BeforeBody(At(after, t)) {
      var between := after;
      after := ReachesBody(between, t);
      LeadsOn(s, between, after);
    }
  }

  ghost predicate CanGoOn(reqs: iset<Request>, events: seq<Event>, t: Thread, req: Request) {
    exists more :: GoesInside(reqs, events, more, t, req)
  }

  ghost predicate GoesInside(reqs: iset<Request>, events: seq<Event>, more: seq<Event>, t: Thread, req: Request) {
    AllSteps(more) && Run(reqs, Mishaps(false, false), events + more) && InBody(After(events + more), t) &&
    At(After(events + more), t).req == req
  }

  /**
   No call is stuck: from every state of a run without mishaps, crashes of processes included, a call whose request gets
   to a body and that has not been there has a continuation that takes it there, in which no process crashes and nobody
   calls anew.
   */
  lemma Progress(reqs: iset<Request>, events: seq<Event>, t: Thread)
    requires Run(reqs, Mishaps(false, false), events)
    requires OnTheWay(At(After(events), t)) && Enters(At(After(events), t).req)
    ensures CanGoOn(reqs, events, t, At(After(events), t).req)
  {
    RunIsSound(reqs, events);
    var after := GoesOn(After(events), t);
    var more :| AllSteps(more) && Then(After(events), more) == after;
    ThenAfter(events, more);
    assert forall e | e in more :: IsStep(e);
    assert GoesInside(reqs, events, more, t, At(After(events), t).req);
  }

  // --- how a call ends ---

  // t stays in its call, or this step is its end.
  predicate StaysOrEnds(s: State, e: Event, t: Thread) {
    At(Apply(s, e), t).Idle? ==> At(s, t).Idle? || (e == Release(t) && At(s, t).Leaving?) || e == Crash(t.pid)
  }

  lemma FrontStaysInCall(s: State, e: Event, t: Thread)
    requires e.Call? || e.TakeGuard? || e.LookUp? || e.Store? || e.DropGuard? || e.Acquire? || e.Release?
    ensures StaysOrEnds(s, e, t)
  {
  }

  lemma FileStaysInCall(s: State, e: Event, t: Thread)
    requires e.Enter? || e.Open? || e.TryLock? || e.TryFails? || e.Leave? || e.Close? || e.CloseLeaked?
    ensures StaysOrEnds(s, e, t)
  {
  }

  /** A call ends only by giving back the semaphore, or with its process. */
  lemma EndsByRelease(s: State, e: Event, t: Thread)
    ensures StaysOrEnds(s, e, t)
  {
    if e.Call? || e.TakeGuard? || e.LookUp? || e.Store? || e.DropGuard? || e.Acquire? || e.Release? {
      FrontStaysInCall(s, e, t);
    } else if e.Crash? || e.Collect? || e.Die? || e.Forget? {
      assert At(Apply(s, e), t) == At(s, t) || e == Crash(t.pid);
    } else {
      FileStaysInCall(s, e, t);
    }
  }

  predicate BehindBody(pc: Pc) {
    pc.Unlocked? || pc.Leaving?
  }

  // t was behind its body before, or in it, or has none to get to.
  predicate CameBehind(s: State, e: Event, t: Thread) {
    var pc, was := At(Apply(s, e), t), At(s, t);
    BehindBody(pc) && Enters(pc.req) ==> (BehindBody(was) || was.Inside?) && was.req == pc.req
  }

  lemma FrontCameBehind(s: State, e: Event, t: Thread)
    requires e.Call? || e.TakeGuard? || e.LookUp? || e.Store? || e.DropGuard? || e.Acquire? || e.Release?
    ensures CameBehind(s, e, t)
  {
  }

  lemma FileCameBehind(s: State, e: Event, t: Thread)
    requires e.Enter? || e.Open? || e.TryLock? || e.Leave? || e.Close? || e.CloseLeaked?
    ensures CameBehind(s, e, t)
  {
  }

  lemma StepCameBehind(s: State, e: Event, t: Thread)
    requires !e.TryFails?
    ensures CameBehind(s, e, t)
  {
    if e.Call? || e.TakeGuard? || e.LookUp? || e.Store? || e.DropGuard? || e.Acquire? || e.Release? {
      FrontCameBehind(s, e, t);
    } else if e.Crash? || e.Collect? || e.Die? || e.Forget? {
      assert At(Apply(s, e), t) == At(s, t) || At(Apply(s, e), t).Idle?;
    } else {
      FileCameBehind(s, e, t);
    }
  }

  // Before the last event t was in the body of this call, or behind it and had been there.
  predicate WasInBody(events: seq<Event>, t: Thread, req: Request) {
    events != [] &&
    var before := events[..|events| - 1];
    At(After(before), t) != Idle && At(After(before), t).req == req &&
    (InBody(After(before), t) || (BehindBody(At(After(before), t)) && WasInBody(before, t, req)))
  }

  /** Without failing attempts no call whose request gets to a body comes to its end without having been there. */
  lemma {:induction false} BodyBeforeEnd(reqs: iset<Request>, m: Mishaps, events: seq<Event>, t: Thread)
    requires Run(reqs, m, events) && !m.failing
    requires BehindBody(At(After(events), t)) && Enters(At(After(events), t).req)
    ensures WasInBody(events, t, At(After(events), t).req)
  {
    var before, e := events[..|events| - 1], events[|events| - 1];
    assert e in events && forall d | d in before :: d in events;
    StepCameBehind(After(before), e, t);
    if BehindBody(At(After(before), t)) {
      BodyBeforeEnd(reqs, m, before, t);
    }
  }
}
