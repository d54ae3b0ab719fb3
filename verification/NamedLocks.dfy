/**
 Named locks: a weak dictionary of semaphores in each process, guarded by a plain lock, and around it a
 file lock that belongs to a whole process. Threads of many processes interleave in single steps; entries
 are collected when nothing refers to their semaphore, either at once or by a callback that deletes the key later; a
 process may crash at any point.
 */
module NamedLocks {
  import opened Text

  datatype Thread = Thread(pid: nat, id: nat)

  // A call of lock(name, ...). external already says that process locking is not disabled by configuration.
  datatype Request = Request(name: string, external: bool, path: Option<string>)

  datatype Pc =
    | Idle
    | AtGuard(req: Request)                 // waiting for _semaphores_lock
    | Guarded(req: Request)                 // holding it
    | Created(req: Request, sem: nat)       // a new semaphore, not stored yet
    | Found(req: Request, sem: nat)         // the semaphore of the dictionary, guard still held
    | AtSemaphore(req: Request, sem: nat)
    | Holding(req: Request, sem: nat)       // semaphore acquired
    | Opened(req: Request, sem: nat)        // lock file open, trying to lock it
    | Inside(req: Request, sem: nat)        // the body of the with statement
    | Unlocked(req: Request, sem: nat)      // file unlocked, not closed yet
    | Leaving(req: Request, sem: nat)       // about to release the semaphore

  datatype State = State(
    pcs: map<Thread, Pc>,
    semaphores: map<(nat, string), nat>,    // the weak dictionaries, by process and name
    guards: map<nat, Thread>,               // who holds _semaphores_lock in a process
    holders: map<nat, Thread>,              // who holds a semaphore
    owners: map<string, nat>,               // the process that has a file locked
    leaked: set<(nat, string)>,             // open lock files a failed attempt left behind
    pending: set<(nat, string)>,            // keys of dead entries whose callback is still to run
    made: nat)              // semaphores made so far

  const INIT := State(map[], map[], map[], map[], map[], {}, {}, 0)

  function At(s: State, t: Thread): Pc {
    if t in s.pcs then s.pcs[t] else Idle
  }

  // The request takes the file lock as well.
  predicate Locks(r: Request) {
    r.external && r.path.Some?
  }

  datatype Event =
    | Call(t: Thread, req: Request)
    | TakeGuard(t: Thread)
    | LookUp(t: Thread)
    | Store(t: Thread)
    | DropGuard(t: Thread)
    | Acquire(t: Thread)
    | Enter(t: Thread)          // not external: straight to the body
    | Open(t: Thread)           // open(self.fname, 'w'); without a lock path the call raises
    | TryLock(t: Thread)        // stays where it is when another process has the file
    | TryFails(t: Thread)       // an errno other than EACCES and EAGAIN: ThreadError, the file is left open
    | Leave(t: Thread)          // the body ends; an external lock unlocks its file
    | Close(t: Thread)
    | Release(t: Thread)
    | Collect(pid: nat, name: string)   // the entry is removed as its semaphore dies
    | Die(pid: nat, name: string)       // its semaphore dies: the entry counts as missing, the callback is to come
    | Forget(pid: nat, name: string)    // the callback deletes whatever the key stands for by now
    | CloseLeaked(pid: nat, path: string)
    | Crash(pid: nat)

  function Move(s: State, t: Thread, pc: Pc): State {
    s.(pcs := s.pcs[t := pc])
  }

  // A process gives up its lock on a file, by unlocking it or by closing any descriptor of it.
  function GiveUp(s: State, pid: nat, path: string): State {
    if path in s.owners && s.owners[path] == pid then s.(owners := s.owners - {path}) else s
  }

  predicate Refers(pc: Pc, sem: nat) {
    !pc.Idle? && !pc.AtGuard? && !pc.Guarded? && pc.sem == sem
  }

  // One step; a step that is not possible changes nothing.
  function Apply(s: State, e: Event): State {
    match e
    case Call(t, req) => if At(s, t).Idle? then Move(s, t, AtGuard(req)) else s
    case TakeGuard(t) =>
      var pc := At(s, t);
      if pc.AtGuard? && t.pid !in s.guards then Move(s, t, Guarded(pc.req)).(guards := s.guards[t.pid := t]) else s
    case LookUp(t) =>
      var pc := At(s, t);
      if !pc.Guarded? then s
      else if (t.pid, pc.req.name) in s.semaphores then Move(s, t, Found(pc.req, s.semaphores[(t.pid, pc.req.name)]))
      else Move(s, t, Created(pc.req, s.made)).(made := s.made + 1)
    case Store(t) =>
      var pc := At(s, t);
      if pc.Created?
      then Move(s, t, Found(pc.req, pc.sem)).(semaphores := s.semaphores[(t.pid, pc.req.name) := pc.sem])
      else s
    case DropGuard(t) =>
      var pc := At(s, t);
      if pc.Found? then Move(s, t, AtSemaphore(pc.req, pc.sem)).(guards := s.guards - {t.pid}) else s
    case Acquire(t) =>
      var pc := At(s, t);
      if pc.AtSemaphore? && pc.sem !in s.holders
      then Move(s, t, Holding(pc.req, pc.sem)).(holders := s.holders[pc.sem := t])
      else s
    case Enter(t) =>
      var pc := At(s, t);
      if pc.Holding? && !pc.req.external then Move(s, t, Inside(pc.req, pc.sem)) else s
    case Open(t) =>
      var pc := At(s, t);
      if !pc.Holding? || !pc.req.external then s
      else if pc.req.path.None? then Move(s, t, Leaving(pc.req, pc.sem))
      else Move(s, t, Opened(pc.req, pc.sem))
    case TryLock(t) =>
      var pc := At(s, t);
      if pc.Opened? && pc.req.path.Some? && (pc.req.path.value in s.owners ==> s.owners[pc.req.path.value] == t.pid)
      then Move(s, t, Inside(pc.req, pc.sem)).(owners := s.owners[pc.req.path.value := t.pid])
      else s
    case TryFails(t) =>
      var pc := At(s, t);
      if pc.Opened? && pc.req.path.Some?
      then Move(s, t, Leaving(pc.req, pc.sem)).(leaked := s.leaked + {(t.pid, pc.req.path.value)})
      else s
    case Leave(t) =>
      var pc := At(s, t);
      if !pc.Inside? then s
      else if Locks(pc.req) then GiveUp(Move(s, t, Unlocked(pc.req, pc.sem)), t.pid, pc.req.path.value)
      else Move(s, t, Leaving(pc.req, pc.sem))
    case Close(t) =>
      var pc := At(s, t);
      if pc.Unlocked? && Locks(pc.req)
      then GiveUp(Move(s, t, Leaving(pc.req, pc.sem)), t.pid, pc.req.path.value)
      else s
    case Release(t) =>
      var pc := At(s, t);
      if pc.Leaving? then Move(s, t, Idle).(holders := s.holders - {pc.sem}) else s
    case Collect(pid, name) =>
      if (pid, name) in s.semaphores && Unreferenced(s, pid, s.semaphores[(pid, name)])
      then s.(semaphores := s.semaphores - {(pid, name)})
      else s
    case Die(pid, name) =>
      if (pid, name) in s.semaphores && Unreferenced(s, pid, s.semaphores[(pid, name)])
      then s.(semaphores := s.semaphores - {(pid, name)}, pending := s.pending + {(pid, name)})
      else s
    case Forget(pid, name) =>
      if (pid, name) in s.pending
      then s.(semaphores := s.semaphores - {(pid, name)}, pending := s.pending - {(pid, name)})
      else s
    case CloseLeaked(pid, path) =>
      if (pid, path) in s.leaked then GiveUp(s.(leaked := s.leaked - {(pid, path)}), pid, path) else s
    case Crash(pid) =>
      State(map t | t in s.pcs && t.pid != pid :: s.pcs[t],
            map k | k in s.semaphores && k.0 != pid :: s.semaphores[k],
            s.guards - {pid},
            map m | m in s.holders && s.holders[m].pid != pid :: s.holders[m],
            map p | p in s.owners && s.owners[p] != pid :: s.owners[p],
            (set f | f in s.leaked && f.0 != pid),
            (set f | f in s.pending && f.0 != pid),
            s.made)
  }

  predicate Unreferenced(s: State, pid: nat, sem: nat) {
    forall t | t in s.pcs && t.pid == pid :: !Refers(s.pcs[t], sem)
  }

  function After(events: seq<Event>): State {
    if events == [] then INIT else Apply(After(events[..|events| - 1]), events[|events| - 1])
  }

  // What may happen: attempts to lock a file that fail, and callbacks that run late
  datatype Mishaps = Mishaps(failing: bool, late: bool)

  // Calls make one of the given requests.
  ghost predicate Allowed(reqs: iset<Request>, m: Mishaps, e: Event) {
    (e.Call? ==> e.req in reqs) && (e.TryFails? ==> m.failing) && (e.Die? ==> m.late)
  }

  ghost predicate Run(reqs: iset<Request>, m: Mishaps, events: seq<Event>) {
    forall e | e in events :: Allowed(reqs, m, e)
  }

  // --- what is to be kept ---

  predicate InBody(s: State, t: Thread) {
    At(s, t).Inside?
  }

  // At most one thread of a process is inside a name.
  ghost predicate OneInProcess(s: State) {
    forall t, u | InBody(s, t) && InBody(s, u) && t.pid == u.pid && At(s, t).req.name == At(s, u).req.name :: t == u
  }

  predicate InFile(s: State, t: Thread) {
    At(s, t).Inside? && Locks(At(s, t).req)
  }

  // At most one thread of any process is inside the external lock of a path.
  ghost predicate OneAnywhere(s: State) {
    forall t, u | InFile(s, t) && InFile(s, u) && At(s, t).req.path == At(s, u).req.path :: t == u
  }

  // Requests for the same lock file are for the same name.
  ghost predicate PathsSeparate(reqs: iset<Request>) {
    forall q, r | q in reqs && r in reqs && Locks(q) && Locks(r) && q.path == r.path :: q.name == r.name
  }

  // --- the invariant ---

  predicate HasGuard(pc: Pc) {
    pc.Guarded? || pc.Created? || pc.Found?
  }

  predicate HasEntry(pc: Pc) {
    pc.Found? || pc.AtSemaphore? || HasSemaphore(pc)
  }

  predicate HasSemaphore(pc: Pc) {
    pc.Holding? || pc.Opened? || pc.Inside? || pc.Unlocked? || pc.Leaving?
  }

  predicate ThreadOk(s: State, t: Thread) {
    var pc := At(s, t);
    && (HasGuard(pc) ==> t.pid in s.guards && s.guards[t.pid] == t)
    && (pc.Created? ==> (t.pid, pc.req.name) !in s.semaphores)
    && (HasEntry(pc) ==> (t.pid, pc.req.name) in s.semaphores && s.semaphores[(t.pid, pc.req.name)] == pc.sem)
    && (HasSemaphore(pc) ==> pc.sem in s.holders && s.holders[pc.sem] == t)
    && (pc.Unlocked? ==> Locks(pc.req))
  }

  ghost predicate AllOk(s: State) {
    forall t :: ThreadOk(s, t)
  }

  // All threads that reached the semaphore of a name in a process hold the same one.
  lemma SameName(s: State, t: Thread, u: Thread)
    requires ThreadOk(s, t) && ThreadOk(s, u) && t.pid == u.pid
    requires HasSemaphore(At(s, t)) && HasSemaphore(At(s, u)) && At(s, t).req.name == At(s, u).req.name
    ensures t == u
  {
  }

  lemma GuardStepKeepsOk(s: State, e: Event, u: Thread)
    requires e.Call? || e.TakeGuard? || e.DropGuard?
    requires ThreadOk(s, u) && ThreadOk(s, e.t)
    ensures ThreadOk(Apply(s, e), u)
  {
  }

  lemma DictionaryStepKeepsOk(s: State, e: Event, u: Thread)
    requires e.LookUp? || e.Store?
    requires ThreadOk(s, u) && ThreadOk(s, e.t)
    ensures ThreadOk(Apply(s, e), u)
  {
  }

  lemma SemaphoreStepKeepsOk(s: State, e: Event, u: Thread)
    requires e.Acquire? || e.Release?
    requires ThreadOk(s, u) && ThreadOk(s, e.t)
    ensures ThreadOk(Apply(s, e), u)
  {
  }

  lemma EnterKeepsOk(s: State, t: Thread, u: Thread)
    requires ThreadOk(s, u)
    ensures ThreadOk(Apply(s, Enter(t)), u)
  {
  }

  lemma OpenKeepsOk(s: State, t: Thread, u: Thread)
    requires ThreadOk(s, u)
    ensures ThreadOk(Apply(s, Open(t)), u)
  {
  }

  lemma AttemptKeepsOk(s: State, e: Event, u: Thread)
    requires e.TryLock? || e.TryFails?
    requires ThreadOk(s, u)
    ensures ThreadOk(Apply(s, e), u)
  {
  }

  // The lock files do not matter here.
  lemma GiveUpKeepsOk(s: State, pid: nat, path: string, u: Thread)
    requires ThreadOk(s, u)
    ensures ThreadOk(GiveUp(s, pid, path), u)
  {
  }

  lemma LeaveKeepsOk(s: State, t: Thread, u: Thread)
    requires ThreadOk(s, u)
    ensures ThreadOk(Apply(s, Leave(t)), u)
  {
    var pc := At(s, t);
    if pc.Inside? {
      var m := Move(s, t, if Locks(pc.req) then Unlocked(pc.req, pc.sem) else Leaving(pc.req, pc.sem));
      assert ThreadOk(m, u);
      if Locks(pc.req) {
        GiveUpKeepsOk(m, t.pid, pc.req.path.value, u);
      }
    }
  }

  lemma CloseKeepsOk(s: State, t: Thread, u: Thread)
    requires ThreadOk(s, u)
    ensures ThreadOk(Apply(s, Close(t)), u)
  {
    var pc := At(s, t);
    if pc.Unlocked? && Locks(pc.req) {
      var m := Move(s, t, Leaving(pc.req, pc.sem));
      assert ThreadOk(m, u);
      GiveUpKeepsOk(m, t.pid, pc.req.path.value, u);
    }
  }

  lemma CloseLeakedKeepsOk(s: State, pid: nat, path: string, u: Thread)
    requires ThreadOk(s, u)
    ensures ThreadOk(Apply(s, CloseLeaked(pid, path)), u)
  {
    var m := s.(leaked := s.leaked - {(pid, path)});
    assert ThreadOk(m, u);
    GiveUpKeepsOk(m, pid, path, u);
  }

  lemma IsReferenced(s: State, u: Thread)
    requires HasEntry(At(s, u))
    ensures !Unreferenced(s, u.pid, At(s, u).sem)
  {
    assert u in s.pcs && Refers(s.pcs[u], At(s, u).sem);
  }

  // Collecting an entry drops no semaphore a thread refers to.
  lemma CollectKeepsOk(s: State, pid: nat, name: string, u: Thread)
    requires ThreadOk(s, u)
    ensures ThreadOk(Apply(s, Collect(pid, name)), u) && ThreadOk(Apply(s, Die(pid, name)), u)
  {
    if HasEntry(At(s, u)) {
      IsReferenced(s, u);
    }
  }

  lemma CrashKeepsOk(s: State, pid: nat, u: Thread)
    requires ThreadOk(s, u)
    ensures ThreadOk(Apply(s, Crash(pid)), u)
  {
  }

  lemma StepKeepsOk(s: State, e: Event)
    requires AllOk(s) && (e.Forget? ==> (e.pid, e.name) !in s.pending)
    ensures AllOk(Apply(s, e))
  {
    forall u ensures ThreadOk(Apply(s, e), u) {
      assert ThreadOk(s, u);
      if e.Crash? {
        CrashKeepsOk(s, e.pid, u);
      } else if e.Collect? || e.Die? {
        CollectKeepsOk(s, e.pid, e.name, u);
      } else if e.Forget? {
      } else if e.Call? || e.TakeGuard? || e.DropGuard? {
        assert ThreadOk(s, e.t);
        GuardStepKeepsOk(s, e, u);
      } else if e.LookUp? || e.Store? {
        assert ThreadOk(s, e.t);
        DictionaryStepKeepsOk(s, e, u);
      } else if e.Acquire? || e.Release? {
        assert ThreadOk(s, e.t);
        SemaphoreStepKeepsOk(s, e, u);
      } else if e.TryLock? || e.TryFails? {
        AttemptKeepsOk(s, e, u);
      } else {
        match e
        case Enter(t) => EnterKeepsOk(s, t, u);
        case Open(t) => OpenKeepsOk(s, t, u);
        case Leave(t) => LeaveKeepsOk(s, t, u);
        case Close(t) => CloseKeepsOk(s, t, u);
        case CloseLeaked(pid, path) => CloseLeakedKeepsOk(s, pid, path, u);
      }
    }
  }

  // Without late callbacks none is pending.
  lemma NothingPending(s: State, e: Event)
    requires s.pending == {} && !e.Die?
    ensures Apply(s, e).pending == {}
  {
    if e.Leave? || e.Close? || e.CloseLeaked? {
      GivingUpKeepsPending(s, e);
    } else if !e.Crash? && !e.Forget? {
      StepKeepsPending(s, e);
    }
  }

  lemma GivingUpKeepsPending(s: State, e: Event)
    requires e.Leave? || e.Close? || e.CloseLeaked?
    ensures Apply(s, e).pending == s.pending
  {
  }

  lemma StepKeepsPending(s: State, e: Event)
    requires !e.Leave? && !e.Close? && !e.CloseLeaked? && !e.Crash? && !e.Forget? && !e.Die?
    ensures Apply(s, e).pending == s.pending
  {
  }

  lemma {:induction false} RunIsOk(events: seq<Event>)
    requires forall e | e in events :: !e.Die?
    ensures AllOk(After(events)) && After(events).pending == {}
  {
    if events != [] {
      var before, e := events[..|events| - 1], events[|events| - 1];
      assert e in events && forall d | d in before :: d in events;
      RunIsOk(before);
      StepKeepsOk(After(before), e);
      NothingPending(After(before), e);
    }
  }

  // When entries are removed at once, at most one thread of a process is inside a name.
  lemma PromptIsExclusive(events: seq<Event>)
    requires forall e | e in events :: !e.Die?
    ensures OneInProcess(After(events))
  {
    RunIsOk(events);
    var s := After(events);
    forall t, u | InBody(s, t) && InBody(s, u) && t.pid == u.pid && At(s, t).req.name == At(s, u).req.name
      ensures t == u
    {
      assert ThreadOk(s, t) && ThreadOk(s, u);
      SameName(s, t, u);
    }
  }

  // --- the lock files ---

  // Requests come from reqs.
  ghost predicate Requested(s: State, reqs: iset<Request>) {
    forall t :: At(s, t).Idle? || At(s, t).req in reqs
  }

  lemma StepKeepsRequested(s: State, e: Event, reqs: iset<Request>)
    requires Requested(s, reqs) && (e.Call? ==> e.req in reqs)
    ensures Requested(Apply(s, e), reqs)
  {
    forall u ensures At(Apply(s, e), u).Idle? || At(Apply(s, e), u).req in reqs {
      assert At(s, u).Idle? || At(s, u).req in reqs;
      PcComesFrom(s, e, u);
    }
  }

  // pc keeps the request of was, or starts with the one of a call.
  predicate ComesFrom(pc: Pc, was: Pc, e: Event, u: Thread) {
    pc.Idle? || (!was.Idle? && pc.req == was.req) || e == Call(u, pc.req)
  }

  lemma DictionaryStepComesFrom(s: State, e: Event, u: Thread)
    requires e.Call? || e.TakeGuard? || e.LookUp? || e.Store? || e.DropGuard? || e.Acquire? || e.Release?
    ensures ComesFrom(At(Apply(s, e), u), At(s, u), e, u)
  {
  }

  lemma FileStepComesFrom(s: State, e: Event, u: Thread)
    requires e.Enter? || e.Open? || e.TryLock? || e.TryFails? || e.Leave? || e.Close? || e.CloseLeaked?
    ensures ComesFrom(At(Apply(s, e), u), At(s, u), e, u)
  {
  }

  // A step gives a thread a request only by a call.
  lemma PcComesFrom(s: State, e: Event, u: Thread)
    ensures ComesFrom(At(Apply(s, e), u), At(s, u), e, u)
  {
    if e.Call? || e.TakeGuard? || e.LookUp? || e.Store? || e.DropGuard? || e.Acquire? || e.Release? {
      DictionaryStepComesFrom(s, e, u);
    } else if e.Crash? || e.Collect? || e.Die? || e.Forget? {
      assert At(Apply(s, e), u).Idle? || At(Apply(s, e), u) == At(s, u);
    } else {
      FileStepComesFrom(s, e, u);
    }
  }

  // A thread inside an external lock is in the process that owns the file.
  predicate FileOk(s: State, t: Thread) {
    InFile(s, t) ==> var path := At(s, t).req.path.value; path in s.owners && s.owners[path] == t.pid
  }

  // u gives up the file only when no other thread of its process is inside the lock.
  lemma OnlyHolderGivesUp(s: State, reqs: iset<Request>, t: Thread, u: Thread)
    requires AllOk(s) && Requested(s, reqs) && PathsSeparate(reqs) && t.pid == u.pid
    requires InFile(s, t) && HasSemaphore(At(s, u)) && Locks(At(s, u).req) && At(s, t).req.path == At(s, u).req.path
    ensures t == u
  {
    assert ThreadOk(s, t) && ThreadOk(s, u);
    assert At(s, t).req in reqs && At(s, u).req in reqs;
    SameName(s, t, u);
  }

  lemma GiveUpKeepsFileOk(s: State, reqs: iset<Request>, e: Event, t: Thread)
    requires AllOk(s) && Requested(s, reqs) && PathsSeparate(reqs) && (e.Leave? || e.Close?) && FileOk(s, t)
    ensures FileOk(Apply(s, e), t)
  {
    assert ThreadOk(s, e.t);
    if InFile(s, t) && HasSemaphore(At(s, e.t)) && Locks(At(s, e.t).req) && At(s, t).req.path == At(s, e.t).req.path &&
      t.pid == e.t.pid {
      OnlyHolderGivesUp(s, reqs, t, e.t);
    }
  }

  lemma LockingKeepsFileOk(s: State, e: Event, t: Thread)
    requires (e.TryLock? || e.Crash?) && FileOk(s, t)
    ensures FileOk(Apply(s, e), t)
  {
  }

  lemma SemaphoreStepKeepsFileOk(s: State, e: Event, t: Thread)
    requires e.Call? || e.TakeGuard? || e.LookUp? || e.Store? || e.DropGuard? || e.Acquire? || e.Release?
    requires FileOk(s, t)
    ensures FileOk(Apply(s, e), t)
  {
  }

  lemma OtherStepKeepsFileOk(s: State, e: Event, t: Thread)
    requires e.Enter? || e.Open? || e.Collect? || e.Die? || e.Forget?
    requires FileOk(s, t)
    ensures FileOk(Apply(s, e), t)
  {
  }

  ghost predicate FilesOk(s: State, reqs: iset<Request>) {
    AllOk(s) && Requested(s, reqs) && s.leaked == {} && s.pending == {} && forall t :: FileOk(s, t)
  }

  lemma StepKeepsFilesOk(s: State, reqs: iset<Request>, e: Event)
    requires FilesOk(s, reqs) && PathsSeparate(reqs) && (e.Call? ==> e.req in reqs) && !e.TryFails? && !e.Die?
    ensures FilesOk(Apply(s, e), reqs)
  {
    StepKeepsOk(s, e);
    StepKeepsRequested(s, e, reqs);
    forall t ensures FileOk(Apply(s, e), t) {
      assert FileOk(s, t);
      if e.Leave? || e.Close? {
        GiveUpKeepsFileOk(s, reqs, e, t);
      } else if e.TryLock? || e.Crash? {
        LockingKeepsFileOk(s, e, t);
      } else if e.Enter? || e.Open? || e.Collect? || e.Die? || e.Forget? {
        OtherStepKeepsFileOk(s, e, t);
      } else if !e.CloseLeaked? {
        SemaphoreStepKeepsFileOk(s, e, t);
      }
    }
    NothingLeaks(s, e);
    NothingPending(s, e);
  }

  lemma NothingLeaks(s: State, e: Event)
    requires s.leaked == {} && !e.TryFails?
    ensures Apply(s, e).leaked == {}
  {
  }

  lemma {:induction false} RunKeepsFilesOk(reqs: iset<Request>, events: seq<Event>)
    requires PathsSeparate(reqs) && Run(reqs, Mishaps(false, false), events)
    ensures FilesOk(After(events), reqs)
  {
    if events != [] {
      var before, e := events[..|events| - 1], events[|events| - 1];
      assert e in events && forall d | d in before :: d in events;
      RunKeepsFilesOk(reqs, before);
      StepKeepsFilesOk(After(before), reqs, e);
    }
  }

  lemma FilesOkIsExclusive(s: State, reqs: iset<Request>)
    requires FilesOk(s, reqs) && PathsSeparate(reqs)
    ensures OneAnywhere(s)
  {
    forall t, u | InFile(s, t) && InFile(s, u) && At(s, t).req.path == At(s, u).req.path ensures t == u {
      assert FileOk(s, t) && FileOk(s, u);
      OnlyHolderGivesUp(s, reqs, t, u);
    }
  }

  // --- runs in which exclusion fails ---

  lemma RunOneMore(reqs: iset<Request>, m: Mishaps, events: seq<Event>, e: Event)
    requires Run(reqs, m, events) && Allowed(reqs, m, e)
    ensures Run(reqs, m, events + [e]) && After(events + [e]) == Apply(After(events), e)
  {
    assert (events + [e])[..|events|] == events;
  }

  // Nobody is in the way of t.
  predicate Free(s: State, t: Thread, name: string) {
    At(s, t).Idle? && t.pid !in s.guards && (t.pid, name) !in s.semaphores && s.made !in s.holders
  }

  // What t has changed when it holds the semaphore
  function HoldingState(s: State, t: Thread, req: Request): State {
    State(s.pcs[t := Holding(req, s.made)], s.semaphores[(t.pid, req.name) := s.made], s.guards,
          s.holders[s.made := t], s.owners, s.leaked, s.pending, s.made + 1)
  }

  lemma Called(s: State, t: Thread, req: Request)
    requires At(s, t).Idle?
    ensures Apply(s, Call(t, req)) == s.(pcs := s.pcs[t := AtGuard(req)])
  {
  }

  lemma GuardTakenBy(s: State, t: Thread, req: Request)
    requires At(s, t) == AtGuard(req) && t.pid !in s.guards
    ensures Apply(s, TakeGuard(t)) == s.(pcs := s.pcs[t := Guarded(req)], guards := s.guards[t.pid := t])
  {
  }

  lemma SemaphoreMade(s: State, t: Thread, req: Request)
    requires At(s, t) == Guarded(req) && (t.pid, req.name) !in s.semaphores
    ensures Apply(s, LookUp(t)) == s.(pcs := s.pcs[t := Created(req, s.made)], made := s.made + 1)
  {
  }

  lemma GuardTaken(s: State, t: Thread, req: Request)
    requires Free(s, t, req.name)
    ensures Apply(Apply(Apply(s, Call(t, req)), TakeGuard(t)), LookUp(t)) ==
            s.(pcs := s.pcs[t := Created(req, s.made)], guards := s.guards[t.pid := t], made := s.made + 1)
  {
    Called(s, t, req);
    var s1 := s.(pcs := s.pcs[t := AtGuard(req)]);
    GuardTakenBy(s1, t, req);
    var s2 := s.(pcs := s.pcs[t := Guarded(req)], guards := s.guards[t.pid := t]);
    assert s1.pcs[t := Guarded(req)] == s2.pcs;
    SemaphoreMade(s2, t, req);
    assert s2.pcs[t := Created(req, s.made)] == s.pcs[t := Created(req, s.made)];
  }

  lemma SemaphoreStored(s: State, t: Thread, req: Request, sem: nat)
    requires At(s, t) == Created(req, sem)
    ensures Apply(Apply(s, Store(t)), DropGuard(t)) ==
            s.(pcs := s.pcs[t := AtSemaphore(req, sem)], semaphores := s.semaphores[(t.pid, req.name) := sem],
               guards := s.guards - {t.pid})
  {
    assert Apply(s, Store(t)) ==
      s.(pcs := s.pcs[t := Found(req, sem)], semaphores := s.semaphores[(t.pid, req.name) := sem]);
  }

  lemma SemaphoreTaken(s: State, t: Thread, req: Request)
    requires Free(s, t, req.name)
    ensures var s3 := s.(pcs := s.pcs[t := Created(req, s.made)], guards := s.guards[t.pid := t], made := s.made + 1);
            Apply(Apply(Apply(s3, Store(t)), DropGuard(t)), Acquire(t)) == HoldingState(s, t, req)
  {
    var s3 := s.(pcs := s.pcs[t := Created(req, s.made)], guards := s.guards[t.pid := t], made := s.made + 1);
    SemaphoreStored(s3, t, req, s.made);
    assert s.guards[t.pid := t] - {t.pid} == s.guards;
    var s5 := s3.(pcs := s3.pcs[t := AtSemaphore(req, s.made)],
                  semaphores := s.semaphores[(t.pid, req.name) := s.made], guards := s.guards);
    SemaphoreAcquired(s5, t, req, s.made);
    assert s5.pcs[t := Holding(req, s.made)] == s.pcs[t := Holding(req, s.made)];
  }

  lemma SemaphoreAcquired(s: State, t: Thread, req: Request, sem: nat)
    requires At(s, t) == AtSemaphore(req, sem) && sem !in s.holders
    ensures Apply(s, Acquire(t)) == s.(pcs := s.pcs[t := Holding(req, sem)], holders := s.holders[sem := t])
  {
  }

  lemma GoHolding(reqs: iset<Request>, m: Mishaps, events: seq<Event>, t: Thread, req: Request)
      returns (more: seq<Event>)
    requires Run(reqs, m, events) && Free(After(events), t, req.name) && req in reqs
    ensures Run(reqs, m, more) && After(more) == HoldingState(After(events), t, req)
  {
    var s := After(events);
    GuardTaken(s, t, req);
    SemaphoreTaken(s, t, req);
    more := events;
    RunOneMore(reqs, m, more, Call(t, req)); more := more + [Call(t, req)];
    RunOneMore(reqs, m, more, TakeGuard(t)); more := more + [TakeGuard(t)];
    RunOneMore(reqs, m, more, LookUp(t)); more := more + [LookUp(t)];
    RunOneMore(reqs, m, more, Store(t)); more := more + [Store(t)];
    RunOneMore(reqs, m, more, DropGuard(t)); more := more + [DropGuard(t)];
    RunOneMore(reqs, m, more, Acquire(t)); more := more + [Acquire(t)];
  }

  function InsideState(s: State, t: Thread, req: Request): State
    requires Locks(req)
  {
    var h := HoldingState(s, t, req);
    h.(pcs := h.pcs[t := Inside(req, s.made)], owners := h.owners[req.path.value := t.pid])
  }

  lemma GoInside(reqs: iset<Request>, m: Mishaps, events: seq<Event>, t: Thread, req: Request)
      returns (more: seq<Event>)
    requires Run(reqs, m, events) && Free(After(events), t, req.name) && req in reqs && Locks(req)
    requires req.path.value in After(events).owners ==> After(events).owners[req.path.value] == t.pid
    ensures Run(reqs, m, more) && After(more) == InsideState(After(events), t, req)
  {
    var s := After(events);
    more := GoHolding(reqs, m, events, t, req);
    FileOpened(After(more), t, req, s.made);
    RunOneMore(reqs, m, more, Open(t)); more := more + [Open(t)];
    FileLocked(After(more), t, req, s.made);
    RunOneMore(reqs, m, more, TryLock(t)); more := more + [TryLock(t)];
    assert HoldingState(s, t, req).pcs[t := Opened(req, s.made)][t := Inside(req, s.made)] ==
      InsideState(s, t, req).pcs;
  }

  lemma FileLocked(o: State, t: Thread, req: Request, sem: nat)
    requires At(o, t) == Opened(req, sem) && Locks(req) &&
             (req.path.value in o.owners ==> o.owners[req.path.value] == t.pid)
    ensures Apply(o, TryLock(t)) == o.(pcs := o.pcs[t := Inside(req, sem)], owners := o.owners[req.path.value := t.pid])
  {
  }

  // Two names with one lock file: the semaphores differ and the file lock does not tell the threads of a process apart.
  lemma SharedPathBreaks(reqs: iset<Request>, m: Mishaps, q: Request, r: Request) returns (events: seq<Event>)
    requires q in reqs && r in reqs && Locks(q) && Locks(r) && q.path == r.path && q.name != r.name
    ensures Run(reqs, m, events) && !OneAnywhere(After(events))
  {
    var t, u := Thread(0, 0), Thread(0, 1);
    assert Run(reqs, m, []) && After([]) == INIT;
    events := GoInside(reqs, m, [], t, q);
    events := GoInside(reqs, m, events, u, r);
    var s := After(events);
    assert InFile(s, t) && InFile(s, u) && At(s, t).req.path == At(s, u).req.path;
  }

  // A failed attempt leaves its file open; when it is closed later, the process loses the lock another thread has
  // taken.
  lemma FailedAttemptBreaks(reqs: iset<Request>, m: Mishaps, req: Request) returns (events: seq<Event>)
    requires req in reqs && Locks(req) && m.failing
    ensures Run(reqs, m, events) && !OneAnywhere(After(events))
  {
    var t, u, v := Thread(0, 0), Thread(0, 1), Thread(1, 0);
    events := FailedAttempt(reqs, m, req);
    events := GoInside(reqs, m, events, u, req);
    var path := req.path.value;
    RunOneMore(reqs, m, events, CloseLeaked(0, path));
    events := events + [CloseLeaked(0, path)];
    assert path !in After(events).owners;
    events := GoInside(reqs, m, events, v, req);
    var s := After(events);
    assert InFile(s, u) && InFile(s, v) && At(s, u).req.path == At(s, v).req.path;
  }

  lemma FileOpened(h: State, t: Thread, req: Request, sem: nat)
    requires At(h, t) == Holding(req, sem) && Locks(req)
    ensures Apply(h, Open(t)) == h.(pcs := h.pcs[t := Opened(req, sem)])
  {
  }

  lemma AttemptFails(o: State, t: Thread, req: Request, sem: nat)
    requires At(o, t) == Opened(req, sem) && Locks(req)
    ensures Apply(o, TryFails(t)) ==
            o.(pcs := o.pcs[t := Leaving(req, sem)], leaked := o.leaked + {(t.pid, req.path.value)})
  {
  }

  lemma SemaphoreReleased(l: State, t: Thread, req: Request, sem: nat)
    requires At(l, t) == Leaving(req, sem)
    ensures Apply(l, Release(t)) == l.(pcs := l.pcs[t := Idle], holders := l.holders - {sem})
  {
  }

  lemma EntryCollected(s: State, pid: nat, name: string)
    requires (pid, name) in s.semaphores && Unreferenced(s, pid, s.semaphores[(pid, name)])
    ensures Apply(s, Collect(pid, name)) == s.(semaphores := s.semaphores - {(pid, name)})
  {
  }

  // What is left of a failed attempt: the open file
  function FailedState(req: Request): State
    requires Locks(req)
  {
    State(map[Thread(0, 0) := Idle], map[], map[], map[], map[], {(0, req.path.value)}, {}, 1)
  }

  lemma FailedSteps(req: Request)
    requires Locks(req)
    ensures var t := Thread(0, 0);
            Apply(Apply(Apply(Apply(HoldingState(INIT, t, req), Open(t)), TryFails(t)), Release(t)),
                  Collect(0, req.name)) ==
            FailedState(req)
  {
    var t, leaked := Thread(0, 0), {(0, req.path.value)};
    var h := HoldingState(INIT, t, req);
    var semaphores := map[(0, req.name) := 0];
    FileOpened(h, t, req, 0);
    AttemptFails(Apply(h, Open(t)), t, req, 0);
    SemaphoreReleased(Apply(Apply(h, Open(t)), TryFails(t)), t, req, 0);
    var s := Apply(Apply(Apply(h, Open(t)), TryFails(t)), Release(t));
    assert h.holders - {0} == map[];
    assert {} + leaked == leaked;
    assert s == State(map[t := Idle], semaphores, map[], map[], map[], leaked, {}, 1);
    EntryCollected(s, 0, req.name);
    assert semaphores - {(0, req.name)} == map[];
  }

  lemma FailedAttempt(reqs: iset<Request>, m: Mishaps, req: Request) returns (events: seq<Event>)
    requires req in reqs && Locks(req) && m.failing
    ensures Run(reqs, m, events) && After(events) == FailedState(req)
  {
    var t := Thread(0, 0);
    assert Run(reqs, m, []) && After([]) == INIT;
    events := GoHolding(reqs, m, [], t, req);
    RunOneMore(reqs, m, events, Open(t)); events := events + [Open(t)];
    RunOneMore(reqs, m, events, TryFails(t)); events := events + [TryFails(t)];
    RunOneMore(reqs, m, events, Release(t)); events := events + [Release(t)];
    RunOneMore(reqs, m, events, Collect(0, req.name)); events := events + [Collect(0, req.name)];
    FailedSteps(req);
  }

  // --- a callback that runs late ---

  // The request gets to the body of its with statement.
  predicate Enters(r: Request) {
    r.external ==> r.path.Some?
  }

  function InBodyState(s: State, t: Thread, req: Request): State
    requires Enters(req)
  {
    if req.external then InsideState(s, t, req)
    else var h := HoldingState(s, t, req); h.(pcs := h.pcs[t := Inside(req, s.made)])
  }

  lemma GoInBody(reqs: iset<Request>, m: Mishaps, events: seq<Event>, t: Thread, req: Request)
      returns (more: seq<Event>)
    requires Run(reqs, m, events) && Free(After(events), t, req.name) && req in reqs && Enters(req)
    requires req.external && req.path.value in After(events).owners ==> After(events).owners[req.path.value] == t.pid
    ensures Run(reqs, m, more) && After(more) == InBodyState(After(events), t, req)
  {
    if req.external {
      more := GoInside(reqs, m, events, t, req);
    } else {
      more := GoHolding(reqs, m, events, t, req);
      RunOneMore(reqs, m, more, Enter(t));
      more := more + [Enter(t)];
    }
  }

  lemma BodyEnds(i: State, t: Thread, req: Request, sem: nat)
    requires At(i, t) == Inside(req, sem)
    ensures !Locks(req) ==> Apply(i, Leave(t)) == i.(pcs := i.pcs[t := Leaving(req, sem)])
    ensures Locks(req) ==>
            Apply(i, Leave(t)) == GiveUp(i.(pcs := i.pcs[t := Unlocked(req, sem)]), t.pid, req.path.value)
  {
  }

  lemma FileClosed(l: State, t: Thread, req: Request, sem: nat)
    requires At(l, t) == Unlocked(req, sem) && Locks(req) && req.path.value !in l.owners
    ensures Apply(l, Close(t)) == l.(pcs := l.pcs[t := Leaving(req, sem)])
  {
  }

  // What one thread leaves behind when it is done: an entry nobody refers to
  function DoneState(req: Request): State {
    State(map[Thread(0, 0) := Idle], map[(0, req.name) := 0], map[], map[], map[], {}, {}, 1)
  }

  function LeavingState(req: Request): State {
    State(map[Thread(0, 0) := Leaving(req, 0)], map[(0, req.name) := 0], map[], map[0 := Thread(0, 0)], map[], {}, {},
          1)
  }

  lemma LeavesUnlocked(req: Request)
    requires Locks(req)
    ensures var t := Thread(0, 0); Apply(Apply(InBodyState(INIT, t, req), Leave(t)), Close(t)) == LeavingState(req)
  {
    var t := Thread(0, 0);
    var i := InBodyState(INIT, t, req);
    BodyEnds(i, t, req, 0);
    var l := Apply(i, Leave(t));
    assert l.owners == map[];
    FileClosed(l, t, req, 0);
    assert Apply(l, Close(t)).pcs == map[t := Leaving(req, 0)];
  }

  lemma LeavesPlain(req: Request)
    requires !req.external
    ensures var t := Thread(0, 0); Apply(InBodyState(INIT, t, req), Leave(t)) == LeavingState(req)
  {
    var t := Thread(0, 0);
    var i := InBodyState(INIT, t, req);
    BodyEnds(i, t, req, 0);
    assert Apply(i, Leave(t)).pcs == map[t := Leaving(req, 0)];
  }

  lemma GoDone(reqs: iset<Request>, m: Mishaps, req: Request) returns (events: seq<Event>)
    requires req in reqs && Enters(req)
    ensures Run(reqs, m, events) && After(events) == DoneState(req)
  {
    var t := Thread(0, 0);
    assert Run(reqs, m, []) && After([]) == INIT;
    events := GoInBody(reqs, m, [], t, req);
    RunOneMore(reqs, m, events, Leave(t)); events := events + [Leave(t)];
    if req.external {
      LeavesUnlocked(req);
      RunOneMore(reqs, m, events, Close(t)); events := events + [Close(t)];
    } else {
      LeavesPlain(req);
    }
    SemaphoreReleased(LeavingState(req), t, req, 0);
    assert LeavingState(req).holders - {0} == map[];
    RunOneMore(reqs, m, events, Release(t)); events := events + [Release(t)];
  }

  lemma EntryDies(req: Request)
    ensures Apply(DoneState(req), Die(0, req.name)) == DoneState(req).(semaphores := map[], pending := {(0, req.name)})
  {
    assert map[(0, req.name) := 0] - {(0, req.name)} == map[];
  }

  lemma EntryForgotten(s: State, pid: nat, name: string)
    requires (pid, name) in s.pending
    ensures Apply(s, Forget(pid, name)) ==
            s.(semaphores := s.semaphores - {(pid, name)}, pending := s.pending - {(pid, name)})
  {
  }

  // A late callback deletes the entry made since, and the next thread makes one more semaphore for the name.
  lemma LateCallbackBreaks(reqs: iset<Request>, m: Mishaps, req: Request) returns (events: seq<Event>)
    requires req in reqs && Enters(req) && m.late
    ensures Run(reqs, m, events) && !OneInProcess(After(events)) && (Locks(req) ==> !OneAnywhere(After(events)))
  {
    var u, v := Thread(0, 1), Thread(0, 2);
    events := GoDone(reqs, m, req);
    EntryDies(req);
    RunOneMore(reqs, m, events, Die(0, req.name)); events := events + [Die(0, req.name)];
    events := GoInBody(reqs, m, events, u, req);
    EntryForgotten(After(events), 0, req.name);
    RunOneMore(reqs, m, events, Forget(0, req.name)); events := events + [Forget(0, req.name)];
    events := GoInBody(reqs, m, events, v, req);
    var s := After(events);
    assert At(s, u) == Inside(req, 1) && At(s, v) == Inside(req, 2);
    assert InBody(s, u) && InBody(s, v) && u.pid == v.pid && At(s, u).req.name == At(s, v).req.name && u != v;
    if Locks(req) {
      assert InFile(s, u) && InFile(s, v) && At(s, u).req.path == At(s, v).req.path;
    }
  }

  predicate BodyEntered(s: State, t: Thread) {
    (At(s, t).Inside? ==> Enters(At(s, t).req)) && (At(s, t).Opened? ==> At(s, t).req.path.Some?)
  }

  lemma StepEnters(s: State, e: Event, t: Thread)
    requires BodyEntered(s, t)
    ensures BodyEntered(Apply(s, e), t)
  {
    if e.Enter? || e.Open? || e.TryLock? || e.TryFails? {
      EntryEnters(s, e, t);
    } else {
      OtherStepEnters(s, e, t);
    }
  }

  lemma EntryEnters(s: State, e: Event, t: Thread)
    requires BodyEntered(s, t) && (e.Enter? || e.Open? || e.TryLock? || e.TryFails?)
    ensures BodyEntered(Apply(s, e), t)
  {
  }

  // Any other step leaves a thread where it is or takes it to neither of the two places.
  lemma OtherStepEnters(s: State, e: Event, t: Thread)
    requires BodyEntered(s, t) && !e.Enter? && !e.Open? && !e.TryLock? && !e.TryFails?
    ensures BodyEntered(Apply(s, e), t)
  {
    assert At(Apply(s, e), t) == At(s, t) || !(At(Apply(s, e), t).Inside? || At(Apply(s, e), t).Opened?);
  }

  lemma {:induction false} RunEnters(events: seq<Event>, t: Thread)
    ensures BodyEntered(After(events), t)
  {
    if events != [] {
      RunEnters(events[..|events| - 1], t);
      StepEnters(After(events[..|events| - 1]), events[|events| - 1], t);
    }
  }

  lemma NoneEntersIsExclusive(reqs: iset<Request>, m: Mishaps, events: seq<Event>)
    requires Run(reqs, m, events) && forall r | r in reqs :: !Enters(r)
    ensures OneInProcess(After(events))
  {
    RunIsRequested(reqs, m, events);
    forall t ensures !InBody(After(events), t) {
      RunEnters(events, t);
      assert At(After(events), t).Idle? || At(After(events), t).req in reqs;
    }
  }

  /**
   Mutual exclusion of threads over every run, whatever the paths and failures: at most one thread of a process is
   inside a name, just if no callback of the weak dictionary runs late or no request gets to its body.
   */
  lemma InternalExclusion(reqs: iset<Request>, m: Mishaps)
    ensures (forall events | Run(reqs, m, events) :: OneInProcess(After(events))) <==>
            (m.late ==> forall r | r in reqs :: !Enters(r))
  {
    if m.late && exists r :: r in reqs && Enters(r) {
      var r :| r in reqs && Enters(r);
      var events := LateCallbackBreaks(reqs, m, r);
    } else {
      forall events | Run(reqs, m, events) ensures OneInProcess(After(events)) {
        if m.late {
          NoneEntersIsExclusive(reqs, m, events);
        } else {
          PromptIsExclusive(events);
        }
      }
    }
  }

  /**
   Mutual exclusion of processes over every run: at most one thread of any process is inside an external lock of a path,
   just if requests for one path are always for one name and, where an attempt to lock may fail or a callback may run
   late, there are no external locks at all.
   */
  lemma ExternalExclusion(reqs: iset<Request>, m: Mishaps)
    ensures (forall events | Run(reqs, m, events) :: OneAnywhere(After(events))) <==>
            PathsSeparate(reqs) && (m.failing || m.late ==> forall r | r in reqs :: !Locks(r))
  {
    if !PathsSeparate(reqs) {
      var q, r :| q in reqs && r in reqs && Locks(q) && Locks(r) && q.path == r.path && q.name != r.name;
      var events := SharedPathBreaks(reqs, m, q, r);
    } else if (m.failing || m.late) && exists r :: r in reqs && Locks(r) {
      var r :| r in reqs && Locks(r);
      if m.failing {
        var events := FailedAttemptBreaks(reqs, m, r);
      } else {
        var events := LateCallbackBreaks(reqs, m, r);
      }
    } else {
      forall events | Run(reqs, m, events) ensures OneAnywhere(After(events)) {
        if m.failing || m.late {
          NoLocksIsExclusive(reqs, m, events);
        } else {
          RunKeepsFilesOk(reqs, events);
          FilesOkIsExclusive(After(events), reqs);
        }
      }
    }
  }

  lemma {:induction false} RunIsRequested(reqs: iset<Request>, m: Mishaps, events: seq<Event>)
    requires Run(reqs, m, events)
    ensures Requested(After(events), reqs)
  {
    if events != [] {
      var before, e := events[..|events| - 1], events[|events| - 1];
      assert e in events && forall d | d in before :: d in events;
      RunIsRequested(reqs, m, before);
      StepKeepsRequested(After(before), e, reqs);
    }
  }

  lemma NoLocksIsExclusive(reqs: iset<Request>, m: Mishaps, events: seq<Event>)
    requires Run(reqs, m, events) && forall r | r in reqs :: !Locks(r)
    ensures OneAnywhere(After(events))
  {
    RunIsRequested(reqs, m, events);
    forall t ensures !InFile(After(events), t) {
      assert At(After(events), t).Idle? || At(After(events), t).req in reqs;
    }
  }

  // --- the paths ---

  // name.replace(os.sep, '_')
  function Flat(name: string): (r: string)
    ensures |r| == |name|
    ensures forall i :: 0 <= i < |name| ==> r[i] == if name[i] == '/' then '_' else name[i]
  {
    seq(|name|, i requires 0 <= i < |name| => if name[i] == '/' then '_' else name[i])
  }

  // os.path.join of two parts
  function Join(dir: string, file: string): string {
    if file != "" && file[0] == '/' then file
    else if dir == "" || dir[|dir| - 1] == '/' then dir + file
    else dir + "/" + file
  }

  // The empty string counts as no prefix and no path.
  function GetLockPath(name: string, prefix: string, lockPath: string, configured: string): Option<string> {
    var file := if prefix == "" then Flat(name)
                else prefix + (if prefix[|prefix| - 1] == '-' then "" else "-") + Flat(name);
    var dir := if lockPath != "" then lockPath else configured;
    if dir == "" then None else Some(Join(dir, file))
  }

  /** A directory passed in the call counts, and the configured one only without it. */
  lemma GivenDirectoryCounts(name: string, prefix: string, lockPath: string, configured: string, other: string)
    ensures lockPath != "" ==>
            GetLockPath(name, prefix, lockPath, configured) == GetLockPath(name, prefix, lockPath, other) ==
            GetLockPath(name, prefix, "", lockPath)
    ensures lockPath == "" ==> (GetLockPath(name, prefix, lockPath, configured) == None <==> configured == "")
  {
  }

  // The directory, and in it a file without separators
  predicate LiesIn(path: string, dir: string, file: string) {
    path == dir + "/" + file && '/' !in file
  }

  /**
   The file lies in the directory itself, under the name with its separators replaced, behind the prefix and one dash.
   */
  lemma FileLiesInDirectory(name: string, prefix: string, dir: string)
    requires dir != "" && dir[|dir| - 1] != '/' && '/' !in prefix
    ensures GetLockPath(name, "", dir, "").Some? && LiesIn(GetLockPath(name, "", dir, "").value, dir, Flat(name))
    ensures prefix != "" && prefix[|prefix| - 1] != '-' ==>
            var path := GetLockPath(name, prefix, dir, "");
            path.Some? && LiesIn(path.value, dir, prefix + "-" + Flat(name)) &&
            GetLockPath(name, prefix + "-", dir, "") == path
  {
    assert '/' !in Flat(name);
    if prefix != "" && prefix[|prefix| - 1] != '-' {
      assert prefix + "" + "-" == prefix + "-";
      assert (prefix + "-")[|prefix|] == '-';
      assert prefix + "-" + "" + Flat(name) == prefix + "-" + Flat(name);
      assert (prefix + "-" + Flat(name))[0] == prefix[0];
      assert (prefix + "-" + "" + Flat(name))[0] == prefix[0];
    }
  }

  /** With one prefix and one directory, two names share a lock file just if they differ only in '/' against '_'. */
  lemma PathsCollide(a: string, b: string, prefix: string, lockPath: string, configured: string)
    requires lockPath != "" || configured != ""
    ensures GetLockPath(a, prefix, lockPath, configured) == GetLockPath(b, prefix, lockPath, configured) <==>
            Flat(a) == Flat(b)
  {
    var dir := if lockPath != "" then lockPath else configured;
    if prefix == "" {
      JoinInjective(dir, Flat(a), Flat(b));
    } else {
      var front := prefix + if prefix[|prefix| - 1] == '-' then "" else "-";
      assert GetLockPath(a, prefix, lockPath, configured) == Some(Join(dir, front + Flat(a)));
      assert GetLockPath(b, prefix, lockPath, configured) == Some(Join(dir, front + Flat(b)));
      JoinInjectiveBehind(dir, front, Flat(a), Flat(b));
    }
  }

  lemma AppendInjective(front: string, a: string, b: string)
    ensures front + a == front + b <==> a == b
  {
    assert (front + a)[|front|..] == a && (front + b)[|front|..] == b;
  }

  lemma JoinInjective(dir: string, a: string, b: string)
    requires (a != "" ==> a[0] != '/') && (b != "" ==> b[0] != '/')
    ensures Join(dir, a) == Join(dir, b) <==> a == b
  {
    AppendInjective(dir, a, b);
    AppendInjective(dir + "/", a, b);
  }

  lemma JoinInjectiveBehind(dir: string, front: string, a: string, b: string)
    requires front != ""
    ensures Join(dir, front + a) == Join(dir, front + b) <==> a == b
  {
    assert (front + a)[0] == front[0] && (front + b)[0] == front[0];
    AppendInjective(front, a, b);
    AppendInjective(dir, front + a, front + b);
    AppendInjective(dir + "/", front + a, front + b);
  }

  // The calls of lock with one prefix and one directory, for a set of names
  ghost function CallsOf(names: iset<string>, prefix: string, lockPath: string, configured: string): iset<Request> {
    iset name | name in names :: Request(name, true, GetLockPath(name, prefix, lockPath, configured))
  }

  ghost predicate NamesSeparate(names: iset<string>) {
    forall a, b | a in names && b in names && Flat(a) == Flat(b) :: a == b
  }

  /**
   One prefix and one directory: exclusion over every run just if no two names become equal when '/' is replaced by '_'.
   */
  lemma NameExclusion(names: iset<string>, prefix: string, lockPath: string, configured: string)
    requires lockPath != "" || configured != ""
    ensures (forall events | Run(CallsOf(names, prefix, lockPath, configured), Mishaps(false, false), events) ::
             OneAnywhere(After(events))) <==>
            NamesSeparate(names)
  {
    var reqs := CallsOf(names, prefix, lockPath, configured);
    ExternalExclusion(reqs, Mishaps(false, false));
    forall a, b | a in names && b in names
      ensures GetLockPath(a, prefix, lockPath, configured) == GetLockPath(b, prefix, lockPath, configured) <==>
              Flat(a) == Flat(b)
    {
      PathsCollide(a, b, prefix, lockPath, configured);
    }
    if PathsSeparate(reqs) {
      forall a, b | a in names && b in names && Flat(a) == Flat(b) ensures a == b {
        assert Request(a, true, GetLockPath(a, prefix, lockPath, configured)) in reqs;
        assert Request(b, true, GetLockPath(b, prefix, lockPath, configured)) in reqs;
      }
    }
  }

  // "a/b" and "a_b" share a file; so do name "c" behind the prefix "a-b" and name "b-c" behind the prefix "a".
  lemma CollidingNames(dir: string)
    requires dir != ""
    ensures GetLockPath("a/b", "", dir, "") == GetLockPath("a_b", "", dir, "")
    ensures GetLockPath("c", "a-b", dir, "") == GetLockPath("b-c", "a", dir, "")
  {
    assert Flat("a/b") == Flat("a_b");
    assert Flat("c") == "c" && Flat("b-c") == "b-c";
    assert "a-b" + "-" + "c" == "a" + "-" + "b-c";
  }
}
