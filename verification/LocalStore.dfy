/**
 * internal/storage/local and internal/storage/temporary: any number of create, clone, run, set, push
 * and delete processes working on the directories of local VMs, coordinated by flock on directories
 * and by the global lock. A lock's holder is the process: none of them locks a directory through two
 * descriptions.
 */
module LocalStore {
  import opened Bytes
  import opened FileLocks

  type Pid = nat
  type Inode = nat
  type Tmp = nat

  /** What a process opens and locks a VM for: run and set exclusively, push and clone shared. */
  datatype Goal =
    | Use(name: string, exclusive: bool)
    | CloneFrom(name: string, dst: string)

  predicate Exclusively(goal: Goal) {
    goal.Use? && goal.exclusive
  }

  /** Where a process is. */
  datatype Phase =
    | Idle
    // runRun, runSet, runPush, runClone: open and lock the directory inside globallock.With
    | Opening(goal: Goal)
    | Opened(goal: Goal, inode: Inode)
    | Acquired(goal: Goal, inode: Inode)
    | Using(goal: Goal, inode: Inode)
    // temporary.CreateFrom and CreateTryLocked
    | TempMade(dst: string, tmp: Tmp, inode: Inode)
    | TempOpened(dst: string, tmp: Tmp, inode: Inode)
    | TempLocked(dst: string, tmp: Tmp, inode: Inode)
    // local.MoveIn inside globallock.With
    | Moving(dst: string, tmp: Tmp, inode: Inode)
    | Exchanged(dst: string, tmp: Tmp, inode: Inode, previous: Inode)
    | Moved
    // local.Delete inside globallock.With
    | DelOpening(name: string)
    | DelOpened(name: string, inode: Inode)
    | DelLocked(name: string, inode: Inode)
    | DelRemoved(name: string, inode: Inode)
    | Deleted
    // temporary.GC, one directory entry at a time
    | GcOpened(tmp: Tmp, inode: Inode)
    | GcLocked(tmp: Tmp, inode: Inode)
    | GcRemoved(tmp: Tmp, inode: Inode)
    | Finished

  /** `next` is the next fresh inode and the next fresh temporary name. */
  datatype State = State(
    locals: map<string, Inode>,
    temps: map<Tmp, Inode>,
    locks: set<Flock>,
    global: Option<Pid>,
    procs: map<Pid, Phase>,
    next: nat
  )

  function PhaseOf(s: State, p: Pid): Phase {
    if p in s.procs then s.procs[p] else Idle
  }

  datatype Event =
    | Enter(p: Pid, goal: Goal)
    | Open(p: Pid)
    | TryLock(p: Pid)
    | Leave(p: Pid)
    | MakeTemp(p: Pid, dst: string)
    | OpenTemp(p: Pid)
    | LockTemp(p: Pid)
    | EnterMove(p: Pid)
    | Rename(p: Pid)
    | Exchange(p: Pid)
    | RemoveOld(p: Pid)
    | DelEnter(p: Pid, name: string)
    | DelOpen(p: Pid)
    | DelTryLock(p: Pid)
    | DelSkip(p: Pid)
    | DelRemove(p: Pid)
    | DelUnlock(p: Pid)
    | DelNext(p: Pid, name: string)
    | GcOpen(p: Pid, tmp: Tmp)
    | GcTryLock(p: Pid)
    | GcSkip(p: Pid)
    | GcRemove(p: Pid)
    | GcUnlock(p: Pid)
    | MoveOut(p: Pid)
    | Exit(p: Pid)

  predicate Enabled(s: State, e: Event) {
    var phase := PhaseOf(s, e.p);
    match e
    case Enter(_, _) => phase.Idle? && s.global.None?
    case Open(_) => phase.Opening? && phase.goal.name in s.locals
    case TryLock(_) => phase.Opened? && Free(s.locks, phase.inode, Exclusively(phase.goal))
    case Leave(_) => phase.Acquired? || phase.Moved? || phase.Deleted?
    case MakeTemp(_, dst) => phase.Idle? || (phase.Using? && phase.goal.CloneFrom? && phase.goal.dst == dst)
    case OpenTemp(_) => phase.TempMade? && phase.tmp in s.temps
    case LockTemp(_) => phase.TempOpened? && Free(s.locks, phase.inode, true)
    case EnterMove(_) => phase.TempLocked? && s.global.None?
    case Rename(_) => phase.Moving? && phase.tmp in s.temps && phase.dst !in s.locals
    case Exchange(_) => phase.Moving? && phase.tmp in s.temps && phase.dst in s.locals
    case RemoveOld(_) => phase.Exchanged?
    case DelEnter(_, _) => phase.Idle? && s.global.None?
    case DelOpen(_) => phase.DelOpening? && phase.name in s.locals
    case DelTryLock(_) => phase.DelOpened? && Free(s.locks, phase.inode, true)
    case DelSkip(_) =>
      || (phase.DelOpening? && phase.name !in s.locals)
      || (phase.DelOpened? && !Free(s.locks, phase.inode, true))
    case DelRemove(_) => phase.DelLocked?
    case DelUnlock(_) => phase.DelRemoved?
    case DelNext(_, _) => phase.Deleted?
    case GcOpen(_, tmp) => phase.Idle? && tmp in s.temps
    case GcTryLock(_) => phase.GcOpened? && Free(s.locks, phase.inode, true)
    case GcSkip(_) => phase.GcOpened? && !Free(s.locks, phase.inode, true)
    case GcRemove(_) => phase.GcLocked?
    case GcUnlock(_) => phase.GcRemoved?
    case MoveOut(_) => phase.Using? && phase.goal.Use? && !phase.goal.exclusive && phase.goal.name in s.locals
    case Exit(_) => e.p in s.procs
  }

  /** The process's next phase. */
  function NextPhase(s: State, e: Event): Phase
    requires Enabled(s, e)
  {
    var phase := PhaseOf(s, e.p);
    match e
    case Enter(_, goal) => Opening(goal)
    case Open(_) => Opened(phase.goal, s.locals[phase.goal.name])
    case TryLock(_) => Acquired(phase.goal, phase.inode)
    case Leave(_) => if phase.Acquired? then Using(phase.goal, phase.inode) else Finished
    case MakeTemp(_, dst) => TempMade(dst, s.next, s.next)
    case OpenTemp(_) => TempOpened(phase.dst, phase.tmp, s.temps[phase.tmp])
    case LockTemp(_) => TempLocked(phase.dst, phase.tmp, phase.inode)
    case EnterMove(_) => Moving(phase.dst, phase.tmp, phase.inode)
    case Rename(_) => Moved
    case Exchange(_) => Exchanged(phase.dst, phase.tmp, phase.inode, s.locals[phase.dst])
    case RemoveOld(_) => Moved
    case DelEnter(_, name) => DelOpening(name)
    case DelOpen(_) => DelOpened(phase.name, s.locals[phase.name])
    case DelTryLock(_) => DelLocked(phase.name, phase.inode)
    case DelSkip(_) => Deleted
    case DelRemove(_) => DelRemoved(phase.name, phase.inode)
    case DelUnlock(_) => Deleted
    case DelNext(_, name) => DelOpening(name)
    case GcOpen(_, tmp) => GcOpened(tmp, s.temps[tmp])
    case GcTryLock(_) => GcLocked(phase.tmp, phase.inode)
    case GcSkip(_) => Idle
    case GcRemove(_) => GcRemoved(phase.tmp, phase.inode)
    case GcUnlock(_) => Idle
    case MoveOut(_) => Finished
    case Exit(_) => Idle
  }

  function NextLocals(s: State, e: Event): map<string, Inode>
    requires Enabled(s, e)
  {
    var phase := PhaseOf(s, e.p);
    match e
    case Rename(_) => s.locals[phase.dst := s.temps[phase.tmp]]
    case Exchange(_) => s.locals[phase.dst := s.temps[phase.tmp]]
    case DelRemove(_) => s.locals - {phase.name}
    case MoveOut(_) => s.locals - {phase.goal.name}
    case _ => s.locals
  }

  function NextTemps(s: State, e: Event): map<Tmp, Inode>
    requires Enabled(s, e)
  {
    var phase := PhaseOf(s, e.p);
    match e
    case MakeTemp(_, _) => s.temps[s.next := s.next]
    case Rename(_) => s.temps - {phase.tmp}
    case Exchange(_) => s.temps[phase.tmp := s.locals[phase.dst]]
    case RemoveOld(_) => s.temps - {phase.tmp}
    case GcRemove(_) => s.temps - {phase.tmp}
    case _ => s.temps
  }

  /** Exiting, normally or by a crash, releases every lock of the process. */
  function NextLocks(s: State, e: Event): set<Flock>
    requires Enabled(s, e)
  {
    var phase := PhaseOf(s, e.p);
    match e
    case TryLock(_) => s.locks + {Flock(e.p, phase.inode, Exclusively(phase.goal))}
    case LockTemp(_) => s.locks + {Flock(e.p, phase.inode, true)}
    case DelTryLock(_) => s.locks + {Flock(e.p, phase.inode, true)}
    case GcTryLock(_) => s.locks + {Flock(e.p, phase.inode, true)}
    case DelUnlock(_) => s.locks - {Flock(e.p, phase.inode, true)}
    case GcUnlock(_) => s.locks - {Flock(e.p, phase.inode, true)}
    case Exit(_) => set l <- s.locks | l.holder != e.p
    case _ => s.locks
  }

  function NextGlobal(s: State, e: Event): Option<Pid>
    requires Enabled(s, e)
  {
    match e
    case Enter(_, _) => Some(e.p)
    case EnterMove(_) => Some(e.p)
    case DelEnter(_, _) => Some(e.p)
    case Leave(_) => None
    case Exit(_) => if s.global == Some(e.p) then None else s.global
    case _ => s.global
  }

  function Step(s: State, e: Event): State
    requires Enabled(s, e)
  {
    State(NextLocals(s, e), NextTemps(s, e), NextLocks(s, e), NextGlobal(s, e),
          if e.Exit? then s.procs - {e.p} else s.procs[e.p := NextPhase(s, e)],
          if e.MakeTemp? then s.next + 1 else s.next)
  }

  function Run(s: State, events: seq<Event>): Option<State>
    decreases |events|
  {
    if events == [] then Some(s)
    else if Enabled(s, events[0]) then Run(Step(s, events[0]), events[1..])
    else None
  }

  // ---- Invariants ----

  predicate InSection(phase: Phase) {
    || phase.Opening? || phase.Opened? || phase.Acquired?
    || phase.Moving? || phase.Exchanged? || phase.Moved?
    || phase.DelOpening? || phase.DelOpened? || phase.DelLocked? || phase.DelRemoved? || phase.Deleted?
  }

  /** The lock a phase relies on. */
  function HeldLock(p: Pid, phase: Phase): Option<Flock> {
    match phase
    case Acquired(goal, inode) => Some(Flock(p, inode, Exclusively(goal)))
    case Using(goal, inode) => Some(Flock(p, inode, Exclusively(goal)))
    case TempLocked(_, _, inode) => Some(Flock(p, inode, true))
    case Moving(_, _, inode) => Some(Flock(p, inode, true))
    case Exchanged(_, _, inode, _) => Some(Flock(p, inode, true))
    case DelLocked(_, inode) => Some(Flock(p, inode, true))
    case DelRemoved(_, inode) => Some(Flock(p, inode, true))
    case GcLocked(_, inode) => Some(Flock(p, inode, true))
    case GcRemoved(_, inode) => Some(Flock(p, inode, true))
    case _ => None
  }

  /** The process has made a temporary directory that it has not published yet, or not cleaned up. */
  predicate Creating(phase: Phase) {
    phase.TempMade? || phase.TempOpened? || phase.TempLocked? || phase.Moving? || phase.Exchanged?
  }

  predicate Collecting(phase: Phase) {
    phase.GcOpened? || phase.GcLocked?
  }

  /** The global lock is exclusive. */
  ghost predicate SectionInv(s: State) {
    forall p :: p in s.procs && InSection(s.procs[p]) ==> s.global == Some(p)
  }

  /** An exclusively locked inode has no other lock, and processes hold the locks they rely on. */
  ghost predicate LockInv(s: State) {
    && Sound(s.locks)
    && (forall p :: p in s.procs && HeldLock(p, s.procs[p]).Some? ==> HeldLock(p, s.procs[p]).value in s.locks)
  }

  /** Collectors and deletes have no lock but that on the directory they are at. */
  predicate MayHold(p: Pid, phase: Phase, l: Flock) {
    && !phase.Idle? && !phase.GcOpened? && !phase.DelOpening? && !phase.DelOpened? && !phase.Deleted?
    && (phase.GcLocked? || phase.GcRemoved? || phase.DelLocked? || phase.DelRemoved? ==>
         HeldLock(p, phase) == Some(l))
  }

  ghost predicate HolderInv(s: State) {
    forall l :: l in s.locks ==> MayHold(l.holder, PhaseOf(s, l.holder), l)
  }

  /** The name a process opened a directory by, as long as it works on it inside its critical section. */
  function OpenedName(phase: Phase): Option<(string, Inode)> {
    match phase
    case Opened(goal, inode) => Some((goal.name, inode))
    case Acquired(goal, inode) => Some((goal.name, inode))
    case DelOpened(name, inode) => Some((name, inode))
    case DelLocked(name, inode) => Some((name, inode))
    case _ => None
  }

  /** A directory opened inside a critical section is not replaced under its name in that section. */
  ghost predicate OpenedInv(s: State) {
    forall p | p in s.procs && OpenedName(s.procs[p]).Some? && OpenedName(s.procs[p]).value.0 in s.locals ::
      s.locals[OpenedName(s.procs[p]).value.0] == OpenedName(s.procs[p]).value.1
  }

  /** What a creator's temporary name leads to, if it still exists. */
  function TempInode(phase: Phase): Inode
    requires Creating(phase)
  {
    if phase.Exchanged? then phase.previous else phase.inode
  }

  /** Temporary names are unique to their creators. */
  ghost predicate NameInv(s: State) {
    && (forall t :: t in s.temps ==> t < s.next)
    && (forall p | p in s.procs && (Creating(s.procs[p]) || Collecting(s.procs[p])) :: s.procs[p].tmp < s.next)
    && (forall p, q | p in s.procs && q in s.procs && p != q && Creating(s.procs[p]) && Creating(s.procs[q]) ::
         s.procs[p].tmp != s.procs[q].tmp)
  }

  ghost predicate TempInv(s: State) {
    forall p | p in s.procs && Creating(s.procs[p]) && s.procs[p].tmp in s.temps ::
      s.temps[s.procs[p].tmp] == TempInode(s.procs[p])
  }

  /** A collector has opened what the creator made, or what its exchange left behind. */
  ghost predicate CollectInv(s: State) {
    forall g, c | g in s.procs && c in s.procs && Collecting(s.procs[g]) && Creating(s.procs[c]) :: Traced(s, g, c)
  }

  predicate Traced(s: State, g: Pid, c: Pid)
    requires g in s.procs && c in s.procs && Collecting(s.procs[g]) && Creating(s.procs[c])
  {
    s.procs[g].tmp == s.procs[c].tmp ==>
      s.procs[g].inode == s.procs[c].inode || s.procs[g].inode == TempInode(s.procs[c])
  }

  ghost predicate Inv(s: State) {
    SectionInv(s) && LockInv(s) && HolderInv(s) && OpenedInv(s) && NameInv(s) && TempInv(s) && CollectInv(s)
  }

  lemma SectionKept(s: State, e: Event)
    requires SectionInv(s) && Enabled(s, e)
    ensures SectionInv(Step(s, e))
  {
    hide NextLocals;
    hide NextTemps;
    hide NextLocks;
  }

  lemma OwnLocks(s: State, e: Event)
    requires Enabled(s, e) && (e.p in s.procs && HeldLock(e.p, s.procs[e.p]).Some? ==>
                                 HeldLock(e.p, s.procs[e.p]).value in s.locks)
    ensures !e.Exit? && HeldLock(e.p, NextPhase(s, e)).Some? ==>
              HeldLock(e.p, NextPhase(s, e)).value in NextLocks(s, e)
  {}

  lemma LocksStayExclusive(s: State, e: Event)
    requires LockInv(s) && Enabled(s, e)
    ensures Sound(NextLocks(s, e))
  {}

  lemma OthersKeepLocks(s: State, e: Event, l: Flock)
    requires Enabled(s, e) && l in s.locks && l.holder != e.p
    ensures l in NextLocks(s, e)
  {}

  lemma LocksKept(s: State, e: Event)
    requires LockInv(s) && Enabled(s, e)
    ensures LockInv(Step(s, e))
  {
    LocksStayExclusive(s, e);
    OwnLocks(s, e);
    hide NextPhase;
    hide NextLocks;
    hide NextLocals;
    hide NextTemps;
    hide NextGlobal;
    hide HeldLock;
    hide Enabled;
    var s' := Step(s, e);
    forall p | p in s'.procs && HeldLock(p, s'.procs[p]).Some?
      ensures HeldLock(p, s'.procs[p]).value in s'.locks
    {
      if p != e.p {
        OthersKeepLocks(s, e, HeldLock(p, s.procs[p]).value);
      }
    }
  }

  lemma NextLockMayBeHeld(s: State, e: Event, l: Flock)
    requires HolderInv(s) && Enabled(s, e) && l in NextLocks(s, e)
    ensures if l.holder == e.p then !e.Exit? && MayHold(e.p, NextPhase(s, e), l) else l in s.locks
  {
    assert l in s.locks ==> MayHold(l.holder, PhaseOf(s, l.holder), l);
  }

  lemma HoldersKept(s: State, e: Event)
    requires HolderInv(s) && Enabled(s, e)
    ensures HolderInv(Step(s, e))
  {
    hide NextPhase;
    hide NextLocks;
    hide NextLocals;
    hide NextTemps;
    hide NextGlobal;
    hide Enabled;
    hide MayHold;
    var s' := Step(s, e);
    forall l | l in s'.locks
      ensures MayHold(l.holder, PhaseOf(s', l.holder), l)
    {
      NextLockMayBeHeld(s, e, l);
    }
  }

  /** Outside a critical section names only disappear. */
  lemma LocalsChangeInSection(s: State, e: Event, name: string)
    requires Enabled(s, e) && name in NextLocals(s, e)
    ensures (name in s.locals && NextLocals(s, e)[name] == s.locals[name]) || InSection(PhaseOf(s, e.p))
  {}

  lemma OpenedWhereItIs(s: State, e: Event)
    requires Enabled(s, e) && OpenedName(NextPhase(s, e)).Some?
    ensures NextLocals(s, e) == s.locals
    ensures var (name, inode) := OpenedName(NextPhase(s, e)).value;
            || (name in s.locals && inode == s.locals[name])
            || OpenedName(PhaseOf(s, e.p)) == OpenedName(NextPhase(s, e))
  {}

  lemma OpenedKept(s: State, e: Event)
    requires SectionInv(s) && OpenedInv(s) && Enabled(s, e)
    ensures OpenedInv(Step(s, e))
  {
    hide NextPhase;
    hide NextLocals;
    hide NextTemps;
    hide NextLocks;
    hide NextGlobal;
    hide Enabled;
    var s' := Step(s, e);
    forall p | p in s'.procs && OpenedName(s'.procs[p]).Some? && OpenedName(s'.procs[p]).value.0 in s'.locals
      ensures s'.locals[OpenedName(s'.procs[p]).value.0] == OpenedName(s'.procs[p]).value.1
    {
      if p == e.p {
        OpenedWhereItIs(s, e);
      } else {
        LocalsChangeInSection(s, e, OpenedName(s.procs[p]).value.0);
      }
    }
  }

  /** A step gives a process the fresh temporary name, or one that existed, or leaves it its own. */
  lemma NextTmp(s: State, e: Event)
    requires NameInv(s) && Enabled(s, e)
    ensures Creating(NextPhase(s, e)) ==>
              if e.MakeTemp? then NextPhase(s, e).tmp == s.next
              else Creating(PhaseOf(s, e.p)) && NextPhase(s, e).tmp == PhaseOf(s, e.p).tmp
    ensures Collecting(NextPhase(s, e)) ==> NextPhase(s, e).tmp < s.next
    ensures NextTemps(s, e).Keys <= s.temps.Keys + if e.MakeTemp? then {s.next} else {}
  {}

  lemma NamesKept(s: State, e: Event)
    requires NameInv(s) && Enabled(s, e)
    ensures NameInv(Step(s, e))
  {
    NextTmp(s, e);
    hide NextPhase;
    hide NextLocals;
    hide NextTemps;
    hide NextLocks;
    hide NextGlobal;
    hide Enabled;
  }

  /** A temporary name keeps leading to the same directory, unless its creator exchanges it. */
  lemma NextTempsValue(s: State, e: Event, t: Tmp)
    requires NameInv(s) && Enabled(s, e) && t in NextTemps(s, e)
    ensures t in s.temps || (e.MakeTemp? && t == s.next && NextTemps(s, e)[t] == s.next)
    ensures t in s.temps ==>
              NextTemps(s, e)[t] == if e.Exchange? && PhaseOf(s, e.p).tmp == t then s.locals[PhaseOf(s, e.p).dst]
                                    else s.temps[t]
  {}

  lemma NextTempInode(s: State, e: Event)
    requires Enabled(s, e) && Creating(NextPhase(s, e))
    ensures match e
            case MakeTemp(_, _) => TempInode(NextPhase(s, e)) == s.next
            case OpenTemp(_) => TempInode(NextPhase(s, e)) == s.temps[PhaseOf(s, e.p).tmp]
            case Exchange(_) => TempInode(NextPhase(s, e)) == s.locals[PhaseOf(s, e.p).dst]
            case _ => Creating(PhaseOf(s, e.p)) && TempInode(NextPhase(s, e)) == TempInode(PhaseOf(s, e.p))
  {}

  lemma TempsKept(s: State, e: Event)
    requires NameInv(s) && TempInv(s) && Enabled(s, e)
    ensures TempInv(Step(s, e))
  {
    hide NextPhase;
    hide NextTemps;
    hide NextLocals;
    hide NextLocks;
    hide NextGlobal;
    hide TempInode;
    NextTmp(s, e);
    if Creating(NextPhase(s, e)) {
      NextTempInode(s, e);
    }
    var s' := Step(s, e);
    forall p | p in s'.procs && Creating(s'.procs[p]) && s'.procs[p].tmp in s'.temps
      ensures s'.temps[s'.procs[p].tmp] == TempInode(s'.procs[p])
    {
      NextTempsValue(s, e, s'.procs[p].tmp);
    }
  }

  lemma CollectsKept(s: State, e: Event)
    requires NameInv(s) && TempInv(s) && CollectInv(s) && Enabled(s, e)
    ensures CollectInv(Step(s, e))
  {
    hide NextLocals;
    hide NextTemps;
    hide NextLocks;
    hide NextGlobal;
    var s' := Step(s, e);
    forall g, c | g in s'.procs && c in s'.procs && Collecting(s'.procs[g]) && Creating(s'.procs[c])
      ensures Traced(s', g, c)
    {
      TraceKept(s, e, g, c);
    }
  }

  /** A creator keeps working on the directory it made. */
  lemma CreatorKeepsInode(s: State, e: Event)
    requires TempInv(s) && Enabled(s, e) && Creating(NextPhase(s, e)) && !e.MakeTemp?
    ensures var before, after := PhaseOf(s, e.p), NextPhase(s, e);
            && Creating(before) && after.tmp == before.tmp && after.inode == before.inode
            && (TempInode(before) == before.inode || TempInode(after) == TempInode(before))
  {}

  lemma CollectorKeepsInode(s: State, e: Event)
    requires Enabled(s, e) && Collecting(NextPhase(s, e))
    ensures var before, after := PhaseOf(s, e.p), NextPhase(s, e);
            if e.GcOpen? then after.tmp in s.temps && after.inode == s.temps[after.tmp]
            else Collecting(before) && after.tmp == before.tmp && after.inode == before.inode
  {}

  lemma TraceKept(s: State, e: Event, g: Pid, c: Pid)
    requires NameInv(s) && TempInv(s) && CollectInv(s) && Enabled(s, e)
    requires g in Step(s, e).procs && c in Step(s, e).procs
    requires Collecting(Step(s, e).procs[g]) && Creating(Step(s, e).procs[c])
    ensures Traced(Step(s, e), g, c)
  {
    hide NextPhase;
    hide NextLocals;
    hide NextTemps;
    hide NextLocks;
    hide NextGlobal;
    hide TempInode;
    hide Enabled;
    NextTmp(s, e);
    if e.p == g {
      CollectorKeepsInode(s, e);
    } else if e.p == c && !e.MakeTemp? {
      CreatorKeepsInode(s, e);
    }
  }

  lemma StepKeepsInv(s: State, e: Event)
    requires Inv(s) && Enabled(s, e)
    ensures Inv(Step(s, e))
  {
    hide Step;
    hide Enabled;
    SectionKept(s, e);
    LocksKept(s, e);
    HoldersKept(s, e);
    OpenedKept(s, e);
    NamesKept(s, e);
    TempsKept(s, e);
    CollectsKept(s, e);
  }

  lemma {:induction false} RunKeepsInv(s: State, events: seq<Event>)
    requires Inv(s) && Run(s, events).Some?
    ensures Inv(Run(s, events).value)
    decreases |events|
  {
    hide Step;
    hide Enabled;
    hide Inv;
    if events != [] {
      StepKeepsInv(s, events[0]);
      RunKeepsInv(Step(s, events[0]), events[1..]);
    }
  }

  /** A store with some published VMs and leftovers of crashed processes, and nobody working on it. */
  ghost predicate Quiet(s: State) {
    s.locks == {} && s.global == None && s.procs == map[] && forall t :: t in s.temps ==> t < s.next
  }

  lemma QuietIsInv(s: State)
    requires Quiet(s)
    ensures Inv(s)
  {}

  // ---- Safety over all interleavings ----

  /** Whatever delete removes, no other process holds a lock on. */
  lemma DeleteRemovesOnlyItsOwn(start: State, events: seq<Event>, p: Pid)
    requires Quiet(start) && Run(start, events).Some?
    requires var s := Run(start, events).value;
             Enabled(s, DelRemove(p)) && PhaseOf(s, p).name in s.locals
    ensures var s := Run(start, events).value;
            forall l :: l in s.locks && l.inode == s.locals[PhaseOf(s, p).name] ==> l.holder == p
  {
    QuietIsInv(start);
    RunKeepsInv(start, events);
    var s := Run(start, events).value;
    assert HeldLock(p, s.procs[p]).value in s.locks;
  }

  /** The event puts a directory onto the name, or takes it away under the name without locking it. */
  predicate Rebinds(s: State, e: Event, name: string)
    requires Enabled(s, e)
  {
    var phase := PhaseOf(s, e.p);
    || ((e.Rename? || e.Exchange?) && phase.dst == name)
    || (e.MoveOut? && phase.goal.name == name)
  }

  predicate NeverRebinds(s: State, events: seq<Event>, name: string)
    requires Run(s, events).Some?
    decreases |events|
  {
    events != [] ==> !Rebinds(s, events[0], name) && NeverRebinds(Step(s, events[0]), events[1..], name)
  }

  /** The process has the directory open and exclusively locked: run or set, until it ends. */
  predicate UsesExclusively(s: State, p: Pid, name: string, inode: Inode) {
    p in s.procs && s.procs[p] == Using(Use(name, true), inode)
  }

  /** Apart from rebinding, only a deletion changes what a name leads to. */
  lemma NextLocalsOf(s: State, e: Event, name: string)
    requires Enabled(s, e) && !Rebinds(s, e, name) && name in s.locals
    ensures || (e.DelRemove? && PhaseOf(s, e.p).name == name)
            || (name in NextLocals(s, e) && NextLocals(s, e)[name] == s.locals[name])
  {}

  lemma UsersOnlyExit(s: State, e: Event, name: string, inode: Inode)
    requires Enabled(s, e) && UsesExclusively(s, e.p, name, inode)
    ensures e.Exit?
  {}

  lemma UsedStaysLinkedStep(s: State, e: Event, p: Pid, name: string, inode: Inode)
    requires Inv(s) && Enabled(s, e) && !Rebinds(s, e, name)
    requires UsesExclusively(s, p, name, inode) && name in s.locals && s.locals[name] == inode
    ensures name in Step(s, e).locals && Step(s, e).locals[name] == inode
    ensures UsesExclusively(Step(s, e), p, name, inode) || e == Exit(p)
  {
    hide NextPhase;
    hide NextLocals;
    hide NextTemps;
    hide NextLocks;
    hide NextGlobal;
    hide Rebinds;
    hide HolderInv;
    hide NameInv;
    hide TempInv;
    hide CollectInv;
    NextLocalsOf(s, e, name);
    assert HeldLock(p, s.procs[p]).value in s.locks;
    if e.p == p {
      UsersOnlyExit(s, e, name, inode);
    }
    if e.DelRemove? {
      assert HeldLock(e.p, s.procs[e.p]).value in s.locks;
    }
  }

  /**
   * A directory locked by run or set stays where it is: in every interleaving in which nothing is
   * moved onto its name or out of it, the name keeps leading to it until the process ends.
   */
  lemma {:induction false} UsedStaysLinked(s: State, events: seq<Event>, p: Pid, name: string, inode: Inode)
    requires Inv(s) && Run(s, events).Some? && NeverRebinds(s, events, name)
    requires UsesExclusively(s, p, name, inode) && name in s.locals && s.locals[name] == inode
    requires forall i :: 0 <= i < |events| ==> events[i] != Exit(p)
    ensures var s' := Run(s, events).value; name in s'.locals && s'.locals[name] == inode
    decreases |events|
  {
    hide Step;
    hide Enabled;
    hide Inv;
    hide Rebinds;
    hide UsesExclusively;
    if events != [] {
      UsedStaysLinkedStep(s, events[0], p, name, inode);
      StepKeepsInv(s, events[0]);
      UsedStaysLinked(Step(s, events[0]), events[1..], p, name, inode);
    }
  }

  /**
   * When run or set leaves the section in which it opened and locked a directory, the name leads to
   * that directory, unless push has moved it out in between.
   */
  lemma UseStartsLinked(start: State, events: seq<Event>, p: Pid)
    requires Quiet(start) && Run(start, events).Some?
    requires var s := Run(start, events).value;
             p in s.procs && s.procs[p].Acquired? && s.procs[p].goal.name in s.locals
    ensures var s := Run(start, events).value;
            s.locals[s.procs[p].goal.name] == s.procs[p].inode
  {
    QuietIsInv(start);
    RunKeepsInv(start, events);
  }

  /** Temporary GC never removes a directory on which the process that made its name holds a lock. */
  lemma CollectionSparesCreators(start: State, events: seq<Event>, g: Pid, c: Pid)
    requires Quiet(start) && Run(start, events).Some?
    requires var s := Run(start, events).value;
             && Enabled(s, GcRemove(g)) && c in s.procs && Creating(s.procs[c])
             && s.procs[c].tmp == PhaseOf(s, g).tmp && s.procs[c].tmp in s.temps
    ensures var s := Run(start, events).value;
            forall l :: l in s.locks && l.holder == c ==> l.inode != s.temps[s.procs[c].tmp]
  {
    QuietIsInv(start);
    RunKeepsInv(start, events);
    var s := Run(start, events).value;
    assert Traced(s, g, c);
    assert HeldLock(g, s.procs[g]).value in s.locks;
    if HeldLock(c, s.procs[c]).Some? {
      assert HeldLock(c, s.procs[c]).value in s.locks;
    }
  }

  // ---- Collection over all interleavings ----

  lemma TempsAppearFresh(s: State, e: Event)
    requires Enabled(s, e)
    ensures NextTemps(s, e).Keys <= s.temps.Keys + if e.MakeTemp? then {s.next} else {}
  {}

  /** A temporary name that is gone never comes back. */
  lemma {:induction false} GoneStaysGone(s: State, events: seq<Event>, tmp: Tmp)
    requires Run(s, events).Some? && tmp < s.next && tmp !in s.temps
    ensures tmp !in Run(s, events).value.temps
    decreases |events|
  {
    hide Enabled;
    hide NextPhase;
    hide NextLocals;
    hide NextTemps;
    hide NextLocks;
    hide NextGlobal;
    if events != [] {
      TempsAppearFresh(s, events[0]);
      assert tmp !in Step(s, events[0]).temps.Keys;
      GoneStaysGone(Step(s, events[0]), events[1..], tmp);
    }
  }

  /** At some point of the run the collector gives up because another process has the directory locked. */
  ghost predicate TurnedAway(s: State, events: seq<Event>, g: Pid, inode: Inode)
    requires Run(s, events).Some?
    decreases |events|
  {
    && events != []
    && (|| (events[0] == GcSkip(g) && exists l :: l in s.locks && l.inode == inode && l.holder != g)
        || TurnedAway(Step(s, events[0]), events[1..], g, inode))
  }

  lemma CollectorGoesOn(s: State, e: Event, tmp: Tmp, inode: Inode)
    requires Enabled(s, e) && !e.Exit? && !e.GcSkip?
    requires PhaseOf(s, e.p) == GcOpened(tmp, inode) || PhaseOf(s, e.p) == GcLocked(tmp, inode)
    ensures NextPhase(s, e) == GcLocked(tmp, inode) || tmp !in NextTemps(s, e)
  {}

  lemma SkipsOnlyTaken(s: State, g: Pid)
    requires Enabled(s, GcSkip(g))
    ensures PhaseOf(s, g).GcOpened? && !Free(s.locks, PhaseOf(s, g).inode, true)
  {}

  /** The collector's own step: it gives up on a locked directory, or goes on to remove it. */
  lemma CollectorMoves(s: State, e: Event, tmp: Tmp, inode: Inode)
    requires HolderInv(s) && Enabled(s, e) && !e.Exit?
    requires PhaseOf(s, e.p) == GcOpened(tmp, inode) || PhaseOf(s, e.p) == GcLocked(tmp, inode)
    ensures if e.GcSkip? then exists l :: l in s.locks && l.inode == inode && l.holder != e.p
            else PhaseOf(Step(s, e), e.p) == GcLocked(tmp, inode) || tmp !in Step(s, e).temps
  {
    hide HolderInv;
    hide Enabled;
    hide NextPhase;
    hide NextLocals;
    hide NextTemps;
    hide NextLocks;
    hide NextGlobal;
    if e.GcSkip? {
      SkipsOnlyTaken(s, e.p);
      HolderOfTaken(s, e.p, inode);
    } else {
      CollectorGoesOn(s, e, tmp, inode);
    }
  }

  lemma HolderOfTaken(s: State, g: Pid, inode: Inode)
    requires HolderInv(s) && (PhaseOf(s, g).GcOpened? || PhaseOf(s, g).DelOpened?) && !Free(s.locks, inode, true)
    ensures exists l :: l in s.locks && l.inode == inode && l.holder != g
  {
    var l :| l in s.locks && l.inode == inode;
    assert MayHold(l.holder, PhaseOf(s, l.holder), l);
  }

  lemma HoldersOf(s: State)
    requires Inv(s)
    ensures HolderInv(s)
  {}

  lemma {:induction false} CollectorsTurn(s: State, events: seq<Event>, g: Pid, tmp: Tmp, inode: Inode)
    requires Inv(s) && Run(s, events).Some? && tmp < s.next && Exit(g) !in events
    requires PhaseOf(s, g) == GcOpened(tmp, inode) || PhaseOf(s, g) == GcLocked(tmp, inode)
    requires PhaseOf(Run(s, events).value, g).Idle?
    ensures tmp !in Run(s, events).value.temps || TurnedAway(s, events, g, inode)
    decreases |events|
  {
    hide Inv;
    hide Enabled;
    hide NextPhase;
    hide NextLocals;
    hide NextTemps;
    hide NextLocks;
    hide NextGlobal;
    var e := events[0];
    StepKeepsInv(s, e);
    assert e in events;
    if e.p == g {
      HoldersOf(s);
      CollectorMoves(s, e, tmp, inode);
    }
    if tmp !in Step(s, e).temps {
      GoneStaysGone(Step(s, e), events[1..], tmp);
    } else if e != GcSkip(g) {
      CollectorsTurn(Step(s, e), events[1..], g, tmp, inode);
    }
  }

  /**
   * In every interleaving, once a collector is through with a temporary name it has opened, that name
   * is gone, unless another process had the directory locked when the collector tried.
   */
  lemma UnlockedLeftoverIsCollected(start: State, before: seq<Event>, events: seq<Event>, g: Pid, tmp: Tmp, inode: Inode)
    requires Quiet(start) && Run(start, before).Some?
    requires var s := Run(start, before).value;
             && PhaseOf(s, g) == GcOpened(tmp, inode)
             && Run(s, events).Some? && Exit(g) !in events && PhaseOf(Run(s, events).value, g).Idle?
    ensures var s := Run(start, before).value;
            tmp !in Run(s, events).value.temps || TurnedAway(s, events, g, inode)
  {
    QuietIsInv(start);
    RunKeepsInv(start, before);
    CollectorsTurn(Run(start, before).value, events, g, tmp, inode);
  }

  // ---- Publishing ----

  /**
   * MoveIn makes the name lead to the directory its process made and has locked; what it led to before
   * is left, whole, under the temporary name.
   */
  ghost predicate Publishes(s: State, e: Event, name: string, inode: Inode)
    requires Enabled(s, e)
  {
    && (e.Rename? || e.Exchange?)
    && var phase, s' := PhaseOf(s, e.p), Step(s, e);
       && phase.dst == name && phase.inode == inode
       && s.global == Some(e.p) && Flock(e.p, inode, true) in s'.locks
       && (if name in s.locals then phase.tmp in s'.temps && s'.temps[phase.tmp] == s.locals[name]
           else phase.tmp !in s'.temps)
  }

  /** The name goes: delete, having locked the very directory it leads to, or push, into the cache. */
  predicate Removes(s: State, e: Event, name: string)
    requires Enabled(s, e) && name in s.locals
  {
    var phase := PhaseOf(s, e.p);
    (e.DelRemove? && phase == DelLocked(name, s.locals[name])) || (e.MoveOut? && phase.goal.name == name)
  }

  lemma NameStep(s: State, e: Event, name: string)
    requires Inv(s) && Enabled(s, e)
    ensures name in s.locals && !Removes(s, e, name) ==> name in Step(s, e).locals
    ensures name in Step(s, e).locals ==>
              || (name in s.locals && Step(s, e).locals[name] == s.locals[name])
              || Publishes(s, e, name, Step(s, e).locals[name])
  {
    hide HolderInv;
    hide NameInv;
    hide CollectInv;
    if e.Rename? || e.Exchange? {
      assert HeldLock(e.p, s.procs[e.p]).value in s.locks;
    }
  }

  /** At some point of the run the name is made to lead to the directory. */
  ghost predicate PublishedIn(s: State, events: seq<Event>, name: string, inode: Inode)
    requires Run(s, events).Some?
    decreases |events|
  {
    && events != []
    && (Publishes(s, events[0], name, inode) || PublishedIn(Step(s, events[0]), events[1..], name, inode))
  }

  ghost predicate NeverRemoved(s: State, events: seq<Event>, name: string)
    requires Run(s, events).Some?
    decreases |events|
  {
    events != [] ==>
      && (name in s.locals ==> !Removes(s, events[0], name))
      && NeverRemoved(Step(s, events[0]), events[1..], name)
  }

  lemma {:induction false} NamesOverRun(s: State, events: seq<Event>, name: string)
    requires Inv(s) && Run(s, events).Some?
    ensures var s' := Run(s, events).value;
            && (name in s.locals && NeverRemoved(s, events, name) ==> name in s'.locals)
            && (name in s'.locals ==>
                 || (name in s.locals && s'.locals[name] == s.locals[name])
                 || PublishedIn(s, events, name, s'.locals[name]))
    decreases |events|
  {
    hide Inv;
    hide Enabled;
    hide Step;
    hide Publishes;
    hide Removes;
    if events != [] {
      NameStep(s, events[0], name);
      StepKeepsInv(s, events[0]);
      NamesOverRun(Step(s, events[0]), events[1..], name);
    }
  }

  /**
   * Publishing is atomic in every run, crashes included: between any two of its points, a name that was
   * there is still there unless it has been deleted or moved out in between, and it leads where it did
   * or to a directory that its maker, holding its lock, has published in between.
   */
  lemma PublishIsAtomic(start: State, before: seq<Event>, events: seq<Event>, name: string)
    requires Quiet(start) && Run(start, before).Some? && Run(Run(start, before).value, events).Some?
    ensures var s, s' := Run(start, before).value, Run(Run(start, before).value, events).value;
            && (name in s.locals && NeverRemoved(s, events, name) ==> name in s'.locals)
            && (name in s'.locals ==>
                 || (name in s.locals && s'.locals[name] == s.locals[name])
                 || PublishedIn(s, events, name, s'.locals[name]))
  {
    QuietIsInv(start);
    RunKeepsInv(start, before);
    NamesOverRun(Run(start, before).value, events, name);
  }

  /** MoveIn puts its directory under the name, and touches no other. */
  lemma PublishTakesEffect(s: State, e: Event)
    requires Inv(s) && Enabled(s, e) && (e.Rename? || e.Exchange?)
    ensures var phase, s' := PhaseOf(s, e.p), Step(s, e);
            && s'.locals == s.locals[phase.dst := phase.inode]
            && Publishes(s, e, phase.dst, phase.inode)
  {
    hide HolderInv;
    hide NameInv;
    hide OpenedInv;
    hide CollectInv;
    assert HeldLock(e.p, s.procs[e.p]).value in s.locks;
  }

  // ---- Deletion over all interleavings ----

  /** Deleting removes the name, and no other. */
  lemma DeleteTakesEffect(s: State, p: Pid)
    requires Enabled(s, DelRemove(p))
    ensures Step(s, DelRemove(p)).locals == s.locals - {PhaseOf(s, p).name}
    ensures Step(s, DelRemove(p)).temps == s.temps
  {}

  /** In every run a name that has been deleted is absent at every later point, unless it is published again. */
  lemma DeletionLasts(start: State, before: seq<Event>, p: Pid, after: seq<Event>)
    requires Quiet(start) && Run(start, before).Some?
    requires Enabled(Run(start, before).value, DelRemove(p))
    requires Run(Step(Run(start, before).value, DelRemove(p)), after).Some?
    ensures var s := Run(start, before).value;
            var name, s1 := PhaseOf(s, p).name, Step(s, DelRemove(p));
            var s2 := Run(s1, after).value;
            && name !in s1.locals
            && (name in s2.locals ==> PublishedIn(s1, after, name, s2.locals[name]))
  {
    QuietIsInv(start);
    RunKeepsInv(start, before);
    var s := Run(start, before).value;
    hide Inv;
    hide Enabled;
    hide NextPhase;
    hide NextLocals;
    hide NextTemps;
    hide NextLocks;
    hide NextGlobal;
    DeleteTakesEffect(s, p);
    StepKeepsInv(s, DelRemove(p));
    NamesOverRun(Step(s, DelRemove(p)), after, PhaseOf(s, p).name);
  }

  predicate Deleting(phase: Phase, name: string) {
    || phase == DelOpening(name)
    || (phase.DelOpened? && phase.name == name)
    || (phase.DelLocked? && phase.name == name)
  }

  /** The delete gives up on the name because another process has the directory under it locked. */
  ghost predicate SkipsLocked(s: State, e: Event, p: Pid, name: string) {
    && e == DelSkip(p) && name in s.locals
    && exists l :: l in s.locks && l.inode == s.locals[name] && l.holder != p
  }

  ghost predicate DeleteTurnedAway(s: State, events: seq<Event>, p: Pid, name: string)
    requires Run(s, events).Some?
    decreases |events|
  {
    && events != []
    && (SkipsLocked(s, events[0], p, name) || DeleteTurnedAway(Step(s, events[0]), events[1..], p, name))
  }

  /** The phases of a delete that is past the name, or on it while the name is gone. */
  predicate PastDeleting(s: State, p: Pid, name: string) {
    name !in s.locals && (Deleting(PhaseOf(s, p), name) || PhaseOf(s, p).DelRemoved? || PhaseOf(s, p).Deleted?)
  }

  lemma DeleteOwnStep(s: State, e: Event, name: string)
    requires Enabled(s, e) && !e.Exit? && !e.DelNext? && !e.Leave?
    requires Deleting(PhaseOf(s, e.p), name) || PastDeleting(s, e.p, name)
    ensures Deleting(NextPhase(s, e), name) || NextPhase(s, e).DelRemoved? || NextPhase(s, e).Deleted?
    ensures NextLocals(s, e) == if e.DelRemove? then s.locals - {PhaseOf(s, e.p).name} else s.locals
    ensures e.DelSkip? || (e.DelRemove? && PhaseOf(s, e.p).name == name) || PastDeleting(s, e.p, name)
         || Deleting(NextPhase(s, e), name)
    ensures e.DelSkip? ==>
              || (PhaseOf(s, e.p) == DelOpening(name) && name !in s.locals)
              || PastDeleting(s, e.p, name)
              || (PhaseOf(s, e.p).DelOpened? && PhaseOf(s, e.p).name == name && !Free(s.locks, PhaseOf(s, e.p).inode, true))
  {}

  /** Nobody publishes while another process is in its critical section. */
  lemma OthersOnlyRemove(s: State, e: Event, p: Pid, name: string)
    requires SectionInv(s) && Enabled(s, e) && e.p != p && p in s.procs && InSection(s.procs[p])
    ensures name in NextLocals(s, e) ==> name in s.locals
  {
    if name in NextLocals(s, e) {
      LocalsChangeInSection(s, e, name);
    }
  }

  lemma OpenedIsLinked(s: State, p: Pid, name: string)
    requires OpenedInv(s) && PhaseOf(s, p).DelOpened? && PhaseOf(s, p).name == name && name in s.locals
    ensures PhaseOf(s, p).inode == s.locals[name]
  {
    assert OpenedName(s.procs[p]).Some?;
  }

  /** One step while a delete is at a name: it stays there, or the name is gone, or the directory is locked. */
  lemma DeleteStep(s: State, e: Event, p: Pid, name: string)
    requires Inv(s) && Enabled(s, e) && e != Exit(p) && e != Leave(p) && !(e.DelNext? && e.p == p)
    requires Deleting(PhaseOf(s, p), name) || PastDeleting(s, p, name)
    ensures || SkipsLocked(s, e, p, name)
            || Deleting(PhaseOf(Step(s, e), p), name)
            || PastDeleting(Step(s, e), p, name)
    ensures PastDeleting(s, p, name) ==> PastDeleting(Step(s, e), p, name)
  {
    hide NextPhase;
    hide NextLocals;
    hide NextTemps;
    hide NextLocks;
    hide NextGlobal;
    hide Enabled;
    hide HolderInv;
    hide OpenedInv;
    hide LockInv;
    hide NameInv;
    hide TempInv;
    hide CollectInv;
    if e.p == p {
      DeleteOwnStep(s, e, name);
      if e.DelSkip? && PhaseOf(s, p).DelOpened? && name in s.locals {
        OpenedIsLinked(s, p, name);
        HolderOfTaken(s, p, PhaseOf(s, p).inode);
      }
    } else {
      OthersOnlyRemove(s, e, p, name);
    }
  }

  lemma {:induction false} DeletesTurn(s: State, events: seq<Event>, p: Pid, name: string)
    requires Inv(s) && Run(s, events).Some?
    requires forall e :: e in events ==> e != Exit(p) && e != Leave(p) && !(e.DelNext? && e.p == p)
    requires Deleting(PhaseOf(s, p), name) || PastDeleting(s, p, name)
    requires PhaseOf(Run(s, events).value, p).Deleted?
    ensures PastDeleting(s, p, name) ==> name !in Run(s, events).value.locals
    ensures name !in Run(s, events).value.locals || DeleteTurnedAway(s, events, p, name)
    decreases |events|
  {
    hide Inv;
    hide Enabled;
    hide Step;
    hide SkipsLocked;
    if events != [] {
      var e := events[0];
      assert e in events;
      DeleteStep(s, e, p, name);
      StepKeepsInv(s, e);
      if !SkipsLocked(s, e, p, name) {
        DeletesTurn(Step(s, e), events[1..], p, name);
      } else if PastDeleting(s, p, name) {
        DeletesTurn(Step(s, e), events[1..], p, name);
      }
    }
  }

  /**
   * In every interleaving, once a delete is through with a name, the name is gone, unless another
   * process had the directory under it locked when the delete tried.
   */
  lemma DeleteDeletes(start: State, before: seq<Event>, events: seq<Event>, p: Pid, name: string)
    requires Quiet(start) && Run(start, before).Some?
    requires var s := Run(start, before).value;
             && PhaseOf(s, p) == DelOpening(name) && Run(s, events).Some?
             && PhaseOf(Run(s, events).value, p).Deleted?
    requires forall e :: e in events ==> e != Exit(p) && e != Leave(p) && !(e.DelNext? && e.p == p)
    ensures var s := Run(start, before).value;
            name !in Run(s, events).value.locals || DeleteTurnedAway(s, events, p, name)
  {
    QuietIsInv(start);
    RunKeepsInv(start, before);
    DeletesTurn(Run(start, before).value, events, p, name);
  }

  // ---- What a process can do when left alone ----

  lemma RunThree(s: State, a: Event, b: Event, c: Event)
    requires Enabled(s, a) && Enabled(Step(s, a), b) && Enabled(Step(Step(s, a), b), c)
    ensures Run(s, [a, b, c]) == Some(Step(Step(Step(s, a), b), c))
  {
    hide Step;
    hide Enabled;
    assert [a, b, c][1..] == [b, c] && [b, c][1..] == [c] && [c][1..] == [];
    assert Run(Step(Step(s, a), b), [c]) == Some(Step(Step(Step(s, a), b), c));
  }

  lemma RunFour(s: State, a: Event, b: Event, c: Event, d: Event)
    requires Enabled(s, a) && Enabled(Step(s, a), b) && Enabled(Step(Step(s, a), b), c)
    requires Enabled(Step(Step(Step(s, a), b), c), d)
    ensures Run(s, [a, b, c, d]) == Some(Step(Step(Step(Step(s, a), b), c), d))
  {
    hide Step;
    hide Enabled;
    RunThree(Step(s, a), b, c, d);
    assert [a, b, c, d][1..] == [b, c, d];
  }

  /** A collector left alone with a leftover that nobody holds a lock on can go through with it. */
  lemma LoneCollector(s: State, g: Pid, tmp: Tmp)
    requires tmp in s.temps && PhaseOf(s, g).Idle?
    requires forall l :: l in s.locks ==> l.inode != s.temps[tmp]
    ensures var events := [GcOpen(g, tmp), GcTryLock(g), GcRemove(g), GcUnlock(g)];
            Run(s, events) == Some(s.(temps := s.temps - {tmp}, procs := s.procs[g := Idle]))
  {
    var s1 := Step(s, GcOpen(g, tmp));
    var s2 := Step(s1, GcTryLock(g));
    var s3 := Step(s2, GcRemove(g));
    var s4 := Step(s3, GcUnlock(g));
    assert s4.locks == s.locks by {
      assert Flock(g, s.temps[tmp], true) !in s.locks;
    }
    assert s4.procs == s.procs[g := Idle];
    assert s4 == s.(temps := s.temps - {tmp}, procs := s.procs[g := Idle]);
    RunFour(s, GcOpen(g, tmp), GcTryLock(g), GcRemove(g), GcUnlock(g));
  }

  /**
   * run and set can open a directory and lock it exclusively if nobody has it locked, push and clone can
   * lock it shared beside others that have.
   */
  lemma LoneOpener(s: State, p: Pid, goal: Goal)
    requires PhaseOf(s, p).Idle? && s.global == None && goal.name in s.locals
    requires forall l :: l in s.locks && l.inode == s.locals[goal.name] ==>
               !l.exclusive && !(goal.Use? && goal.exclusive)
    ensures var inode := s.locals[goal.name];
            Run(s, [Enter(p, goal), Open(p), TryLock(p), Leave(p)])
            == Some(s.(locks := s.locks + {Flock(p, inode, goal.Use? && goal.exclusive)},
                       procs := s.procs[p := Using(goal, inode)]))
  {
    var inode := s.locals[goal.name];
    var s1 := Step(s, Enter(p, goal));
    var s2 := Step(s1, Open(p));
    var s3 := Step(s2, TryLock(p));
    var s4 := Step(s3, Leave(p));
    assert s4.procs == s.procs[p := Using(goal, inode)];
    assert s4.locks == s.locks + {Flock(p, inode, goal.Use? && goal.exclusive)};
    RunFour(s, Enter(p, goal), Open(p), TryLock(p), Leave(p));
  }

  /** create, and clone once it has its source, can make a temporary directory, which is new, and lock it. */
  lemma LoneCreator(s: State, p: Pid, dst: string)
    requires var phase := PhaseOf(s, p);
             phase.Idle? || (phase.Using? && phase.goal.CloneFrom? && phase.goal.dst == dst)
    requires forall l :: l in s.locks ==> l.inode != s.next
    ensures Run(s, [MakeTemp(p, dst), OpenTemp(p), LockTemp(p)])
         == Some(s.(temps := s.temps[s.next := s.next], locks := s.locks + {Flock(p, s.next, true)}, next := s.next + 1,
                    procs := s.procs[p := TempLocked(dst, s.next, s.next)]))
  {
    var s1 := Step(s, MakeTemp(p, dst));
    var s2 := Step(s1, OpenTemp(p));
    var s3 := Step(s2, LockTemp(p));
    assert s3.procs == s.procs[p := TempLocked(dst, s.next, s.next)];
    RunThree(s, MakeTemp(p, dst), OpenTemp(p), LockTemp(p));
  }

  /** A finished directory can be published under a new name. */
  lemma LonePublisher(s: State, p: Pid)
    requires PhaseOf(s, p).TempLocked? && s.global == None
    requires PhaseOf(s, p).tmp in s.temps && PhaseOf(s, p).dst !in s.locals
    ensures var phase := PhaseOf(s, p);
            Run(s, [EnterMove(p), Rename(p), Leave(p)])
            == Some(s.(locals := s.locals[phase.dst := s.temps[phase.tmp]], temps := s.temps - {phase.tmp},
                       procs := s.procs[p := Finished]))
  {
    var s1 := Step(s, EnterMove(p));
    var s2 := Step(s1, Rename(p));
    var s3 := Step(s2, Leave(p));
    assert s3.procs == s.procs[p := Finished];
    RunThree(s, EnterMove(p), Rename(p), Leave(p));
  }

  /** Or under one that is taken; the directory it led to is removed. */
  lemma LoneReplacer(s: State, p: Pid)
    requires PhaseOf(s, p).TempLocked? && s.global == None
    requires PhaseOf(s, p).tmp in s.temps && PhaseOf(s, p).dst in s.locals
    ensures var phase := PhaseOf(s, p);
            Run(s, [EnterMove(p), Exchange(p), RemoveOld(p), Leave(p)])
            == Some(s.(locals := s.locals[phase.dst := s.temps[phase.tmp]], temps := s.temps - {phase.tmp},
                       procs := s.procs[p := Finished]))
  {
    var phase := PhaseOf(s, p);
    var s1 := Step(s, EnterMove(p));
    var s2 := Step(s1, Exchange(p));
    var s3 := Step(s2, RemoveOld(p));
    var s4 := Step(s3, Leave(p));
    assert s4.temps == s.temps - {phase.tmp};
    assert s4.procs == s.procs[p := Finished];
    RunFour(s, EnterMove(p), Exchange(p), RemoveOld(p), Leave(p));
  }

  /** delete can open and lock a directory nobody has locked, */
  lemma LoneDeleterLocks(s: State, p: Pid, name: string)
    requires PhaseOf(s, p).Idle? && s.global == None && name in s.locals
    requires forall l :: l in s.locks ==> l.inode != s.locals[name]
    ensures var inode := s.locals[name];
            Run(s, [DelEnter(p, name), DelOpen(p), DelTryLock(p)])
            == Some(s.(global := Some(p), locks := s.locks + {Flock(p, inode, true)},
                       procs := s.procs[p := DelLocked(name, inode)]))
  {
    var s1 := Step(s, DelEnter(p, name));
    var s2 := Step(s1, DelOpen(p));
    var s3 := Step(s2, DelTryLock(p));
    assert s3.procs == s.procs[p := DelLocked(name, s.locals[name])];
    RunThree(s, DelEnter(p, name), DelOpen(p), DelTryLock(p));
  }

  /** and then remove it. */
  lemma LoneDeleterRemoves(s: State, p: Pid)
    requires PhaseOf(s, p).DelLocked? && s.global == Some(p)
    ensures var phase := PhaseOf(s, p);
            Run(s, [DelRemove(p), DelUnlock(p), Leave(p)])
            == Some(s.(global := None, locals := s.locals - {phase.name}, locks := s.locks - {Flock(p, phase.inode, true)},
                       procs := s.procs[p := Finished]))
  {
    var s1 := Step(s, DelRemove(p));
    var s2 := Step(s1, DelUnlock(p));
    var s3 := Step(s2, Leave(p));
    assert s3.procs == s.procs[p := Finished];
    RunThree(s, DelRemove(p), DelUnlock(p), Leave(p));
  }

  /** A delete and a collector are never stuck: whatever the others do, they go on to the next name or entry. */
  lemma NeverStuck(s: State, p: Pid, name: string) returns (e: Event)
    requires var phase := PhaseOf(s, p);
             || phase.DelOpening? || phase.DelOpened? || phase.DelLocked? || phase.DelRemoved? || phase.Deleted?
             || phase.GcOpened? || phase.GcLocked? || phase.GcRemoved?
    ensures e.p == p && !e.Exit? && Enabled(s, e)
    ensures PhaseOf(s, p).Deleted? ==> NextPhase(s, e) == DelOpening(name) && Enabled(s, Leave(p))
    ensures PhaseOf(s, p).DelOpening? && PhaseOf(s, p).name !in s.locals ==> NextPhase(s, e) == Deleted
  {
    var phase := PhaseOf(s, p);
    e := match phase
      case DelOpening(n) => if n in s.locals then DelOpen(p) else DelSkip(p)
      case DelOpened(_, inode) => if Free(s.locks, inode, true) then DelTryLock(p) else DelSkip(p)
      case DelLocked(_, _) => DelRemove(p)
      case DelRemoved(_, _) => DelUnlock(p)
      case GcOpened(_, inode) => if Free(s.locks, inode, true) then GcTryLock(p) else GcSkip(p)
      case GcLocked(_, _) => GcRemove(p)
      case GcRemoved(_, _) => GcUnlock(p)
      case _ => DelNext(p, name);
  }

  /** Push can move the directory it has been reading into the cache. */
  lemma PushMovesOut(s: State, p: Pid)
    requires PhaseOf(s, p).Using? && PhaseOf(s, p).goal.Use? && !PhaseOf(s, p).goal.exclusive
    requires PhaseOf(s, p).goal.name in s.locals
    ensures Enabled(s, MoveOut(p))
    ensures Step(s, MoveOut(p))
         == s.(locals := s.locals - {PhaseOf(s, p).goal.name}, procs := s.procs[p := Finished])
  {}

  /**
   * A crash at any point of a creation changes no name and releases the creator's locks. What it leaves
   * under the temporary name is then locked exactly by the others that had it locked before; before the
   * exchange there are none.
   */
  lemma CrashLeavesUnlocked(s: State, p: Pid)
    requires Inv(s) && p in s.procs && Creating(s.procs[p])
    ensures var s', leftover := Step(s, Exit(p)), TempInode(s.procs[p]);
            && s'.temps == s.temps && s'.locals == s.locals
            && (forall l :: l in s'.locks && l.inode == leftover <==>
                            l in s.locks && l.inode == leftover && l.holder != p)
            && (HeldLock(p, s.procs[p]).Some? ==> forall l :: l in s'.locks ==> l.inode != s.procs[p].inode)
            && (HeldLock(p, s.procs[p]).Some? && !s.procs[p].Exchanged? ==>
                 forall l :: l in s'.locks ==> l.inode != leftover)
  {
    hide SectionInv;
    hide HolderInv;
    hide OpenedInv;
    hide NameInv;
    hide TempInv;
    hide CollectInv;
    if HeldLock(p, s.procs[p]).Some? {
      assert HeldLock(p, s.procs[p]).value in s.locks;
    }
  }

  /** However a process ends, all its locks are released, the global one too, and nothing else changes. */
  lemma ExitReleases(s: State, p: Pid)
    requires p in s.procs
    ensures Enabled(s, Exit(p))
    ensures var s' := Step(s, Exit(p));
            && s'.global == (if s.global == Some(p) then None else s.global)
            && (forall l :: l in s'.locks <==> l in s.locks && l.holder != p)
            && s'.procs == s.procs - {p}
            && s'.locals == s.locals && s'.temps == s.temps
  {}

  /** After the exchange there may be one: push is reading the old directory when it is replaced. */
  lemma ReplacedDirectoryMayBeLocked() returns (s: State, p: Pid)
    ensures Inv(s) && p in s.procs && s.procs[p].Exchanged? && s.procs[p].tmp in s.temps
    ensures exists l :: l in Step(s, Exit(p)).locks && l.inode == s.temps[s.procs[p].tmp]
  {
    hide Step;
    p := 2;
    var push, create := Using(Use("vm", false), 0), Exchanged("vm", 1, 1, 0);
    s := State(map["vm" := 1], map[1 := 0], {Flock(1, 0, false), Flock(2, 1, true)}, Some(2),
               map[1 := push, 2 := create], 2);
    assert HeldLock(1, push) == Some(Flock(1, 0, false)) && HeldLock(2, create) == Some(Flock(2, 1, true));
    CrashKeepsOthersLocks(s, p, Flock(1, 0, false));
  }

  lemma CrashKeepsOthersLocks(s: State, p: Pid, l: Flock)
    requires p in s.procs && l in s.locks && l.holder != p
    ensures l in Step(s, Exit(p)).locks
  {}
}
