/**
 * internal/filelock and internal/globallock: flock(2) locks that are polled for, and sections that run
 * under a global lock.
 */
module FileLocks {

  /** A lock on a file or directory, held through an open file description. */
  datatype Flock = Flock(holder: nat, inode: nat, exclusive: bool)

  /** Another description can take the lock. */
  predicate Free(locks: set<Flock>, inode: nat, exclusive: bool) {
    forall l <- locks :: l.inode == inode ==> !l.exclusive && !exclusive
  }

  /** Shared locks get along with each other and with nothing else. */
  lemma SharedLocksCoexist(locks: set<Flock>, inode: nat)
    requires exists l :: l in locks && l.inode == inode
    ensures Free(locks, inode, false) <==> forall l :: l in locks && l.inode == inode ==> !l.exclusive
    ensures !Free(locks, inode, true)
    ensures forall holder :: Free(locks, inode, false) ==> Free(locks + {Flock(holder, inode, false)}, inode, false)
  {}

  /** An exclusive lock is the only one on its inode. */
  ghost predicate Sound(locks: set<Flock>) {
    forall a, b :: a in locks && b in locks && a.inode == b.inode && a.exclusive ==> a == b
  }

  // ---- What goes on around a process ----

  datatype Action = Take(lock: Flock) | Drop(lock: Flock)

  /** An attempt to take a lock that is not free fails, and nobody can act on the locks of `me`. */
  function Act(locks: set<Flock>, me: nat, action: Action): set<Flock> {
    if action.lock.holder == me then locks
    else if action.Drop? then locks - {action.lock}
    else if Free(locks, action.lock.inode, action.lock.exclusive) then locks + {action.lock}
    else locks
  }

  function ActAll(locks: set<Flock>, me: nat, actions: seq<Action>): set<Flock> {
    if actions == [] then locks
    else Act(ActAll(locks, me, actions[..|actions| - 1]), me, actions[|actions| - 1])
  }

  lemma {:induction false} OthersKeepOwnLocks(locks: set<Flock>, me: nat, actions: seq<Action>)
    requires Sound(locks)
    ensures Sound(ActAll(locks, me, actions))
    ensures forall l: Flock :: l.holder == me ==> (l in ActAll(locks, me, actions) <==> l in locks)
  {
    if actions != [] {
      OthersKeepOwnLocks(locks, me, actions[..|actions| - 1]);
    }
  }

  /** Whatever the others do, an exclusive lock stays the only one on its inode, and nobody gets in. */
  lemma HeldExclusively(locks: set<Flock>, lock: Flock, actions: seq<Action>)
    requires Sound(locks) && lock in locks && lock.exclusive
    ensures var later := ActAll(locks, lock.holder, actions);
            && lock in later && (forall l :: l in later && l.inode == lock.inode ==> l == lock)
            && !Free(later, lock.inode, true) && !Free(later, lock.inode, false)
  {
    OthersKeepOwnLocks(locks, lock.holder, actions);
  }

  /** The kernel's locks. */
  class Kernel {
    var locks: set<Flock>

    constructor ()
      ensures locks == {}
    {
      locks := {};
    }

    method LetOthersAct(me: nat, actions: seq<Action>)
      modifies this
      ensures locks == ActAll(old(locks), me, actions)
    {
      for i := 0 to |actions|
        invariant locks == ActAll(old(locks), me, actions[..i])
      {
        assert actions[..i + 1][..i] == actions[..i];
        locks := Act(locks, me, actions[i]);
      }
      assert actions[..|actions|] == actions;
    }
  }

  // ---- FileLock ----

  /** What has happened when Lock looks again: the others' actions, and whether its context is cancelled. */
  datatype Poll = Poll(actions: seq<Action>, cancelled: bool)

  datatype Outcome = Locked | Cancelled | StillWaiting

  /** The locks of the others at the last of the polls, as long as `me` has not got its own. */
  function Seen(locks: set<Flock>, me: nat, polls: seq<Poll>): set<Flock> {
    if polls == [] then locks
    else ActAll(Seen(locks, me, polls[..|polls| - 1]), me, polls[|polls| - 1].actions)
  }

  lemma NothingSeen(locks: set<Flock>, me: nat)
    ensures Seen(locks, me, []) == locks
  {}

  lemma NextSeen(locks: set<Flock>, me: nat, polls: seq<Poll>, i: nat)
    requires i < |polls|
    ensures Seen(locks, me, polls[..i + 1]) == ActAll(Seen(locks, me, polls[..i]), me, polls[i].actions)
  {
    hide ActAll;
    assert polls[..i + 1][..i] == polls[..i];
  }

  class FileLock {
    const kernel: Kernel
    const fd: nat
    const inode: nat
    const exclusive: bool

    constructor (kernel: Kernel, fd: nat, inode: nat, exclusive: bool)
      ensures this.kernel == kernel && this.fd == fd && this.inode == inode && this.exclusive == exclusive
    {
      this.kernel, this.fd, this.inode, this.exclusive := kernel, fd, inode, exclusive;
    }

    function Own(): Flock {
      Flock(fd, inode, exclusive)
    }

    /** The description has at most this object's lock. */
    ghost predicate Valid()
      reads kernel
    {
      Sound(kernel.locks) && forall l :: l in kernel.locks && l.holder == fd ==> l == Own()
    }

    /** Taking a lock that the description has already succeeds and changes nothing. */
    predicate Available(locks: set<Flock>) {
      Own() in locks || Free(locks, inode, exclusive)
    }

    /** Does not wait: a lock that is not available is ErrAlreadyLocked. */
    method Trylock() returns (ok: bool)
      requires Valid()
      modifies kernel
      ensures Valid()
      ensures ok <==> Available(old(kernel.locks))
      ensures ok <==>
                || Flock(fd, inode, exclusive) in old(kernel.locks)
                || forall l :: l in old(kernel.locks) && l.inode == inode ==> !l.exclusive && !exclusive
      ensures kernel.locks == if ok then old(kernel.locks) + {Own()} else old(kernel.locks)
    {
      ok := Available(kernel.locks);
      if ok {
        kernel.locks := kernel.locks + {Own()};
      }
    }

    method Unlock()
      requires Valid()
      modifies kernel
      ensures Valid() && kernel.locks == old(kernel.locks) - {Own()}
    {
      kernel.locks := kernel.locks - {Own()};
    }

    /** At the given poll the context is not cancelled, and the lock not available. */
    predicate KeepsWaiting(locks: set<Flock>, polls: seq<Poll>, i: nat)
      requires i < |polls|
    {
      !polls[i].cancelled && !Available(Seen(locks, fd, polls[..i + 1]))
    }

    /** Takes the lock at the first poll at which it is available, unless the context is cancelled before. */
    method Lock(polls: seq<Poll>) returns (r: Outcome, ghost n: nat)
      requires Valid()
      modifies kernel
      ensures Valid() && n <= |polls|
      ensures forall i :: 0 <= i < n ==> KeepsWaiting(old(kernel.locks), polls, i)
      ensures r == if n == |polls| then StillWaiting else if polls[n].cancelled then Cancelled else Locked
      ensures r.Locked? ==>
                && Available(Seen(old(kernel.locks), fd, polls[..n + 1]))
                && kernel.locks == Seen(old(kernel.locks), fd, polls[..n + 1]) + {Own()}
      ensures !r.Locked? ==> (Own() in kernel.locks <==> Own() in old(kernel.locks))
    {
      hide Free;
      hide Sound;
      hide ActAll;
      hide Seen;
      assert Seen(kernel.locks, fd, polls[..0]) == kernel.locks by {
        NothingSeen(kernel.locks, fd);
      }
      for i := 0 to |polls|
        invariant Valid() && kernel.locks == Seen(old(kernel.locks), fd, polls[..i])
        invariant Own() in kernel.locks <==> Own() in old(kernel.locks)
        invariant forall k :: 0 <= k < i ==> KeepsWaiting(old(kernel.locks), polls, k)
      {
        NextSeen(old(kernel.locks), fd, polls, i);
        OthersKeepOwnLocks(kernel.locks, fd, polls[i].actions);
        kernel.LetOthersAct(fd, polls[i].actions);
        ghost var seen := Seen(old(kernel.locks), fd, polls[..i + 1]);
        assert kernel.locks == seen;
        if polls[i].cancelled {
          return Cancelled, i;
        }
        var ok := Trylock();
        assert !ok ==> KeepsWaiting(old(kernel.locks), polls, i);
        if ok {
          return Locked, i;
        }
      }
      return StillWaiting, |polls|;
    }
  }

  // ---- globallock.With ----

  /** At the given poll nobody has the directory locked, and the context has not been cancelled by then. */
  ghost predicate OpenAt(locks: set<Flock>, me: nat, home: nat, polls: seq<Poll>, i: int) {
    && 0 <= i < |polls|
    && Free(Seen(locks, me, polls[..i + 1]), home, true)
    && forall k :: 0 <= k <= i ==> !polls[k].cancelled
  }

  datatype Ran<+T> = NotEntered | CallbackFailed(result: T) | UnlockFailed(result: T) | Succeeded(result: T)

  lemma {:induction false} PollsKeepOwnLocks(locks: set<Flock>, me: nat, polls: seq<Poll>)
    requires Sound(locks)
    ensures Sound(Seen(locks, me, polls))
    ensures forall l: Flock :: l.holder == me ==> (l in Seen(locks, me, polls) <==> l in locks)
  {
    if polls != [] {
      PollsKeepOwnLocks(locks, me, polls[..|polls| - 1]);
      OthersKeepOwnLocks(Seen(locks, me, polls[..|polls| - 1]), me, polls[|polls| - 1].actions);
    }
  }

  /**
   * Runs a callback under the exclusive lock on the home directory; the actions during it are those of
   * all other descriptions, the callback's own included. While it runs, nobody else has a lock on that
   * directory. The lock is released if and only if callback and unlocking succeed: otherwise it stays
   * with the process until that exits.
   */
  method With<T>(kernel: Kernel, fd: nat, home: nat, polls: seq<Poll>, during: seq<Action>, result: T, ok: bool,
                 unlocks: bool)
    returns (r: Ran<T>, ghost inside: set<Flock>)
    requires Sound(kernel.locks) && forall l :: l in kernel.locks ==> l.holder != fd
    modifies kernel
    ensures Sound(kernel.locks)
    ensures r == NotEntered
         || r == if !ok then CallbackFailed(result) else if !unlocks then UnlockFailed(result) else Succeeded(result)
    ensures r != NotEntered <==> exists i :: OpenAt(old(kernel.locks), fd, home, polls, i)
    ensures r != NotEntered ==> forall l :: l in inside && l.inode == home <==> l == Flock(fd, home, true)
    ensures r.Succeeded? ==> kernel.locks == inside - {Flock(fd, home, true)}
    ensures r.CallbackFailed? || r.UnlockFailed? ==> kernel.locks == inside
    ensures Flock(fd, home, true) in kernel.locks <==> r.CallbackFailed? || r.UnlockFailed?
  {
    hide Free;
    hide Sound;
    var lock := new FileLock(kernel, fd, home, true);
    var outcome, n := lock.Lock(polls);
    forall i | 0 <= i < |polls|
      ensures (i < n ==> !polls[i].cancelled && !OpenAt(old(kernel.locks), fd, home, polls, i))
           && lock.Own() !in Seen(old(kernel.locks), fd, polls[..i + 1])
    {
      PollsKeepOwnLocks(old(kernel.locks), fd, polls[..i + 1]);
      assert i < n ==> lock.KeepsWaiting(old(kernel.locks), polls, i);
    }
    if outcome != Locked {
      return NotEntered, {};
    }
    assert OpenAt(old(kernel.locks), fd, home, polls, n);
    HeldExclusively(kernel.locks, lock.Own(), during);
    OthersKeepOwnLocks(kernel.locks, fd, during);
    kernel.LetOthersAct(fd, during);
    inside := kernel.locks;
    if !ok {
      return CallbackFailed(result), inside;
    }
    if !unlocks {
      return UnlockFailed(result), inside;
    }
    lock.Unlock();
    return Succeeded(result), inside;
  }
}
