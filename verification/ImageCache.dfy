/**
 * internal/storage/remote: the cache of pulled images. Tags are symbolic links to digest directories;
 * garbage collection keeps what a tag refers to and what has been pulled explicitly.
 */
module ImageCache {
  import opened Bytes

  /** Below the cache's base directory: a repository's tags and digest directories. */
  datatype Path = TagPath(repo: string, tag: string) | DigestPath(repo: string, digest: string)

  /** A digest directory (with or without the ".explicitly-pulled" file) or a symbolic link. */
  datatype Entry = Dir(explicit: bool) | Link(target: Path)

  type Cache = map<Path, Entry>

  /** A remote name has a tag or a digest, never both. */
  datatype Name = Tagged(repo: string, tag: string) | Digested(repo: string, digest: string)

  function PathFor(name: Name): Path {
    match name
    case Tagged(repo, tag) => TagPath(repo, tag)
    case Digested(repo, digest) => DigestPath(repo, digest)
  }

  /** Directories are at digest paths; tags are links to digest paths of their own repository. */
  ghost predicate WellFormed(fs: Cache) {
    forall p :: p in fs ==>
      match fs[p]
      case Dir(_) => p.DigestPath?
      case Link(target) => p.TagPath? && target.DigestPath? && target.repo == p.repo
  }

  /** filepath.EvalSymlinks on the name's path. */
  function Resolve(fs: Cache, name: Name): Option<Path> {
    var path := PathFor(name);
    if path !in fs then None
    else match fs[path]
      case Dir(_) => Some(path)
      case Link(target) => if target in fs && fs[target].Dir? then Some(target) else None
  }

  predicate Exists(fs: Cache, name: Name) {
    Resolve(fs, name).Some?
  }

  // ---- What garbage collection is for ----

  predicate Referenced(fs: Cache, p: Path) {
    exists q <- fs.Keys :: fs[q] == Link(p)
  }

  predicate IsGarbage(fs: Cache, p: Path)
    requires p in fs
  {
    match fs[p]
    case Link(target) => target !in fs
    case Dir(explicit) => !explicit && !Referenced(fs, p)
  }

  /** Dangling tags, and digest directories neither tagged nor pulled explicitly. */
  function Garbage(fs: Cache): set<Path> {
    set p <- fs.Keys | IsGarbage(fs, p)
  }

  function Collected(fs: Cache): Cache {
    fs - Garbage(fs)
  }

  /** Every tag resolves, and every digest directory is tagged or explicitly pulled. */
  ghost predicate Clean(fs: Cache) {
    && (forall repo, tag :: TagPath(repo, tag) in fs ==> Resolve(fs, Tagged(repo, tag)).Some?)
    && (forall p :: p in fs && fs[p].Dir? ==> fs[p].explicit || exists q :: q in fs && fs[q] == Link(p))
  }

  lemma CollectedIsClean(fs: Cache)
    requires WellFormed(fs)
    ensures WellFormed(Collected(fs)) && Clean(Collected(fs))
  {
    var after := Collected(fs);
    forall repo, tag | TagPath(repo, tag) in after
      ensures Resolve(after, Tagged(repo, tag)).Some?
    {
      var target := fs[TagPath(repo, tag)].target;
      assert Referenced(fs, target);
    }
    forall p | p in after && after[p].Dir?
      ensures after[p].explicit || exists q :: q in after && after[q] == Link(p)
    {
      if !after[p].explicit {
        assert Referenced(fs, p);
        var q :| q in fs && fs[q] == Link(p);
        assert q in after;
      }
    }
  }

  /** On a clean cache there is nothing to collect, so collecting twice is collecting once. */
  lemma CleanHasNoGarbage(fs: Cache)
    requires WellFormed(fs)
    ensures Clean(fs) <==> Garbage(fs) == {}
    ensures Clean(fs) ==> Collected(fs) == fs
    ensures Collected(Collected(fs)) == Collected(fs)
  {
    if Clean(fs) {
      forall p | p in fs
        ensures !IsGarbage(fs, p)
      {
        if fs[p].Link? {
          assert Resolve(fs, Tagged(p.repo, p.tag)).Some?;
        }
      }
    }
    if Garbage(fs) == {} {
      assert Collected(fs) == fs;
      CollectedIsClean(fs);
    }
    CollectedIsClean(fs);
    var after := Collected(fs);
    forall p | p in after
      ensures !IsGarbage(after, p)
    {
      if after[p].Link? {
        assert Resolve(after, Tagged(p.repo, p.tag)).Some?;
      }
    }
    assert Garbage(after) == {};
  }

  /** Collection never changes what a resolving tag resolves to, nor an explicitly pulled directory. */
  lemma CollectedKeepsGoodNames(fs: Cache, repo: string, tag: string)
    requires WellFormed(fs)
    ensures Resolve(Collected(fs), Tagged(repo, tag)) == Resolve(fs, Tagged(repo, tag))
  {
    var p := TagPath(repo, tag);
    if p in fs {
      assert Referenced(fs, fs[p].target);
    }
  }

  // ---- The file system, with crashes ----

  datatype Op =
    | RemoveLink(p: Path)
    | MakeLink(p: Path, target: Path)
    | Publish(p: Path, explicit: bool)
    | RemoveDir(p: Path)
    | SetFlag(p: Path)

  /**
   * One atomic change. Renaming a directory onto an existing one fails, which its caller ignores.
   */
  function ApplyOp(fs: Cache, op: Op): Cache {
    match op
    case RemoveLink(p) => fs - {p}
    case MakeLink(p, target) => if p in fs then fs else fs[p := Link(target)]
    case Publish(p, explicit) => if p in fs then fs else fs[p := Dir(explicit)]
    case RemoveDir(p) => fs - {p}
    case SetFlag(p) => if p in fs && fs[p].Dir? then fs[p := Dir(true)] else fs
  }

  function ApplyOps(fs: Cache, ops: seq<Op>): Cache {
    if ops == [] then fs else ApplyOp(ApplyOps(fs, ops[..|ops| - 1]), ops[|ops| - 1])
  }

  /** A file system on which a process can make only so many changes before it crashes. */
  class FileSystem {
    var entries: Cache
    var budget: nat
    var crashed: bool

    constructor (entries: Cache, budget: nat)
      ensures this.entries == entries && this.budget == budget && !crashed
    {
      this.entries, this.budget, crashed := entries, budget, false;
    }

    method Perform(op: Op)
      modifies this
      ensures crashed <==> old(crashed) || old(budget) == 0
      ensures entries == if crashed then old(entries) else ApplyOp(old(entries), op)
    {
      if crashed || budget == 0 {
        crashed := true;
      } else {
        entries, budget := ApplyOp(entries, op), budget - 1;
      }
    }
  }

  // ---- Garbage collection ----

  predicate Dangling(fs: Cache, p: Path) {
    p in fs && fs[p].Link? && fs[p].target !in fs
  }

  /** filepath.WalkDir visits every entry once, in an order of its own. */
  ghost predicate IsWalk(fs: Cache, walk: seq<Path>) {
    && (forall p :: p in walk <==> p in fs)
    && (forall i, j :: 0 <= i < j < |walk| ==> walk[i] != walk[j])
  }

  /** The state of the walk after its first entries: what is counted, and what is removed already. */
  ghost predicate Walked(fs: Cache, walk: seq<Path>, managed: set<Path>, refs: map<Path, nat>, removed: set<Path>,
                         crashed: bool)
    requires forall p :: p in walk ==> p in fs
  {
    && managed == (set p <- walk | fs[p].Dir?)
    && (forall t :: t in refs && refs[t] != 0 <==> exists p :: p in walk && fs[p] == Link(t))
    && removed <= (set p <- walk | Dangling(fs, p))
    && (!crashed ==> removed == (set p <- walk | Dangling(fs, p)))
  }

  function CountReference(refs: map<Path, nat>, t: Path): map<Path, nat> {
    refs[t := (if t in refs then refs[t] else 0) + 1]
  }

  lemma WalkStep(fs: Cache, walk: seq<Path>, path: Path, managed: set<Path>, refs: map<Path, nat>,
                 removed: set<Path>, crashed: bool, removed': set<Path>, crashed': bool)
    requires path in fs && forall p :: p in walk ==> p in fs
    requires Walked(fs, walk, managed, refs, removed, crashed) && (crashed ==> crashed')
    requires removed' == if Dangling(fs, path) && !crashed' then removed + {path} else removed
    ensures Walked(fs, walk + [path],
                   if fs[path].Dir? then managed + {path} else managed,
                   if fs[path].Link? then CountReference(refs, fs[path].target) else refs,
                   removed', crashed')
  {
    var more := walk + [path];
    assert forall p :: p in more <==> p in walk || p == path;
    var refs' := if fs[path].Link? then CountReference(refs, fs[path].target) else refs;
    forall t
      ensures t in refs' && refs'[t] != 0 <==> exists p :: p in more && fs[p] == Link(t)
    {
      if p :| p in walk && fs[p] == Link(t) {
        assert p in more;
      }
      if fs[path] == Link(t) {
        assert path in more;
      }
    }
  }

  method GC(fs: FileSystem, walk: seq<Path>) returns (ghost removed: set<Path>)
    requires WellFormed(fs.entries) && IsWalk(fs.entries, walk)
    modifies fs
    ensures old(fs.crashed) ==> fs.crashed
    ensures fs.entries == old(fs.entries) - removed && removed <= Garbage(old(fs.entries))
    ensures !fs.crashed ==> fs.entries == Collected(old(fs.entries))
  {
    hide Walked;
    hide Garbage;
    ghost var before := fs.entries;
    var managedPaths: set<Path> := {};
    var anyPathToNumReferences: map<Path, nat> := map[];
    removed := {};
    NothingWalked(before, fs.crashed);
    for i := 0 to |walk|
      invariant old(fs.crashed) ==> fs.crashed
      invariant fs.entries == before - removed
      invariant Walked(before, walk[..i], managedPaths, anyPathToNumReferences, removed, fs.crashed)
      invariant forall p :: p in removed ==> p in walk[..i] && before[p].Link?
    {
      var path := walk[i];
      assert path in before && path !in walk[..i] && walk[..i + 1] == walk[..i] + [path];
      ghost var removedBefore, crashedBefore, managed, refs := removed, fs.crashed, managedPaths, anyPathToNumReferences;
      if fs.entries[path].Link? {
        var linkTarget := fs.entries[path].target;
        if linkTarget !in fs.entries {
          fs.Perform(RemoveLink(path));
          if !fs.crashed {
            removed := removed + {path};
          }
        }
        // The reference is counted whether or not the link was broken.
        anyPathToNumReferences := CountReference(anyPathToNumReferences, linkTarget);
      } else if path.DigestPath? {
        managedPaths := managedPaths + {path};
      }
      WalkStep(before, walk[..i], path, managed, refs, removedBefore, crashedBefore, removed, fs.crashed);
    }
    assert walk[..|walk|] == walk;
    removed := Sweep(fs, before, walk, managedPaths, anyPathToNumReferences, removed);
  }

  lemma NothingWalked(fs: Cache, crashed: bool)
    ensures Walked(fs, [], {}, map[], {}, crashed)
  {}

  /** What the counts mean once the walk is over. */
  lemma WalkedAll(fs: Cache, walk: seq<Path>, managed: set<Path>, refs: map<Path, nat>, removed: set<Path>,
                  crashed: bool)
    requires IsWalk(fs, walk) && Walked(fs, walk, managed, refs, removed, crashed)
    ensures forall p :: p in managed <==> p in fs && fs[p].Dir?
    ensures forall p :: p in refs && refs[p] != 0 <==> Referenced(fs, p)
    ensures forall p :: p in Garbage(fs) ==> p in fs
    ensures forall p :: p in managed ==> (p in Garbage(fs) <==> !fs[p].explicit && !Referenced(fs, p))
    ensures removed <= Garbage(fs) && (!crashed ==> forall p :: p in removed <==> p in Garbage(fs) && fs[p].Link?)
  {}

  /** The state of the sweep when `todo` is left: everything else that is garbage is removed, barring a crash. */
  ghost predicate Swept(fs: Cache, todo: set<Path>, removed: set<Path>, crashed: bool) {
    removed <= Garbage(fs) && (!crashed ==> forall p :: p in removed <==> p in Garbage(fs) && p !in todo)
  }

  lemma SweepStep(fs: Cache, todo: set<Path>, p: Path, removed: set<Path>, crashed: bool,
                  removed': set<Path>, crashed': bool)
    requires Swept(fs, todo, removed, crashed) && (crashed ==> crashed')
    requires p in todo && removed' == if p in Garbage(fs) && !crashed' then removed + {p} else removed
    ensures Swept(fs, todo - {p}, removed', crashed')
    ensures !crashed ==> p !in removed
  {}

  /** The second half of GC: managed paths without references and without the flag go. */
  method Sweep(fs: FileSystem, ghost before: Cache, ghost walk: seq<Path>, managedPaths: set<Path>,
               refs: map<Path, nat>, ghost dangling: set<Path>) returns (ghost removed: set<Path>)
    requires WellFormed(before) && IsWalk(before, walk)
    requires Walked(before, walk, managedPaths, refs, dangling, fs.crashed)
    requires fs.entries == before - dangling && forall p :: p in dangling ==> before[p].Link?
    modifies fs
    ensures old(fs.crashed) ==> fs.crashed
    ensures fs.entries == before - removed && removed <= Garbage(before)
    ensures !fs.crashed ==> fs.entries == Collected(before)
  {
    WalkedAll(before, walk, managedPaths, refs, dangling, fs.crashed);
    hide *;
    removed := dangling;
    var todo := managedPaths;
    while todo != {}
      invariant old(fs.crashed) ==> fs.crashed
      invariant todo <= managedPaths && Swept(before, todo, removed, fs.crashed)
      invariant fs.entries == before - removed
      decreases todo
    {
      var managedPath :| managedPath in todo;
      ghost var removedBefore, crashedBefore := removed, fs.crashed;
      var explicit := managedPath in fs.entries && fs.entries[managedPath] == Dir(true);
      if !(managedPath in refs && refs[managedPath] != 0) && !explicit {
        fs.Perform(RemoveDir(managedPath));
        if !fs.crashed {
          OneMoreRemoved(before, removed, managedPath);
          removed := removed + {managedPath};
        }
      }
      SweepStep(before, todo, managedPath, removedBefore, crashedBefore, removed, fs.crashed);
      todo := todo - {managedPath};
    }
    SweptAll(before, removed, fs.crashed);
  }

  lemma OneMoreRemoved(fs: Cache, removed: set<Path>, p: Path)
    ensures ApplyOp(fs - removed, RemoveDir(p)) == fs - (removed + {p})
  {}

  lemma SweptAll(fs: Cache, removed: set<Path>, crashed: bool)
    requires Swept(fs, {}, removed, crashed)
    ensures removed <= Garbage(fs) && (!crashed ==> fs - removed == Collected(fs))
  {
    assert !crashed ==> removed == Garbage(fs);
  }

  // ---- MoveIn, Link, Pull, Delete ----

  function PublishOps(name: Name, digest: string, explicit: bool): seq<Op> {
    var path := DigestPath(name.repo, digest);
    [Publish(path, explicit)]
    + if name.Tagged? then [RemoveLink(PathFor(name)), MakeLink(PathFor(name), path)] else []
  }

  /** What a pull changes once it knows the manifest's digest. */
  function PullOps(fs: Cache, name: Name, digest: string): seq<Op> {
    var path := DigestPath(name.repo, digest);
    if !Exists(fs, Digested(name.repo, digest)) then PublishOps(name, digest, false)
    else if name.Tagged? then
      if Exists(fs, name) then [] else [RemoveLink(PathFor(name)), MakeLink(PathFor(name), path)]
    else [SetFlag(path)]
  }

  /** Some of the operations have happened, in order; all of them when the command completed. */
  ghost predicate Progressed(fs: Cache, ops: seq<Op>, fs': Cache, done: bool) {
    exists k: nat {:trigger ops[..k]} :: k <= |ops| && fs' == ApplyOps(fs, ops[..k]) && (done ==> k == |ops|)
  }

  lemma NoProgress(fs: Cache, ops: seq<Op>)
    ensures Progressed(fs, ops, fs, ops == [])
  {
    assert ops[..0] == [] && ApplyOps(fs, ops[..0]) == fs;
  }

  lemma MoreProgress(fs: Cache, ops: seq<Op>, n: nat, before: Cache, ok: bool, after: Cache, ok': bool)
    requires n < |ops| && Progressed(fs, ops[..n], before, ok)
    requires after == (if ok' then ApplyOp(before, ops[n]) else before) && (ok' ==> ok)
    ensures Progressed(fs, ops[..n + 1], after, ok')
  {
    var k: nat :| k <= n && before == ApplyOps(fs, ops[..n][..k]) && (ok ==> k == n);
    var more := ops[..n + 1];
    assert ops[..n][..k] == more[..k];
    if ok' {
      assert more[..n + 1] == more && more[..n] == ops[..n];
      assert after == ApplyOps(fs, more[..n + 1]);
    } else {
      assert after == ApplyOps(fs, more[..k]);
    }
  }

  /** The operations performed one after the other; a crash in between leaves a prefix of them done. */
  method PerformAll(fs: FileSystem, ops: seq<Op>)
    modifies fs
    ensures old(fs.crashed) ==> fs.crashed
    ensures !old(fs.crashed) ==> Progressed(old(fs.entries), ops, fs.entries, !fs.crashed)
    ensures old(fs.crashed) ==> fs.entries == old(fs.entries)
  {
    hide ApplyOp;
    NoProgress(fs.entries, []);
    for i := 0 to |ops|
      invariant old(fs.crashed) ==> fs.crashed && fs.entries == old(fs.entries)
      invariant !old(fs.crashed) ==> Progressed(old(fs.entries), ops[..i], fs.entries, !fs.crashed)
    {
      ghost var before, ok := fs.entries, !fs.crashed;
      fs.Perform(ops[i]);
      if !old(fs.crashed) {
        MoreProgress(old(fs.entries), ops, i, before, ok, fs.entries, !fs.crashed);
      }
    }
    assert ops[..|ops|] == ops;
  }

  method MoveIn(fs: FileSystem, name: Name, digest: string, explicit: bool)
    requires !fs.crashed
    modifies fs
    ensures Progressed(old(fs.entries), PublishOps(name, digest, explicit), fs.entries, !fs.crashed)
    ensures WellFormed(old(fs.entries)) ==> MovedIn(old(fs.entries), name, digest, explicit, fs.entries, !fs.crashed)
  {
    PerformAll(fs, PublishOps(name, digest, explicit));
    if WellFormed(old(fs.entries)) {
      MoveInProgress(old(fs.entries), name, digest, explicit, fs.entries, !fs.crashed);
    }
  }

  /** A pull whose download succeeds; one whose download fails changes nothing. */
  method Pull(fs: FileSystem, name: Name, digest: string, downloadFails: bool)
    requires !fs.crashed && WellFormed(fs.entries) && (name.Digested? ==> digest == name.digest)
    modifies fs
    ensures Progressed(old(fs.entries), PullOps(old(fs.entries), name, digest), fs.entries,
                       !fs.crashed && !(downloadFails && !Exists(old(fs.entries), Digested(name.repo, digest))))
  {
    var fullyQualified := Digested(name.repo, digest);
    if !Exists(fs.entries, fullyQualified) {
      if downloadFails {
        NoProgress(fs.entries, PullOps(fs.entries, name, digest));
        return;
      }
      MoveIn(fs, name, digest, false);
      return;
    }
    var ops: seq<Op> := [];
    if name.Tagged? && !Exists(fs.entries, name) {
      ops := ops + [RemoveLink(PathFor(name)), MakeLink(PathFor(name), PathFor(fullyQualified))];
    }
    if name.Digested? {
      ops := ops + [SetFlag(Resolve(fs.entries, name).value)];
    }
    assert name.Digested? ==> ops == [SetFlag(PathFor(fullyQualified))];
    assert ops == PullOps(fs.entries, name, digest);
    PerformAll(fs, ops);
  }

  function DeleteOp(name: Name): Op {
    if name.Tagged? then RemoveLink(PathFor(name)) else RemoveDir(PathFor(name))
  }

  /** What a delete of an existing name may leave behind: nothing happened, or part of the collection too. */
  ghost predicate Deleted(fs: Cache, name: Name, fs': Cache, done: bool) {
    var without := ApplyOp(fs, DeleteOp(name));
    || (!done && fs' == fs)
    || (exists removed :: removed <= Garbage(without) && fs' == without - removed && (done ==> fs' == Collected(without)))
  }

  /** What is left of a cache once a name has been deleted and the collection has completed. */
  ghost predicate WithoutName(fs: Cache, name: Name, fs': Cache)
    requires WellFormed(fs)
  {
    && PathFor(name) !in fs'
    && fs'.Keys <= fs.Keys && (forall p :: p in fs' ==> fs'[p] == fs[p])
    // By digest, the tags that led there go too; by tag, its directory stays only for another reason.
    && (name.Digested? ==> forall p :: p in fs && fs[p] == Link(PathFor(name)) ==> p !in fs')
    && (name.Tagged? && Exists(fs, name) ==>
         var path := fs[PathFor(name)].target;
         path in fs' <==> fs[path] == Dir(true) || exists q :: q in fs && q != PathFor(name) && fs[q] == Link(path))
    // Whatever else resolves, or is flagged, stays.
    && (forall p, t :: p in fs && p != PathFor(name) && fs[p] == Link(t) && t in fs && t != PathFor(name) ==>
         p in fs' && t in fs')
    && (forall p :: p in fs && p != PathFor(name) && fs[p] == Dir(true) ==> p in fs')
  }

  lemma DeleteMeaning(fs: Cache, name: Name, fs': Cache)
    requires WellFormed(fs) && Deleted(fs, name, fs', true)
    ensures WithoutName(fs, name, fs') && !Exists(fs', name)
  {
    var path, without := PathFor(name), fs - {PathFor(name)};
    assert without == ApplyOp(fs, DeleteOp(name));
    forall p | p in without
      ensures p in fs' <==> !IsGarbage(without, p)
    {
    }
    forall p, t | p in fs && p != path && fs[p] == Link(t) && t in fs && t != path
      ensures p in fs' && t in fs'
    {
      assert p in without.Keys && without[p] == Link(t);
      assert Referenced(without, t);
    }
    if name.Tagged? && Exists(fs, name) {
      var target := fs[path].target;
      if q :| q in fs && q != path && fs[q] == Link(target) {
        assert q in without.Keys && without[q] == Link(target);
      }
      if Referenced(without, target) {
        var q :| q in without.Keys && without[q] == Link(target);
        assert q in fs && q != path;
      }
    }
  }

  method Delete(fs: FileSystem, name: Name, walk: seq<Path>) returns (found: bool)
    requires !fs.crashed && WellFormed(fs.entries) && IsWalk(ApplyOp(fs.entries, DeleteOp(name)), walk)
    modifies fs
    ensures found <==> Exists(old(fs.entries), name)
    ensures !found ==> fs.entries == old(fs.entries)
    ensures found ==> Deleted(old(fs.entries), name, fs.entries, !fs.crashed)
    ensures found && !fs.crashed ==> WithoutName(old(fs.entries), name, fs.entries) && !Exists(fs.entries, name)
  {
    if !Exists(fs.entries, name) {
      return false;
    }
    fs.Perform(DeleteOp(name));
    if !fs.crashed {
      var removed := GC(fs, walk);
    }
    if !fs.crashed {
      DeleteMeaning(old(fs.entries), name, fs.entries);
    }
    return true;
  }

  // ---- Whole runs ----

  datatype Command =
    | Collect
    | PullImage(name: Name, digest: string)
    | DeleteImage(name: Name)
    | PopulateCache(name: Name, digest: string, explicit: bool)

  /** One command from start to completion, failure or crash. */
  ghost predicate Ran(fs: Cache, cmd: Command, fs': Cache, done: bool) {
    match cmd
    case Collect => exists removed :: removed <= Garbage(fs) && fs' == fs - removed && (done ==> fs' == Collected(fs))
    case PullImage(name, digest) =>
      && (name.Digested? ==> digest == name.digest)
      && Progressed(fs, PullOps(fs, name, digest), fs', done)
    case DeleteImage(name) => if Exists(fs, name) then Deleted(fs, name, fs', done) else fs' == fs
    case PopulateCache(name, digest, explicit) => Progressed(fs, PublishOps(name, digest, explicit), fs', done)
  }

  datatype Executed = Executed(cmd: Command, done: bool, after: Cache)

  /** Commands run one after the other on a cache, each possibly cut short by a crash. */
  ghost predicate IsRun(fs: Cache, run: seq<Executed>)
    decreases |run|
  {
    run != [] ==> Ran(fs, run[0].cmd, run[0].after, run[0].done) && IsRun(run[0].after, run[1..])
  }

  function Final(fs: Cache, run: seq<Executed>): Cache {
    if run == [] then fs else run[|run| - 1].after
  }

  ghost predicate GoodOp(op: Op) {
    match op
    case RemoveLink(p) => p.TagPath?
    case MakeLink(p, target) => p.TagPath? && target.DigestPath? && target.repo == p.repo
    case Publish(p, _) => p.DigestPath?
    case RemoveDir(p) => p.DigestPath?
    case SetFlag(p) => p.DigestPath?
  }

  lemma {:induction false} ProgressKeepsForm(fs: Cache, ops: seq<Op>)
    requires WellFormed(fs) && forall i :: 0 <= i < |ops| ==> GoodOp(ops[i])
    ensures WellFormed(ApplyOps(fs, ops))
    decreases |ops|
  {
    if ops != [] {
      ProgressKeepsForm(fs, ops[..|ops| - 1]);
      assert GoodOp(ops[|ops| - 1]);
    }
  }

  ghost predicate Flagged(fs: Cache, p: Path) {
    p in fs && fs[p] == Dir(true)
  }

  lemma {:induction false} ProgressKeepsFlag(fs: Cache, ops: seq<Op>, p: Path)
    requires Flagged(fs, p) && p.DigestPath?
    requires forall i :: 0 <= i < |ops| ==> GoodOp(ops[i]) && ops[i] != RemoveDir(p)
    ensures Flagged(ApplyOps(fs, ops), p)
    decreases |ops|
  {
    if ops != [] {
      ProgressKeepsFlag(fs, ops[..|ops| - 1], p);
      assert GoodOp(ops[|ops| - 1]);
    }
  }

  lemma CommandOps(fs: Cache, e: Executed) returns (ops: seq<Op>)
    requires WellFormed(fs) && Ran(fs, e.cmd, e.after, e.done)
    requires e.cmd.PullImage? || e.cmd.PopulateCache?
    ensures e.after == ApplyOps(fs, ops)
    ensures forall i :: 0 <= i < |ops| ==> GoodOp(ops[i]) && !ops[i].RemoveDir?
  {
    hide ApplyOps;
    var all := if e.cmd.PullImage? then PullOps(fs, e.cmd.name, e.cmd.digest)
               else PublishOps(e.cmd.name, e.cmd.digest, e.cmd.explicit);
    var k: nat :| k <= |all| && e.after == ApplyOps(fs, all[..k]);
    ops := all[..k];
  }

  /** What a command that only removes things removes. */
  lemma RemovalOf(fs: Cache, e: Executed) returns (first: set<Path>, removed: set<Path>)
    requires WellFormed(fs) && Ran(fs, e.cmd, e.after, e.done)
    requires e.cmd.Collect? || e.cmd.DeleteImage?
    ensures e.after == (fs - first) - removed && removed <= Garbage(fs - first)
    ensures first == {} || (e.cmd.DeleteImage? && first == {PathFor(e.cmd.name)})
  {
    hide Collected;
    first, removed := {}, {};
    assert fs - {} == fs && (fs - {}) - {} == fs;
    if e.cmd.Collect? {
      removed :| removed <= Garbage(fs) && e.after == fs - removed;
    } else if Exists(fs, e.cmd.name) && (e.done || e.after != fs) {
      first := {PathFor(e.cmd.name)};
      assert ApplyOp(fs, DeleteOp(e.cmd.name)) == fs - first;
      removed :| removed <= Garbage(fs - first) && e.after == (fs - first) - removed;
    }
  }

  /** Every command keeps the cache well-formed, wherever it is cut short. */
  lemma CommandKeepsForm(fs: Cache, e: Executed)
    requires WellFormed(fs) && Ran(fs, e.cmd, e.after, e.done)
    ensures WellFormed(e.after)
  {
    hide Ran;
    if e.cmd.Collect? || e.cmd.DeleteImage? {
      var first, removed := RemovalOf(fs, e);
    } else {
      var ops := CommandOps(fs, e);
      ProgressKeepsForm(fs, ops);
    }
  }

  /** Every command but its own deletion by digest keeps an explicitly pulled directory. */
  lemma CommandKeepsFlag(fs: Cache, e: Executed, repo: string, digest: string)
    requires WellFormed(fs) && Ran(fs, e.cmd, e.after, e.done)
    requires Flagged(fs, DigestPath(repo, digest)) && e.cmd != DeleteImage(Digested(repo, digest))
    ensures Flagged(e.after, DigestPath(repo, digest))
  {
    hide Ran;
    var p := DigestPath(repo, digest);
    if e.cmd.Collect? || e.cmd.DeleteImage? {
      var first, removed := RemovalOf(fs, e);
      assert p !in first;
      assert !IsGarbage(fs - first, p);
    } else {
      var ops := CommandOps(fs, e);
      ProgressKeepsFlag(fs, ops, p);
    }
  }

  lemma {:induction false} RunKeepsForm(fs: Cache, run: seq<Executed>)
    requires WellFormed(fs) && IsRun(fs, run)
    ensures WellFormed(Final(fs, run))
    decreases |run|
  {
    if run != [] {
      CommandKeepsForm(fs, run[0]);
      RunKeepsForm(run[0].after, run[1..]);
    }
  }

  /**
   * After any run of commands from an empty cache, each possibly crashing between two changes, the
   * next completed collection leaves only resolving tags and tagged or explicitly pulled directories.
   */
  lemma NextCollectionCleans(run: seq<Executed>)
    requires IsRun(map[], run)
    ensures Clean(Collected(Final(map[], run)))
  {
    RunKeepsForm(map[], run);
    CollectedIsClean(Final(map[], run));
  }

  /** Once explicitly pulled, a directory survives every run that does not delete it by digest. */
  lemma {:induction false} FlagSurvives(fs: Cache, run: seq<Executed>, repo: string, digest: string)
    requires WellFormed(fs) && IsRun(fs, run) && Flagged(fs, DigestPath(repo, digest))
    requires forall i :: 0 <= i < |run| ==> run[i].cmd != DeleteImage(Digested(repo, digest))
    ensures Flagged(Final(fs, run), DigestPath(repo, digest))
    decreases |run|
  {
    if run != [] {
      CommandKeepsFlag(fs, run[0], repo, digest);
      CommandKeepsForm(fs, run[0]);
      FlagSurvives(run[0].after, run[1..], repo, digest);
    }
  }

  // ---- What a pull achieves ----

  lemma AllOps(fs: Cache, ops: seq<Op>, fs': Cache)
    requires Progressed(fs, ops, fs', true)
    ensures fs' == ApplyOps(fs, ops)
  {
    assert ops[..|ops|] == ops;
  }

  lemma PublishedAll(fs: Cache, name: Name, digest: string, explicit: bool)
    ensures var path := DigestPath(name.repo, digest);
            var published := ApplyOp(fs, Publish(path, explicit));
            ApplyOps(fs, PublishOps(name, digest, explicit))
            == if name.Tagged? then published[PathFor(name) := Link(path)] else published
  {
    hide ApplyOp;
    var ops := PublishOps(name, digest, explicit);
    assert ops[..1][..0] == [] && ops[..1][0] == ops[0];
    assert ApplyOps(fs, ops[..1]) == ApplyOp(fs, ops[0]);
    if name.Tagged? {
      assert ops[..2][..1] == ops[..1] && ops[..3] == ops && ops[..2] == ops[..|ops| - 1];
      Relinked(ApplyOp(fs, ops[0]), PathFor(name), DigestPath(name.repo, digest));
    } else {
      assert ops[..1] == ops;
    }
  }

  lemma Relinked(fs: Cache, p: Path, target: Path)
    ensures ApplyOp(ApplyOp(fs, RemoveLink(p)), MakeLink(p, target)) == fs[p := Link(target)]
  {}

  lemma DigestExists(fs: Cache, repo: string, digest: string)
    requires WellFormed(fs)
    ensures Exists(fs, Digested(repo, digest)) <==> DigestPath(repo, digest) in fs
  {}

  /**
   * After a completed pull of a tag the tag resolves; to the manifest's digest exactly when that
   * digest was not cached, or the tag did not resolve, or already led there. A directory that is new is
   * not flagged, and one that was cached is as it was.
   */
  lemma PulledTag(fs: Cache, repo: string, tag: string, digest: string, fs': Cache)
    requires WellFormed(fs) && Progressed(fs, PullOps(fs, Tagged(repo, tag), digest), fs', true)
    ensures Exists(fs', Tagged(repo, tag))
    ensures var path := DigestPath(repo, digest);
            path in fs' && fs'[path] == if path in fs then fs[path] else Dir(false)
    ensures Resolve(fs', Tagged(repo, tag)) == Some(DigestPath(repo, digest)) <==>
              || !Exists(fs, Digested(repo, digest))
              || !Exists(fs, Tagged(repo, tag))
              || Resolve(fs, Tagged(repo, tag)) == Some(DigestPath(repo, digest))
  {
    var name := Tagged(repo, tag);
    var ops, path := PullOps(fs, name, digest), DigestPath(repo, digest);
    AllOps(fs, ops, fs');
    if !Exists(fs, Digested(repo, digest)) {
      PublishedAll(fs, name, digest, false);
      DigestExists(fs, repo, digest);
    } else if !Exists(fs, name) {
      assert ops[..1][..0] == [] && ops[..2] == ops;
      assert ApplyOps(fs, ops[..1]) == ApplyOp(fs, ops[0]);
      Relinked(fs, PathFor(name), path);
    }
  }

  /**
   * Exactly when a pull by digest has a lasting effect: after it completes, the image survives the next
   * collection if and only if it was cached before (then it is flagged now), or a dangling tag has been
   * leading to it already.
   */
  lemma DigestPullSurvives(fs: Cache, repo: string, digest: string, fs': Cache)
    requires WellFormed(fs) && Progressed(fs, PullOps(fs, Digested(repo, digest), digest), fs', true)
    ensures Exists(fs', Digested(repo, digest))
    ensures DigestPath(repo, digest) in Collected(fs') <==>
              Exists(fs, Digested(repo, digest)) || Referenced(fs, DigestPath(repo, digest))
  {
    var name, path := Digested(repo, digest), DigestPath(repo, digest);
    DigestExists(fs, repo, digest);
    if Exists(fs, name) {
      CachedDigestPullIsFlagged(fs, repo, digest, fs');
    } else {
      AllOps(fs, PullOps(fs, name, digest), fs');
      PublishedAll(fs, name, digest, false);
      SameReferences(fs, path, path);
    }
  }

  /** A new directory refers to nothing. */
  lemma SameReferences(fs: Cache, path: Path, p: Path)
    requires path !in fs
    ensures Referenced(fs[path := Dir(false)], p) <==> Referenced(fs, p)
  {
    var fs' := fs[path := Dir(false)];
    if Referenced(fs, p) {
      var q :| q in fs.Keys && fs[q] == Link(p);
      assert q in fs'.Keys && fs'[q] == Link(p);
    }
  }

  /**
   * A pull by digest of an image that is not cached, and that no dangling tag leads to, is undone by the
   * next collection: the directory is neither tagged nor flagged.
   */
  lemma FreshDigestPullIsCollected(fs: Cache, repo: string, digest: string, fs': Cache)
    requires WellFormed(fs) && !Exists(fs, Digested(repo, digest)) && !Referenced(fs, DigestPath(repo, digest))
    requires Progressed(fs, PullOps(fs, Digested(repo, digest), digest), fs', true)
    ensures Collected(fs') == Collected(fs)
  {
    var name, path := Digested(repo, digest), DigestPath(repo, digest);
    AllOps(fs, PullOps(fs, name, digest), fs');
    PublishedAll(fs, name, digest, false);
    DigestExists(fs, repo, digest);
    assert fs' == fs[path := Dir(false)];
    forall p | p in fs'
      ensures IsGarbage(fs', p) <==> p == path || (p in fs && IsGarbage(fs, p))
    {
      SameReferences(fs, path, p);
      if p in fs && fs[p].Link? {
        assert p in fs.Keys && fs[p].target != path;
      }
    }
    assert Garbage(fs') == Garbage(fs) + {path};
  }

  /** A completed pull by digest of a cached image flags it. */
  lemma CachedDigestPullIsFlagged(fs: Cache, repo: string, digest: string, fs': Cache)
    requires WellFormed(fs) && Exists(fs, Digested(repo, digest))
    requires Progressed(fs, PullOps(fs, Digested(repo, digest), digest), fs', true)
    ensures fs' == fs[DigestPath(repo, digest) := Dir(true)]
  {
    var ops := PullOps(fs, Digested(repo, digest), digest);
    AllOps(fs, ops, fs');
    assert ops[..0] == [];
  }

  /**
   * Where a tag is on its way to a digest: it leads where it did, or nowhere, or to the digest's
   * directory, which is there by then; all other entries are as they were.
   */
  ghost predicate TagOnItsWay(fs: Cache, repo: string, tag: string, digest: string, fs': Cache) {
    var p, path := TagPath(repo, tag), DigestPath(repo, digest);
    && (p in fs' ==> (p in fs && fs'[p] == fs[p]) || (fs'[p] == Link(path) && path in fs'))
    && (path in fs' ==> if path in fs then fs'[path] == fs[path] else fs'[path].Dir?)
    && (forall q :: q != p && q in fs ==> q in fs' && fs'[q] == fs[q])
    && (forall q :: q in fs' && q !in fs ==> q == p || q == path)
  }

  lemma FirstOps(fs: Cache, ops: seq<Op>, k: nat)
    requires k <= |ops| <= 3
    ensures ApplyOps(fs, ops[..k])
         == if k == 0 then fs
            else if k == 1 then ApplyOp(fs, ops[0])
            else if k == 2 then ApplyOp(ApplyOp(fs, ops[0]), ops[1])
            else ApplyOp(ApplyOp(ApplyOp(fs, ops[0]), ops[1]), ops[2])
  {
    hide ApplyOp;
    if k > 0 {
      assert ops[..1][..0] == [] && ApplyOps(fs, ops[..1]) == ApplyOp(fs, ops[0]);
    }
    if k > 1 {
      assert ops[..2][..1] == ops[..1] && ApplyOps(fs, ops[..2]) == ApplyOp(ApplyOp(fs, ops[0]), ops[1]);
    }
    if k > 2 {
      assert ops[..3][..2] == ops[..2];
    }
  }

  /** Re-pointing a tag is not atomic: a pull cut short anywhere leaves the tag on its way. */
  lemma CrashedTag(fs: Cache, repo: string, tag: string, digest: string, fs': Cache, done: bool)
    requires WellFormed(fs) && Progressed(fs, PullOps(fs, Tagged(repo, tag), digest), fs', done)
    ensures TagOnItsWay(fs, repo, tag, digest, fs')
  {
    hide ApplyOps;
    var ops := PullOps(fs, Tagged(repo, tag), digest);
    var k: nat :| k <= |ops| && fs' == ApplyOps(fs, ops[..k]);
    FirstOps(fs, ops, k);
  }

  /** What moving an image in achieves under its name when it completes, and when it is cut short. */
  ghost predicate MovedIn(fs: Cache, name: Name, digest: string, explicit: bool, fs': Cache, done: bool) {
    var path := DigestPath(name.repo, digest);
    && (if name.Tagged? then TagOnItsWay(fs, name.repo, name.tag, digest, fs')
        else fs' == fs || fs' == if path in fs then fs else fs[path := Dir(explicit)])
    && (done ==>
         && Resolve(fs', Digested(name.repo, digest)) == Some(path)
         && (name.Tagged? ==> Resolve(fs', name) == Some(path))
         && fs'[path] == if path in fs then fs[path] else Dir(explicit))
  }

  lemma MoveInProgress(fs: Cache, name: Name, digest: string, explicit: bool, fs': Cache, done: bool)
    requires WellFormed(fs) && Progressed(fs, PublishOps(name, digest, explicit), fs', done)
    ensures MovedIn(fs, name, digest, explicit, fs', done)
  {
    hide ApplyOps;
    var ops := PublishOps(name, digest, explicit);
    var k: nat :| k <= |ops| && fs' == ApplyOps(fs, ops[..k]) && (done ==> k == |ops|);
    FirstOps(fs, ops, k);
  }
}
