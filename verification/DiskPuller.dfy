/** internal/oci/diskpuller: where each disk layer goes, and the concurrent tasks that put it there. */
module DiskPuller {
  import opened Bytes
  import opened SparseIO
  import opened OCI

  type NameFromDescriptor = Descriptor -> Result<string>

  // ---- Planning: from descriptors to offsets ----

  datatype Entry = Entry(name: string, size: int)

  function EntryOf(disk: Descriptor, nameOf: NameFromDescriptor, sizeAnnotation: string): Result<Entry> {
    match nameOf(disk)
    case Err(e) => Err(e)
    case Ok(name) =>
      if sizeAnnotation !in disk.annotations then Err(MissingSize)
      else match ParseInt(disk.annotations[sizeAnnotation])
        case None => Err(BadSize)
        case Some(size) => Ok(Entry(name, size))
  }

  /** All entries, or the error of the first descriptor that has none. */
  function Entries(disks: seq<Descriptor>, nameOf: NameFromDescriptor, sizeAnnotation: string): (r: Result<seq<Entry>>)
    ensures r.Ok? ==> |r.value| == |disks|
  {
    if disks == [] then Ok([])
    else match Entries(disks[..|disks| - 1], nameOf, sizeAnnotation)
      case Err(e) => Err(e)
      case Ok(front) =>
        match EntryOf(disks[|disks| - 1], nameOf, sizeAnnotation)
        case Err(e) => Err(e)
        case Ok(last) => Ok(front + [last])
  }

  /**
   * Exactly which layers can be planned: those of which every one has a name the caller accepts and a
   * size annotation that is a number; names and sizes are then these.
   */
  lemma {:induction false} EntriesExact(disks: seq<Descriptor>, nameOf: NameFromDescriptor, sizeAnnotation: string)
    ensures Entries(disks, nameOf, sizeAnnotation).Ok? <==>
              forall i :: 0 <= i < |disks| ==>
                && nameOf(disks[i]).Ok?
                && sizeAnnotation in disks[i].annotations && ParseInt(disks[i].annotations[sizeAnnotation]).Some?
    ensures Entries(disks, nameOf, sizeAnnotation).Ok? ==>
              forall i :: 0 <= i < |disks| ==>
                && nameOf(disks[i]) == Ok(Entries(disks, nameOf, sizeAnnotation).value[i].name)
                && ParseInt(disks[i].annotations[sizeAnnotation])
                   == Some(Entries(disks, nameOf, sizeAnnotation).value[i].size)
    decreases |disks|
  {
    hide ParseInt;
    if disks != [] {
      EntriesExact(disks[..|disks| - 1], nameOf, sizeAnnotation);
    }
  }

  /** int64 addition. */
  function AddInt64(a: int, b: int): (r: int)
    ensures -MAX_INT64 - 1 <= r <= MAX_INT64
    ensures (a + b - r) % (2 * (MAX_INT64 + 1)) == 0
    ensures -MAX_INT64 - 1 <= a + b <= MAX_INT64 ==> r == a + b
  {
    (a + b + MAX_INT64 + 1) % (2 * MAX_INT64 + 2) - MAX_INT64 - 1
  }

  /** Where the next layer of the named disk goes: the sizes of that disk's layers added up so far. */
  function OffsetAfter(entries: seq<Entry>, name: string): int {
    if entries == [] then 0
    else
      var before, last := OffsetAfter(entries[..|entries| - 1], name), entries[|entries| - 1];
      if last.name == name then AddInt64(before, last.size) else before
  }

  datatype Task = Task(desc: Descriptor, name: string, offset: int)

  ghost predicate Planned(disks: seq<Descriptor>, entries: seq<Entry>, tasks: seq<Task>, lengths: map<string, int>) {
    && |tasks| == |entries| == |disks|
    && (forall i :: 0 <= i < |tasks| ==>
         tasks[i] == Task(disks[i], entries[i].name, OffsetAfter(entries[..i], entries[i].name)))
    && (forall name :: name in lengths <==> exists i :: 0 <= i < |entries| && entries[i].name == name)
    && (forall name :: name in lengths ==> lengths[name] == OffsetAfter(entries, name))
  }

  method PlanTasks(disks: seq<Descriptor>, nameOf: NameFromDescriptor, sizeAnnotation: string)
    returns (r: Result<(seq<Task>, map<string, int>)>)
    ensures Entries(disks, nameOf, sizeAnnotation).Err? ==> r == Err(Entries(disks, nameOf, sizeAnnotation).error)
    ensures Entries(disks, nameOf, sizeAnnotation).Ok? ==>
              r.Ok? && Planned(disks, Entries(disks, nameOf, sizeAnnotation).value, r.value.0, r.value.1)
  {
    hide Planned;
    hide OffsetAfter;
    hide Entries;
    hide ParseInt;
    var diskTasks: seq<Task> := [];
    var diskNameToOffset: map<string, int> := map[];
    ghost var entries: seq<Entry> := [];
    NothingPlanned(nameOf, sizeAnnotation);
    for i := 0 to |disks|
      invariant Entries(disks[..i], nameOf, sizeAnnotation) == Ok(entries)
      invariant Planned(disks[..i], entries, diskTasks, diskNameToOffset)
    {
      var disk := disks[i];
      assert disks[..i + 1] == disks[..i] + [disk];
      EntriesSnoc(disks[..i], entries, disk, nameOf, sizeAnnotation);
      if EntryOf(disk, nameOf, sizeAnnotation).Err? {
        EntriesStopAtError(disks, nameOf, sizeAnnotation, i + 1);
      }
      var named := nameOf(disk);
      if named.Err? {
        return Err(named.error);
      }
      if sizeAnnotation !in disk.annotations {
        return Err(MissingSize);
      }
      var size := ParseInt(disk.annotations[sizeAnnotation]);
      if size.None? {
        return Err(BadSize);
      }
      var name := named.value;
      var offset := if name in diskNameToOffset then diskNameToOffset[name] else 0;
      LookedUpOffset(disks[..i], entries, diskTasks, diskNameToOffset, name);
      PlanSnoc(disks[..i], entries, diskTasks, diskNameToOffset, disk, Entry(name, size.value), offset);
      diskTasks := diskTasks + [Task(disk, name, offset)];
      diskNameToOffset := diskNameToOffset[name := AddInt64(offset, size.value)];
      entries := entries + [Entry(name, size.value)];
    }
    assert disks[..|disks|] == disks;
    return Ok((diskTasks, diskNameToOffset));
  }

  lemma NothingPlanned(nameOf: NameFromDescriptor, sizeAnnotation: string)
    ensures Entries([], nameOf, sizeAnnotation) == Ok([]) && Planned([], [], [], map[])
  {}

  lemma EntriesSnoc(disks: seq<Descriptor>, entries: seq<Entry>, disk: Descriptor,
                    nameOf: NameFromDescriptor, sizeAnnotation: string)
    requires Entries(disks, nameOf, sizeAnnotation) == Ok(entries)
    ensures Entries(disks + [disk], nameOf, sizeAnnotation)
         == match EntryOf(disk, nameOf, sizeAnnotation)
            case Err(e) => Err(e)
            case Ok(last) => Ok(entries + [last])
  {
    assert (disks + [disk])[..|disks|] == disks;
  }

  lemma LookedUpOffset(disks: seq<Descriptor>, entries: seq<Entry>, tasks: seq<Task>, lengths: map<string, int>,
                       name: string)
    requires Planned(disks, entries, tasks, lengths)
    ensures (if name in lengths then lengths[name] else 0) == OffsetAfter(entries, name)
  {
    if name !in lengths {
      OffsetOfUnseen(entries, name);
    }
  }

  lemma EntriesStopAtError(disks: seq<Descriptor>, nameOf: NameFromDescriptor, sizeAnnotation: string, i: nat)
    requires i <= |disks| && Entries(disks[..i], nameOf, sizeAnnotation).Err?
    ensures Entries(disks, nameOf, sizeAnnotation) == Entries(disks[..i], nameOf, sizeAnnotation)
    decreases |disks|
  {
    if i == |disks| {
      assert disks[..i] == disks;
    } else {
      assert disks[..|disks| - 1][..i] == disks[..i];
      EntriesStopAtError(disks[..|disks| - 1], nameOf, sizeAnnotation, i);
    }
  }

  lemma {:induction false} OffsetOfUnseen(entries: seq<Entry>, name: string)
    requires forall i :: 0 <= i < |entries| ==> entries[i].name != name
    ensures OffsetAfter(entries, name) == 0
  {
    if entries != [] {
      OffsetOfUnseen(entries[..|entries| - 1], name);
    }
  }

  lemma PlanSnoc(disks: seq<Descriptor>, entries: seq<Entry>, tasks: seq<Task>, lengths: map<string, int>,
                 disk: Descriptor, entry: Entry, offset: int)
    requires Planned(disks, entries, tasks, lengths) && offset == OffsetAfter(entries, entry.name)
    ensures Planned(disks + [disk], entries + [entry], tasks + [Task(disk, entry.name, offset)],
                    lengths[entry.name := AddInt64(offset, entry.size)])
  {
    var entries', tasks' := entries + [entry], tasks + [Task(disk, entry.name, offset)];
    var lengths' := lengths[entry.name := AddInt64(offset, entry.size)];
    assert entries'[..|entries|] == entries;
    forall i | 0 <= i < |tasks'|
      ensures tasks'[i] == Task((disks + [disk])[i], entries'[i].name, OffsetAfter(entries'[..i], entries'[i].name))
    {
      assert i < |tasks| ==> entries'[..i] == entries[..i];
    }
    forall name
      ensures name in lengths' <==> exists i :: 0 <= i < |entries'| && entries'[i].name == name
    {
      if name in lengths {
        var i :| 0 <= i < |entries| && entries[i].name == name;
        assert entries'[i].name == name;
      }
      assert entries'[|entries|].name == entry.name;
    }
  }

  // ---- Pre-creating the files ----

  function Truncate(content: seq<byte>, length: nat): (r: seq<byte>)
    ensures |r| == length
    ensures forall k :: 0 <= k < length ==> r[k] == if k < |content| then content[k] else 0
  {
    if length <= |content| then content[..length] else content + Zeros(length - |content|)
  }

  class Directory {
    var files: Files

    constructor (files: Files)
      ensures this.files == files
    {
      this.files := files;
    }
  }

  /** The file a disk starts from: opened without truncation, so an existing file keeps its bytes. */
  function Opened(files: Files, name: string): seq<byte> {
    if name in files then files[name] else []
  }

  /** The files once those in `done` have been opened and truncated. */
  function Prepared(files: Files, lengths: map<string, int>, done: set<string>): (r: Files)
    requires done <= lengths.Keys && forall name :: name in done ==> lengths[name] >= 0
    ensures r.Keys == files.Keys + done
  {
    map name | name in files.Keys + done ::
      if name in done then Truncate(Opened(files, name), lengths[name]) else files[name]
  }

  /** What an error leaves behind: some of the files are done, and the one it is about has been opened. */
  ghost predicate PartlyPrepared(files: Files, lengths: map<string, int>, files': Files) {
    exists done: set<string>, name: string {:trigger Prepared(files, lengths, done), lengths[name]} ::
      && done <= lengths.Keys && (forall n :: n in done ==> lengths[n] >= 0)
      && name in lengths && lengths[name] < 0
      && files' == Prepared(files, lengths, done)[name := Opened(files, name)]
  }

  /**
   * A disk file that was there keeps its bytes up to its length, a new one is all zeros, and all other
   * files are left alone.
   */
  lemma PreparedKeepsBytes(files: Files, lengths: map<string, int>, name: string)
    requires forall n :: n in lengths ==> lengths[n] >= 0
    ensures name in Prepared(files, lengths, lengths.Keys) <==> name in files || name in lengths
    ensures name in lengths ==>
              var file := Prepared(files, lengths, lengths.Keys)[name];
              && |file| == lengths[name]
              && forall k :: 0 <= k < |file| ==>
                   file[k] == if name in files && k < |files[name]| then files[name][k] else 0
    ensures name in files && name !in lengths ==> Prepared(files, lengths, lengths.Keys)[name] == files[name]
  {
    assert name in lengths <==> name in lengths.Keys;
  }

  method PrepareFiles(dir: Directory, lengths: map<string, int>) returns (r: Result<()>)
    modifies dir
    ensures r.Ok? <==> forall name :: name in lengths ==> lengths[name] >= 0
    ensures r.Ok? ==> dir.files == Prepared(old(dir.files), lengths, lengths.Keys)
    ensures r.Err? ==> r.error == NegativeLength && PartlyPrepared(old(dir.files), lengths, dir.files)
  {
    hide Truncate;
    hide Prepared;
    var todo := lengths.Keys;
    ghost var done: set<string> := {};
    NothingPrepared(dir.files, lengths);
    while todo != {}
      invariant done + todo == lengths.Keys && done !! todo
      invariant forall name :: name in done ==> lengths[name] >= 0
      invariant dir.files == Prepared(old(dir.files), lengths, done)
      decreases todo
    {
      var name :| name in todo;
      assert name in lengths.Keys;
      OthersUntouched(old(dir.files), lengths, done, name);
      if lengths[name] < 0 {
        dir.files := dir.files[name := Opened(dir.files, name)];
        return Err(NegativeLength);
      }
      PrepareOne(old(dir.files), lengths, done, name);
      dir.files := dir.files[name := Truncate(Opened(dir.files, name), lengths[name])];
      todo, done := todo - {name}, done + {name};
    }
    assert done == lengths.Keys;
    return Ok(());
  }

  lemma NothingPrepared(files: Files, lengths: map<string, int>)
    ensures Prepared(files, lengths, {}) == files
  {}

  lemma OthersUntouched(files: Files, lengths: map<string, int>, done: set<string>, name: string)
    requires done <= lengths.Keys && name !in done && forall n :: n in done ==> lengths[n] >= 0
    ensures Opened(Prepared(files, lengths, done), name) == Opened(files, name)
  {}

  lemma PrepareOne(files: Files, lengths: map<string, int>, done: set<string>, name: string)
    requires done + {name} <= lengths.Keys && name !in done
    requires forall n :: n in done + {name} ==> lengths[n] >= 0
    ensures Prepared(files, lengths, done + {name})
         == Prepared(files, lengths, done)[name :=
              Truncate(Opened(Prepared(files, lengths, done), name), lengths[name])]
  {}

  // ---- The concurrent tasks ----

  /** A task with the data its decompressor will hand over. */
  datatype Job = Job(name: string, offset: int, plain: seq<byte>)

  datatype Progress = Running(position: nat) | Done | Failed

  datatype State = State(files: Files, progress: seq<Progress>)

  /** One round of some task's copy loop, or a task giving up. Any task may move next. */
  datatype Event = Read(job: nat, n: nat, eof: bool) | Fail(job: nat)

  predicate Enabled(jobs: seq<Job>, s: State, e: Event) {
    && |s.progress| == |jobs|
    && e.job < |jobs|
    && s.progress[e.job].Running?
    && (e.Read? ==>
         var job, at := jobs[e.job], s.progress[e.job].position;
         && e.n <= BLOCK_SIZE
         && at + e.n <= |job.plain|
         && (e.eof ==> at + e.n == |job.plain|)
         && job.name in s.files
         && (job.offset + at >= 0 || AllZero(job.plain[at..at + e.n])))
  }

  /** WriteAt for data that is not all zeros. */
  function PutSparse(files: Files, name: string, at: int, data: seq<byte>): Files
    requires name in files && (at >= 0 || AllZero(data))
  {
    if AllZero(data) then files else files[name := Splice(files[name], at, data)]
  }

  function Apply(jobs: seq<Job>, s: State, e: Event): State
    requires Enabled(jobs, s, e)
  {
    match e
    case Fail(j) => s.(progress := s.progress[j := Failed])
    case Read(j, n, eof) =>
      var job, at := jobs[j], s.progress[j].position;
      State(PutSparse(s.files, job.name, job.offset + at, job.plain[at..at + n]),
            s.progress[j := if eof then Done else Running(at + n)])
  }

  function Start(jobs: seq<Job>, files: Files): State {
    State(files, seq(|jobs|, _ => Running(0)))
  }

  /** The state after the events, or None when one of them could not happen. */
  function Execute(jobs: seq<Job>, s: State, events: seq<Event>): Option<State> {
    if events == [] then Some(s)
    else
      var before := Execute(jobs, s, events[..|events| - 1]);
      var last := events[|events| - 1];
      if before.Some? && Enabled(jobs, before.value, last) then Some(Apply(jobs, before.value, last)) else None
  }

  /** errgroup.Wait reports no error: every task has read its decompressor to the end. */
  predicate Succeeded(s: State) {
    forall p :: p in s.progress ==> p == Done
  }

  // ---- Placement: task ranges tile each disk ----

  /** The data of the named disk's layers, in order. */
  function Content(jobs: seq<Job>, name: string): seq<byte> {
    if jobs == [] then []
    else
      var last := jobs[|jobs| - 1];
      Content(jobs[..|jobs| - 1], name) + if last.name == name then last.plain else []
  }

  /** Each task's offset is the amount of data its disk's earlier layers hold. */
  ghost predicate WellPlaced(jobs: seq<Job>) {
    forall i :: 0 <= i < |jobs| ==> jobs[i].offset == |Content(jobs[..i], jobs[i].name)|
  }

  lemma {:induction false} ContentPrefix(jobs: seq<Job>, i: nat, name: string)
    requires i <= |jobs|
    ensures Content(jobs[..i], name) <= Content(jobs, name)
    decreases |jobs|
  {
    if i < |jobs| {
      assert jobs[..|jobs| - 1][..i] == jobs[..i];
      ContentPrefix(jobs[..|jobs| - 1], i, name);
    } else {
      assert jobs[..i] == jobs;
    }
  }

  /** A task's range lies inside its disk and is meant for exactly the task's data. */
  lemma TaskRange(jobs: seq<Job>, i: nat)
    requires WellPlaced(jobs) && i < |jobs|
    ensures var job, disk := jobs[i], Content(jobs, jobs[i].name);
            0 <= job.offset && job.offset + |job.plain| <= |disk|
            && disk[job.offset..job.offset + |job.plain|] == job.plain
  {
    var name := jobs[i].name;
    assert jobs[..i + 1][..i] == jobs[..i];
    assert Content(jobs[..i + 1], name) == Content(jobs[..i], name) + jobs[i].plain;
    ContentPrefix(jobs, i + 1, name);
  }

  predicate Covers(job: Job, name: string, position: int) {
    job.name == name && job.offset <= position < job.offset + |job.plain|
  }

  /** The ranges tile: every position of a disk is in the range of one task and of no other. */
  lemma {:induction false} RangesTile(jobs: seq<Job>, name: string, position: nat)
    requires WellPlaced(jobs) && position < |Content(jobs, name)|
    ensures exists i :: 0 <= i < |jobs| && Covers(jobs[i], name, position)
    ensures forall i, k |
              && 0 <= i < |jobs| && Covers(jobs[i], name, position)
              && 0 <= k < |jobs| && Covers(jobs[k], name, position) :: i == k
    decreases |jobs|
  {
    RangeExists(jobs, name, position);
    forall i, k |
        && 0 <= i < |jobs| && Covers(jobs[i], name, position)
        && 0 <= k < |jobs| && Covers(jobs[k], name, position)
      ensures i == k
    {
      if i < k {
        RangesInOrder(jobs, i, k);
      } else if k < i {
        RangesInOrder(jobs, k, i);
      }
    }
  }

  lemma {:induction false} RangeExists(jobs: seq<Job>, name: string, position: nat)
    requires WellPlaced(jobs) && position < |Content(jobs, name)|
    ensures exists i :: 0 <= i < |jobs| && Covers(jobs[i], name, position)
    decreases |jobs|
  {
    var front, last := jobs[..|jobs| - 1], jobs[|jobs| - 1];
    if position < |Content(front, name)| {
      forall i | 0 <= i < |front|
        ensures front[i].offset == |Content(front[..i], front[i].name)|
      {
        assert front[..i] == jobs[..i];
      }
      RangeExists(front, name, position);
      var i :| 0 <= i < |front| && Covers(front[i], name, position);
      assert Covers(jobs[i], name, position);
    } else {
      assert Covers(last, name, position);
    }
  }

  lemma RangesInOrder(jobs: seq<Job>, i: nat, k: nat)
    requires WellPlaced(jobs) && i < k < |jobs| && jobs[i].name == jobs[k].name
    ensures jobs[i].offset + |jobs[i].plain| <= jobs[k].offset
  {
    var name := jobs[i].name;
    assert jobs[..i + 1][..i] == jobs[..i];
    assert Content(jobs[..i + 1], name) == Content(jobs[..i], name) + jobs[i].plain;
    assert jobs[..k][..i + 1] == jobs[..i + 1];
    ContentPrefix(jobs[..k], i + 1, name);
  }

  // ---- What a successful run leaves behind ----

  /** The file has its disk's length, and nothing but zeros wherever the disk has zeros. */
  ghost predicate ReadyFor(jobs: seq<Job>, files: Files, name: string) {
    && name in files
    && |files[name]| == |Content(jobs, name)|
    && ZeroCompatible(files[name], 0, Content(jobs, name))
  }

  ghost predicate Ready(jobs: seq<Job>, files: Files) {
    forall i :: 0 <= i < |jobs| ==> ReadyFor(jobs, files, jobs[i].name)
  }

  function Position(job: Job, p: Progress): nat {
    match p
    case Running(position) => position
    case Done => |job.plain|
    case Failed => 0
  }

  /** The part of its data a task has been through is in the file. */
  ghost predicate Landed(jobs: seq<Job>, s: State, i: nat)
    requires i < |jobs| == |s.progress| && WellPlaced(jobs)
  {
    var job := jobs[i];
    var disk, position := Content(jobs, job.name), Position(job, s.progress[i]);
    && position <= |job.plain|
    && ReadyFor(jobs, s.files, job.name)
    && (TaskRange(jobs, i);
        forall k :: job.offset <= k < job.offset + position ==> s.files[job.name][k] == disk[k])
  }

  ghost predicate Inv(jobs: seq<Job>, files: Files, s: State)
    requires WellPlaced(jobs)
  {
    && |s.progress| == |jobs|
    && s.files.Keys == files.Keys
    && (forall name :: name in files && (forall i :: 0 <= i < |jobs| ==> jobs[i].name != name) ==>
         s.files[name] == files[name])
    && (forall i :: 0 <= i < |jobs| ==> Landed(jobs, s, i))
  }

  /** A sparse write of the disk's own data fixes its range and spoils nothing else. */
  lemma WriteMovesTowards(file: seq<byte>, disk: seq<byte>, at: nat, data: seq<byte>)
    requires |file| == |disk| && ZeroCompatible(file, 0, disk)
    requires at + |data| <= |disk| && disk[at..at + |data|] == data
    ensures var file' := if AllZero(data) then file else Splice(file, at, data);
            && |file'| == |file| && ZeroCompatible(file', 0, disk)
            && (forall k :: 0 <= k < |disk| ==> file'[k] == file[k] || file'[k] == disk[k])
            && (forall k :: at <= k < at + |data| ==> file'[k] == disk[k])
  {
    assert forall k :: at <= k < at + |data| ==> disk[k] == data[k - at];
  }

  lemma StepKeepsInv(jobs: seq<Job>, files: Files, s: State, e: Event)
    requires WellPlaced(jobs) && Inv(jobs, files, s) && Enabled(jobs, s, e)
    ensures Inv(jobs, files, Apply(jobs, s, e))
  {
    hide Splice;
    hide AllZero;
    hide WellPlaced;
    hide Content;
    var s' := Apply(jobs, s, e);
    var j, job := e.job, jobs[e.job];
    assert Landed(jobs, s, j);
    if e.Read? {
      var at := s.progress[j].position;
      var data, disk, file := job.plain[at..at + e.n], Content(jobs, job.name), s.files[job.name];
      TaskRange(jobs, j);
      assert disk[job.offset + at..job.offset + at + e.n] == data;
      WriteMovesTowards(file, disk, job.offset + at, data);
    }
    forall i | 0 <= i < |jobs|
      ensures Landed(jobs, s', i)
    {
      assert Landed(jobs, s, i);
      TaskRange(jobs, i);
    }
  }

  lemma {:induction false} RunKeepsInv(jobs: seq<Job>, files: Files, events: seq<Event>)
    requires WellPlaced(jobs) && Ready(jobs, files)
    ensures var r := Execute(jobs, Start(jobs, files), events);
            r.Some? ==> Inv(jobs, files, r.value)
    decreases |events|
  {
    hide Apply;
    hide Enabled;
    if events == [] {
      forall i | 0 <= i < |jobs|
        ensures Landed(jobs, Start(jobs, files), i)
      {
        TaskRange(jobs, i);
      }
    } else {
      var front, last := events[..|events| - 1], events[|events| - 1];
      RunKeepsInv(jobs, files, front);
      var before := Execute(jobs, Start(jobs, files), front);
      if before.Some? && Enabled(jobs, before.value, last) {
        StepKeepsInv(jobs, files, before.value, last);
      }
    }
  }

  /**
   * However the tasks' copy loops interleave and however their decompressors cut the data into
   * reads, a pull in which every task succeeds leaves every disk with exactly its layers' data and
   * touches no other file.
   */
  lemma SuccessfulPull(jobs: seq<Job>, files: Files, events: seq<Event>, s: State)
    requires WellPlaced(jobs) && Ready(jobs, files)
    requires Execute(jobs, Start(jobs, files), events) == Some(s) && Succeeded(s)
    ensures s.files.Keys == files.Keys
    ensures forall i :: 0 <= i < |jobs| ==>
              jobs[i].name in s.files && s.files[jobs[i].name] == Content(jobs, jobs[i].name)
    ensures forall name :: name in files && (forall i :: 0 <= i < |jobs| ==> jobs[i].name != name) ==>
              s.files[name] == files[name]
  {
    RunKeepsInv(jobs, files, events);
    forall i | 0 <= i < |jobs|
      ensures jobs[i].name in s.files && s.files[jobs[i].name] == Content(jobs, jobs[i].name)
    {
      EveryByteLanded(jobs, files, s, jobs[i].name, i);
    }
  }

  lemma EveryByteLanded(jobs: seq<Job>, files: Files, s: State, name: string, i: nat)
    requires WellPlaced(jobs) && Inv(jobs, files, s) && Succeeded(s)
    requires i < |jobs| && jobs[i].name == name
    ensures name in s.files && s.files[name] == Content(jobs, name)
  {
    hide WellPlaced;
    hide Content;
    assert Landed(jobs, s, i);
    var disk := Content(jobs, name);
    forall k | 0 <= k < |disk|
      ensures s.files[name][k] == disk[k]
    {
      RangesTile(jobs, name, k);
      var c :| 0 <= c < |jobs| && Covers(jobs[c], name, k);
      assert Landed(jobs, s, c);
      assert s.progress[c] in s.progress;
    }
  }

  // ---- A cancelled pull ----

  /**
   * PullDisks stops handing out tasks as soon as its context is cancelled, and reports only errors of
   * the tasks it has handed out: the first n have run to their ends, and nobody hears of the others.
   */
  predicate StoppedAfter(s: State, n: nat) {
    forall i :: 0 <= i < |s.progress| ==> s.progress[i] == if i < n then Done else Running(0)
  }

  /** The task's range of the file. */
  function RangeIn(jobs: seq<Job>, files: Files, i: nat): seq<byte>
    requires i < |jobs| && WellPlaced(jobs) && ReadyFor(jobs, files, jobs[i].name)
  {
    TaskRange(jobs, i);
    files[jobs[i].name][jobs[i].offset..jobs[i].offset + |jobs[i].plain|]
  }

  /** A task that has not got anywhere has its range as it was, whatever the other tasks have done. */
  ghost predicate Untouched(jobs: seq<Job>, files: Files, s: State, i: nat)
    requires i < |jobs| == |s.progress| && WellPlaced(jobs)
    requires ReadyFor(jobs, files, jobs[i].name) && ReadyFor(jobs, s.files, jobs[i].name)
  {
    s.progress[i] == Running(0) ==> RangeIn(jobs, s.files, i) == RangeIn(jobs, files, i)
  }

  lemma WriteElsewhere(file: seq<byte>, at: nat, data: seq<byte>, from: nat, to: nat)
    requires at + |data| <= |file| && from <= to <= |file|
    requires to <= at || at + |data| <= from || data == []
    ensures Splice(file, at, data)[from..to] == file[from..to]
  {}

  lemma StepKeepsUntouched(jobs: seq<Job>, files: Files, s: State, e: Event, i: nat)
    requires WellPlaced(jobs) && Ready(jobs, files) && Inv(jobs, files, s) && Enabled(jobs, s, e)
    requires i < |jobs| && Landed(jobs, s, i) && Untouched(jobs, files, s, i)
    ensures Landed(jobs, Apply(jobs, s, e), i) && Untouched(jobs, files, Apply(jobs, s, e), i)
  {
    hide Splice;
    hide Content;
    hide WellPlaced;
    StepKeepsInv(jobs, files, s, e);
    assert Landed(jobs, s, e.job);
    TaskRange(jobs, i);
    TaskRange(jobs, e.job);
    if e.Read? && jobs[e.job].name == jobs[i].name {
      var job, at := jobs[e.job], s.progress[e.job].position;
      if e.job < i {
        RangesInOrder(jobs, e.job, i);
      } else if i < e.job {
        RangesInOrder(jobs, i, e.job);
      }
      if e.job != i || e.n == 0 {
        WriteElsewhere(s.files[job.name], job.offset + at, job.plain[at..at + e.n],
                       jobs[i].offset, jobs[i].offset + |jobs[i].plain|);
      }
    }
  }

  lemma {:induction false} RunKeepsUntouched(jobs: seq<Job>, files: Files, events: seq<Event>, i: nat)
    requires WellPlaced(jobs) && Ready(jobs, files) && i < |jobs|
    requires Execute(jobs, Start(jobs, files), events).Some?
    ensures var s := Execute(jobs, Start(jobs, files), events).value;
            Inv(jobs, files, s) && Landed(jobs, s, i) && Untouched(jobs, files, s, i)
    decreases |events|
  {
    hide Apply;
    hide Enabled;
    hide Landed;
    hide RangeIn;
    RunKeepsInv(jobs, files, events);
    if events != [] {
      var front, last := events[..|events| - 1], events[|events| - 1];
      RunKeepsUntouched(jobs, files, front, i);
      StepKeepsUntouched(jobs, files, Execute(jobs, Start(jobs, files), front).value, last, i);
    }
  }

  /** The file already holds the data of every layer of its disk from the n-th on. */
  ghost predicate RestAlreadyThere(jobs: seq<Job>, files: Files, n: nat, name: string)
    requires WellPlaced(jobs) && Ready(jobs, files)
  {
    forall i :: n <= i < |jobs| && jobs[i].name == name ==> RangeIn(jobs, files, i) == jobs[i].plain
  }

  /**
   * When a pull that was cancelled after its first n tasks, and reports no error, has got a disk right:
   * if and only if the disk's other layers were in its file from the beginning, which for a new file
   * means that they are all zeros.
   */
  lemma CancelledPull(jobs: seq<Job>, files: Files, events: seq<Event>, s: State, n: nat, j: nat)
    requires WellPlaced(jobs) && Ready(jobs, files) && j < |jobs|
    requires Execute(jobs, Start(jobs, files), events) == Some(s) && StoppedAfter(s, n)
    ensures jobs[j].name in s.files
    ensures s.files[jobs[j].name] == Content(jobs, jobs[j].name) <==> RestAlreadyThere(jobs, files, n, jobs[j].name)
    ensures AllZero(files[jobs[j].name]) ==>
              (s.files[jobs[j].name] == Content(jobs, jobs[j].name) <==>
               forall i :: n <= i < |jobs| && jobs[i].name == jobs[j].name ==> AllZero(jobs[i].plain))
  {
    hide WellPlaced;
    hide Content;
    hide Execute;
    hide AllZero;
    var name := jobs[j].name;
    var disk := Content(jobs, name);
    RunKeepsInv(jobs, files, events);
    forall i | 0 <= i < |jobs|
      ensures Landed(jobs, s, i) && Untouched(jobs, files, s, i)
    {
      RunKeepsUntouched(jobs, files, events, i);
    }
    assert Landed(jobs, s, j);
    if s.files[name] == disk {
      forall i | n <= i < |jobs| && jobs[i].name == name
        ensures RangeIn(jobs, files, i) == jobs[i].plain
      {
        assert Untouched(jobs, files, s, i);
        TaskRange(jobs, i);
      }
    }
    if RestAlreadyThere(jobs, files, n, name) {
      forall k | 0 <= k < |disk|
        ensures s.files[name][k] == disk[k]
      {
        FinishedOrThere(jobs, files, s, n, name, k);
      }
      assert s.files[name] == disk;
    }
    if AllZero(files[name]) {
      forall i | n <= i < |jobs| && jobs[i].name == name
        ensures RangeIn(jobs, files, i) == jobs[i].plain <==> AllZero(jobs[i].plain)
      {
        ZeroRange(jobs, files, i);
      }
    }
  }

  lemma ZeroRange(jobs: seq<Job>, files: Files, i: nat)
    requires WellPlaced(jobs) && Ready(jobs, files) && i < |jobs| && AllZero(files[jobs[i].name])
    ensures RangeIn(jobs, files, i) == jobs[i].plain <==> AllZero(jobs[i].plain)
  {
    TaskRange(jobs, i);
    var range := RangeIn(jobs, files, i);
    EqualToZeros(jobs[i].plain, range);
    assert range[..|jobs[i].plain|] == range;
  }

  lemma FinishedOrThere(jobs: seq<Job>, files: Files, s: State, n: nat, name: string, k: nat)
    requires WellPlaced(jobs) && Ready(jobs, files) && Inv(jobs, files, s) && StoppedAfter(s, n)
    requires k < |Content(jobs, name)|
    requires forall i :: 0 <= i < |jobs| ==> Landed(jobs, s, i) && Untouched(jobs, files, s, i)
    requires RestAlreadyThere(jobs, files, n, name)
    ensures name in s.files && |s.files[name]| == |Content(jobs, name)| && s.files[name][k] == Content(jobs, name)[k]
  {
    hide WellPlaced;
    hide Content;
    RangesTile(jobs, name, k);
    var c :| 0 <= c < |jobs| && Covers(jobs[c], name, k);
    TaskRange(jobs, c);
    assert Landed(jobs, s, c);
    if n <= c {
      var at := k - jobs[c].offset;
      assert RangeIn(jobs, s.files, c)[at] == jobs[c].plain[at];
    }
  }

  /** Cancelled before its first task, a pull of a single one-byte layer reports no error and leaves a zero. */
  lemma CancelledPullCanBeWrong() returns (jobs: seq<Job>, files: Files, s: State)
    ensures WellPlaced(jobs) && Ready(jobs, files) && jobs != []
    ensures Execute(jobs, Start(jobs, files), []) == Some(s) && StoppedAfter(s, 0)
    ensures jobs[0].name in s.files && s.files[jobs[0].name] != Content(jobs, jobs[0].name)
  {
    jobs, files := [Job("disk", 0, [1])], map["disk" := [0]];
    s := Start(jobs, files);
    assert jobs[..0] == [] && Content(jobs[..0], "disk") == [];
    assert Content(jobs, "disk") == [1];
  }

  function Remaining(jobs: seq<Job>, s: State, i: nat): nat
    requires i < |jobs| == |s.progress|
  {
    if s.progress[i].Running? && s.progress[i].position <= |jobs[i].plain|
    then |jobs[i].plain| - s.progress[i].position + 1 else 0
  }

  /** No task is ever stuck: one that is not finished can move, and every such move brings it closer to its end. */
  lemma UnfinishedTaskCanMove(jobs: seq<Job>, files: Files, s: State, i: nat) returns (e: Event)
    requires WellPlaced(jobs) && Inv(jobs, files, s) && i < |jobs| && s.progress[i].Running?
    ensures e.Read? && e.job == i && Enabled(jobs, s, e)
    ensures Remaining(jobs, Apply(jobs, s, e), i) < Remaining(jobs, s, i)
  {
    assert Landed(jobs, s, i);
    TaskRange(jobs, i);
    var left := |jobs[i].plain| - s.progress[i].position;
    e := if left <= BLOCK_SIZE then Read(i, left, true) else Read(i, BLOCK_SIZE, false);
  }

  // ---- Independence of the schedule ----

  lemma PutKeepsKeys(files: Files, name: string, at: int, data: seq<byte>)
    requires name in files && (at >= 0 || AllZero(data))
    ensures PutSparse(files, name, at, data).Keys == files.Keys
  {}

  lemma SpliceAt(file: seq<byte>, at: nat, data: seq<byte>, k: nat)
    requires at + |data| <= |file| && k < |file|
    ensures |Splice(file, at, data)| == |file|
    ensures Splice(file, at, data)[k] == if at <= k < at + |data| then data[k - at] else file[k]
  {}

  lemma SplicesCommute(file: seq<byte>, a: nat, x: seq<byte>, b: nat, y: seq<byte>)
    requires a + |x| <= b && b + |y| <= |file|
    ensures Splice(Splice(file, a, x), b, y) == Splice(Splice(file, b, y), a, x)
  {
    hide Splice;
    var first, second := Splice(file, a, x), Splice(file, b, y);
    forall k | 0 <= k < |file|
      ensures |first| == |file| == |second| == |Splice(first, b, y)| == |Splice(second, a, x)|
      ensures Splice(first, b, y)[k] == Splice(second, a, x)[k]
    {
      SpliceAt(file, a, x, k);
      SpliceAt(file, b, y, k);
      SpliceAt(first, b, y, k);
      SpliceAt(second, a, x, k);
    }
  }

  lemma PutsCommute(files: Files, m: string, a: nat, x: seq<byte>, n: string, b: nat, y: seq<byte>)
    requires m in files && n in files
    requires m == n ==> a + |x| <= b && b + |y| <= |files[m]|
    ensures PutSparse(PutSparse(files, m, a, x), n, b, y) == PutSparse(PutSparse(files, n, b, y), m, a, x)
  {
    hide AllZero;
    hide Splice;
    if m == n {
      SplicesCommute(files[m], a, x, b, y);
    }
  }

  /** The ranges two different tasks are about to write do not overlap. */
  lemma ReadsApart(jobs: seq<Job>, files: Files, s: State, d: Event, e: Event)
    requires WellPlaced(jobs) && Inv(jobs, files, s) && d.Read? && e.Read? && d.job < e.job
    requires Enabled(jobs, s, d) && Enabled(jobs, s, e)
    ensures var x, y := jobs[d.job], jobs[e.job];
            var at, bt := x.offset + s.progress[d.job].position, y.offset + s.progress[e.job].position;
            && at >= 0 && bt >= 0
            && (x.name == y.name ==> at + d.n <= bt && bt + e.n <= |s.files[x.name]|)
  {
    hide WellPlaced;
    hide Content;
    assert Landed(jobs, s, d.job) && Landed(jobs, s, e.job);
    TaskRange(jobs, d.job);
    TaskRange(jobs, e.job);
    if jobs[d.job].name == jobs[e.job].name {
      RangesInOrder(jobs, d.job, e.job);
    }
  }

  /** Two tasks' steps can be swapped: neither disables the other, and the outcome is the same. */
  lemma StepsCommute(jobs: seq<Job>, files: Files, s: State, d: Event, e: Event)
    requires WellPlaced(jobs) && Inv(jobs, files, s)
    requires Enabled(jobs, s, d) && Enabled(jobs, s, e) && d.job < e.job
    ensures Enabled(jobs, Apply(jobs, s, d), e) && Enabled(jobs, Apply(jobs, s, e), d)
    ensures Apply(jobs, Apply(jobs, s, d), e) == Apply(jobs, Apply(jobs, s, e), d)
  {
    hide AllZero;
    hide WellPlaced;
    hide Inv;
    hide PutSparse;
    var x, y := jobs[d.job], jobs[e.job];
    if d.Read? {
      PutKeepsKeys(s.files, x.name, x.offset + s.progress[d.job].position,
                   x.plain[s.progress[d.job].position..s.progress[d.job].position + d.n]);
    }
    if e.Read? {
      PutKeepsKeys(s.files, y.name, y.offset + s.progress[e.job].position,
                   y.plain[s.progress[e.job].position..s.progress[e.job].position + e.n]);
    }
    if d.Read? && e.Read? {
      var at, bt := s.progress[d.job].position, s.progress[e.job].position;
      ReadsApart(jobs, files, s, d, e);
      PutsCommute(s.files, x.name, x.offset + at, x.plain[at..at + d.n], y.name, y.offset + bt, y.plain[bt..bt + e.n]);
    }
    ProgressCommutes(s.progress, d.job, ProgressAfter(s.progress[d.job], d), e.job, ProgressAfter(s.progress[e.job], e));
  }

  function ProgressAfter(p: Progress, e: Event): Progress {
    match e
    case Fail(_) => Failed
    case Read(_, n, eof) => if eof then Done else if p.Running? then Running(p.position + n) else p
  }

  lemma ProgressCommutes(progress: seq<Progress>, i: nat, p: Progress, j: nat, q: Progress)
    requires i < |progress| && j < |progress| && i != j
    ensures progress[i := p][j := q] == progress[j := q][i := p]
  {}

  // ---- One task is one run of the sparse copy ----

  lemma {:induction false} SparseWritesSnoc(offset: nat, chunks: seq<seq<byte>>, c: seq<byte>)
    ensures SparseWrites(offset, chunks + [c])
         == SparseWrites(offset, chunks) + if AllZero(c) then [] else [Write(offset + |Flatten(chunks)|, c)]
    decreases |chunks|
  {
    hide AllZero;
    hide SparseWrites;
    var one := if AllZero(c) then [] else [Write(offset + |Flatten(chunks)|, c)];
    NothingLeftToCopy([], offset, None);
    if chunks == [] {
      NothingLeftToCopy([], offset + |c|, None);
      SparseWritesCons(offset, c, []);
      assert chunks + [c] == [c] + [] && one + [] == [] + one;
    } else {
      var head, rest := chunks[0], chunks[1..];
      assert chunks == [head] + rest && chunks + [c] == [head] + (rest + [c]);
      SparseWritesCons(offset, head, rest);
      SparseWritesCons(offset, head, rest + [c]);
      SparseWritesSnoc(offset + |head|, rest, c);
      var first, middle := if AllZero(head) then [] else [Write(offset, head)], SparseWrites(offset + |head|, rest);
      assert first + (middle + one) == (first + middle) + one;
    }
  }

  lemma {:induction false} ApplyAllSnoc(file: seq<byte>, writes: seq<Write>, w: Write)
    ensures ApplyAll(file, writes + [w]) == Splice(ApplyAll(file, writes), w.offset, w.data)
    decreases |writes|
  {
    hide Splice;
    if writes == [] {
      ApplyAllCons(file, w, []);
      assert writes + [w] == [w] + [];
    } else {
      assert writes == [writes[0]] + writes[1..] && writes + [w] == [writes[0]] + (writes[1..] + [w]);
      ApplyAllCons(file, writes[0], writes[1..]);
      ApplyAllCons(file, writes[0], writes[1..] + [w]);
      ApplyAllSnoc(Splice(file, writes[0].offset, writes[0].data), writes[1..], w);
    }
  }

  /** The reads of one task, none of them reporting EOF yet. */
  function ReadsOf(j: nat, chunks: seq<seq<byte>>): (events: seq<Event>)
    ensures |events| == |chunks|
  {
    seq(|chunks|, i requires 0 <= i < |chunks| => Read(j, |chunks[i]|, false))
  }

  /** A task's state after its copy loop has been through the given reads. */
  function Copied(jobs: seq<Job>, s: State, j: nat, chunks: seq<seq<byte>>): State
    requires j < |jobs| == |s.progress| && jobs[j].name in s.files && jobs[j].offset >= 0
  {
    var name := jobs[j].name;
    State(s.files[name := ApplyAll(s.files[name], SparseWrites(jobs[j].offset, chunks))],
          s.progress[j := Running(|Flatten(chunks)|)])
  }

  lemma NothingCopied(jobs: seq<Job>, s: State, j: nat)
    requires j < |jobs| == |s.progress| && s.progress[j] == Running(0)
    requires jobs[j].name in s.files && jobs[j].offset >= 0
    ensures Copied(jobs, s, j, []) == s && ReadsOf(j, []) == []
  {
    NothingLeftToCopy(s.files[jobs[j].name], jobs[j].offset, None);
    assert s.files[jobs[j].name := s.files[jobs[j].name]] == s.files;
    assert s.progress[j := Running(0)] == s.progress;
  }

  lemma OneMoreRead(jobs: seq<Job>, s: State, j: nat, front: seq<seq<byte>>, last: seq<byte>)
    requires j < |jobs| == |s.progress| && jobs[j].name in s.files && jobs[j].offset >= 0
    requires Flatten(front + [last]) <= jobs[j].plain && |last| <= BLOCK_SIZE
    ensures Flatten(front) <= jobs[j].plain
    ensures Enabled(jobs, Copied(jobs, s, j, front), Read(j, |last|, false))
    ensures Apply(jobs, Copied(jobs, s, j, front), Read(j, |last|, false)) == Copied(jobs, s, j, front + [last])
  {
    hide Splice;
    hide AllZero;
    hide SparseWrites;
    hide ApplyAll;
    hide Flatten;
    var job, at := jobs[j], |Flatten(front)|;
    FlattenSnoc(front, last);
    assert job.plain[at..at + |last|] == last;
    SparseWritesSnoc(job.offset, front, last);
    var writes := SparseWrites(job.offset, front);
    ApplyAllSnoc(s.files[job.name], writes, Write(job.offset + at, last));
    assert writes + [] == writes;
  }

  /** The machine's rounds for one task do to its file exactly what sparseio.Copy does for the same reads. */
  lemma {:induction false} TaskIsSparseCopy(jobs: seq<Job>, s: State, j: nat, chunks: seq<seq<byte>>)
    requires j < |jobs| == |s.progress| && s.progress[j] == Running(0)
    requires jobs[j].name in s.files && jobs[j].offset >= 0
    requires Flatten(chunks) <= jobs[j].plain
    requires forall c :: c in chunks ==> |c| <= BLOCK_SIZE
    ensures Execute(jobs, s, ReadsOf(j, chunks)) == Some(Copied(jobs, s, j, chunks))
    decreases |chunks|
  {
    hide Splice;
    hide AllZero;
    if chunks == [] {
      NothingCopied(jobs, s, j);
    } else {
      hide Copied;
      hide Apply;
      hide Enabled;
      var front, last := chunks[..|chunks| - 1], chunks[|chunks| - 1];
      assert chunks == front + [last];
      OneMoreRead(jobs, s, j, front, last);
      TaskIsSparseCopy(jobs, s, j, front);
      assert ReadsOf(j, chunks)[..|chunks| - 1] == ReadsOf(j, front);
    }
  }

  // ---- Opening without truncation ----

  /** Every disk file is there with its final length: what creating and truncating it gives. */
  ghost predicate Sized(jobs: seq<Job>, files: Files) {
    forall i :: 0 <= i < |jobs| ==>
      jobs[i].name in files && |files[jobs[i].name]| == |Content(jobs, jobs[i].name)|
  }

  ghost predicate AllRight(jobs: seq<Job>, files: Files) {
    forall i :: 0 <= i < |jobs| ==> jobs[i].name in files && files[jobs[i].name] == Content(jobs, jobs[i].name)
  }

  lemma {:induction false} ExecuteConcat(jobs: seq<Job>, s: State, a: seq<Event>, b: seq<Event>)
    requires Execute(jobs, s, a).Some?
    ensures Execute(jobs, s, a + b) == Execute(jobs, Execute(jobs, s, a).value, b)
    decreases |b|
  {
    if b == [] {
      assert a + b == a;
    } else {
      assert (a + b)[..|a + b| - 1] == a + b[..|b| - 1];
      ExecuteConcat(jobs, s, a, b[..|b| - 1]);
    }
  }

  /** What a run leaves alone: lengths, and bytes that are zero in the disk. */
  ghost predicate KeepsZeroes(jobs: seq<Job>, files: Files, files': Files)
    requires Sized(jobs, files)
  {
    && files'.Keys == files.Keys && Sized(jobs, files')
    && forall i, p :: 0 <= i < |jobs| && 0 <= p < |Content(jobs, jobs[i].name)| && Content(jobs, jobs[i].name)[p] == 0 ==>
         files'[jobs[i].name][p] == files[jobs[i].name][p]
  }

  /** One task from its start to its end, read byte by byte. */
  lemma OneTask(jobs: seq<Job>, s: State, j: nat) returns (events: seq<Event>, s': State)
    requires WellPlaced(jobs) && Sized(jobs, s.files)
    requires j < |jobs| == |s.progress| && s.progress[j] == Running(0)
    ensures Execute(jobs, s, events) == Some(s') && s'.progress == s.progress[j := Done]
    ensures KeepsZeroes(jobs, s.files, s'.files)
  {
    hide WellPlaced;
    hide SparseWrites;
    hide ApplyAll;
    hide Content;
    hide KeepsZeroes;
    hide Execute;
    var job := jobs[j];
    var chunks := Singletons(job.plain);
    TaskRange(jobs, j);
    FlattenSingletons(job.plain);
    TaskIsSparseCopy(jobs, s, j, chunks);
    var copied := Copied(jobs, s, j, chunks);
    events := ReadsOf(j, chunks) + [Read(j, 0, true)];
    ExecuteConcat(jobs, s, ReadsOf(j, chunks), [Read(j, 0, true)]);
    s' := State(copied.files, s.progress[j := Done]);
    LastRead(jobs, copied, j);
    assert s.progress[j := Running(|job.plain|)][j := Done] == s.progress[j := Done];
    ByteByByte(jobs, s.files[job.name], j);
    OneFileChanged(jobs, s.files, j, ApplyAll(s.files[job.name], SparseWrites(job.offset, chunks)));
  }

  lemma OneFileChanged(jobs: seq<Job>, files: Files, j: nat, file: seq<byte>)
    requires Sized(jobs, files) && j < |jobs| && |file| == |files[jobs[j].name]|
    requires var disk := Content(jobs, jobs[j].name);
             forall p :: 0 <= p < |file| && disk[p] == 0 ==> file[p] == files[jobs[j].name][p]
    ensures KeepsZeroes(jobs, files, files[jobs[j].name := file])
  {
    hide Content;
  }

  /** A read that only reports EOF finishes the task. */
  lemma LastRead(jobs: seq<Job>, s: State, j: nat)
    requires j < |jobs| == |s.progress| && jobs[j].name in s.files
    requires s.progress[j] == Running(|jobs[j].plain|)
    ensures Execute(jobs, s, [Read(j, 0, true)]) == Some(State(s.files, s.progress[j := Done]))
  {
    assert [Read(j, 0, true)][..0] == [];
    assert jobs[j].plain[|jobs[j].plain|..|jobs[j].plain| + 0] == [];
  }

  lemma ByteByByte(jobs: seq<Job>, file: seq<byte>, j: nat)
    requires WellPlaced(jobs) && j < |jobs| && jobs[j].offset >= 0
    requires |file| == |Content(jobs, jobs[j].name)|
    ensures var disk := Content(jobs, jobs[j].name);
            var file' := ApplyAll(file, SparseWrites(jobs[j].offset, Singletons(jobs[j].plain)));
            |file'| == |file| && forall p :: 0 <= p < |file| && disk[p] == 0 ==> file'[p] == file[p]
  {
    hide WellPlaced;
    hide SparseWrites;
    hide ApplyAll;
    hide Content;
    hide Singletons;
    var job, disk := jobs[j], Content(jobs, jobs[j].name);
    var writes := SparseWrites(job.offset, Singletons(job.plain));
    TaskRange(jobs, j);
    forall w | w in writes
      ensures |w.data| == 1 && w.offset < |file| && disk[w.offset] != 0
    {
      SingletonWrite(job.offset, job.plain, w);
      assert disk[job.offset..job.offset + |job.plain|][w.offset - job.offset] == disk[w.offset];
    }
    ApplyAllKeepsLength(file, writes);
    forall p | 0 <= p < |file| && disk[p] == 0
      ensures ApplyAll(file, writes)[p] == file[p]
    {
      UntouchedByte(file, writes, p);
    }
  }

  /** The first n tasks can run to their ends one after the other. */
  lemma {:induction false} RunTasks(jobs: seq<Job>, files: Files, n: nat) returns (events: seq<Event>, s: State)
    requires WellPlaced(jobs) && Sized(jobs, files) && n <= |jobs|
    ensures Execute(jobs, Start(jobs, files), events) == Some(s) && |s.progress| == |jobs| && StoppedAfter(s, n)
    ensures KeepsZeroes(jobs, files, s.files)
  {
    hide WellPlaced;
    hide Content;
    hide Execute;
    if n == 0 {
      events, s := [], Start(jobs, files);
      NothingExecuted(jobs, s);
    } else {
      var front, before := RunTasks(jobs, files, n - 1);
      var last;
      last, s := OneTask(jobs, before, n - 1);
      ExecuteConcat(jobs, Start(jobs, files), front, last);
      events := front + last;
    }
  }

  lemma NothingExecuted(jobs: seq<Job>, s: State)
    ensures Execute(jobs, s, []) == Some(s)
  {}

  lemma AllTasksCanSucceed(jobs: seq<Job>, files: Files) returns (events: seq<Event>, s: State)
    requires WellPlaced(jobs) && Ready(jobs, files)
    ensures Execute(jobs, Start(jobs, files), events) == Some(s) && Succeeded(s)
  {
    hide WellPlaced;
    hide Content;
    events, s := RunTasks(jobs, files, |jobs|);
  }

  /** If the run is possible and all tasks succeed in it, every disk is its layers' data. */
  ghost predicate SuccessIsRight(jobs: seq<Job>, files: Files, events: seq<Event>) {
    var r := Execute(jobs, Start(jobs, files), events);
    r.Some? && Succeeded(r.value) ==> AllRight(jobs, r.value.files)
  }

  /**
   * Exactly when opening the disk files without truncating them is safe: every successful pull gets all
   * disks right if and only if the files have no stray bytes where the disks are zero.
   */
  lemma PullExact(jobs: seq<Job>, files: Files)
    requires WellPlaced(jobs) && Sized(jobs, files)
    ensures (forall events :: SuccessIsRight(jobs, files, events)) <==> Ready(jobs, files)
  {
    hide WellPlaced;
    hide Content;
    hide Execute;
    if Ready(jobs, files) {
      forall events
        ensures SuccessIsRight(jobs, files, events)
      {
        var r := Execute(jobs, Start(jobs, files), events);
        if r.Some? && Succeeded(r.value) {
          SuccessfulPull(jobs, files, events, r.value);
        }
      }
    } else {
      var events, s := RunTasks(jobs, files, |jobs|);
      var i :| 0 <= i < |jobs| && !ReadyFor(jobs, files, jobs[i].name);
      var disk := Content(jobs, jobs[i].name);
      var p :| 0 <= p < |disk| && disk[p] == 0 && files[jobs[i].name][p] != 0;
      assert s.files[jobs[i].name][p] != disk[p];
      assert !SuccessIsRight(jobs, files, events);
    }
  }
}
