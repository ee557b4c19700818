/** internal/oci/pull/vetu: choosing an image's layers and preparing the VM directory for its disks. */
module Pull {
  import opened Bytes
  import opened OCI
  import DiskPuller
  import opened Push

  function WithMediaType(layers: seq<Descriptor>, mediaType: string): (r: seq<Descriptor>) {
    if layers == [] then []
    else
      var last := layers[|layers| - 1];
      WithMediaType(layers[..|layers| - 1], mediaType) + if last.mediaType == mediaType then [last] else []
  }

  /** The name a disk layer carries, provided the config lists it. */
  function NameFrom(disks: seq<string>): DiskPuller.NameFromDescriptor {
    (disk: Descriptor) =>
      if ANNOTATION_NAME !in disk.annotations then Err(MissingName)
      else if disk.annotations[ANNOTATION_NAME] !in disks then Err(UnknownDisk)
      else Ok(disk.annotations[ANNOTATION_NAME])
  }

  function Blob(blobs: Blobs, desc: Descriptor): Result<seq<byte>> {
    if desc.digest in blobs then Ok(blobs[desc.digest]) else Err(MissingBlob)
  }

  /** What the non-disk layers put into the directory, and the config found on the way. */
  function FilesFrom(layers: seq<Descriptor>, blobs: Blobs, files: Files, format: ConfigFormat)
    : Result<(Files, VMConfig)>
  {
    var configs := WithMediaType(layers, MEDIA_TYPE_CONFIG);
    if |configs| != 1 then Err(WrongLayerCount)
    else match Blob(blobs, configs[0])
      case Err(e) => Err(e)
      case Ok(configBytes) =>
        match format.parse(configBytes)
        case None => Err(BadConfig)
        case Some(config) =>
          var files := files[CONFIG_FILE := format.marshal(config)];
          var kernels := WithMediaType(layers, MEDIA_TYPE_KERNEL);
          if |kernels| != 1 then Err(WrongLayerCount)
          else match Blob(blobs, kernels[0])
            case Err(e) => Err(e)
            case Ok(kernel) =>
              var files := files[KERNEL_FILE := kernel];
              var initramfses := WithMediaType(layers, MEDIA_TYPE_INITRAMFS);
              if initramfses == [] then Ok((files, config))
              else if |initramfses| > 1 then Err(WrongLayerCount)
              else match Blob(blobs, initramfses[0])
                case Err(e) => Err(e)
                case Ok(initramfs) => Ok((files[INITRAMFS_FILE := initramfs], config))
  }

  predicate SameElsewhere(files: Files, files': Files, names: set<string>) {
    files - names == files' - names
  }

  /**
   * Everything a pull does before its disk tasks start: the tasks, and the directory in which every
   * disk file exists with its final length.
   */
  method PreparePull(layers: seq<Descriptor>, registry: Registry, dir: DiskPuller.Directory, format: ConfigFormat)
    returns (r: Result<seq<DiskPuller.Task>>)
    modifies dir
    ensures r == match FilesFrom(layers, registry.blobs, old(dir.files), format)
                 case Err(e) => Err(e)
                 case Ok((files, config)) => Plan(layers, config)
    ensures r.Ok? ==> dir.files == Prepared(layers, registry.blobs, old(dir.files), format)
    ensures r.Err? ==>
              match FilesFrom(layers, registry.blobs, old(dir.files), format)
              case Err(_) => SameElsewhere(old(dir.files), dir.files, {CONFIG_FILE, KERNEL_FILE, INITRAMFS_FILE})
              case Ok((written, config)) =>
                LeftAfterError(WithMediaType(layers, MEDIA_TYPE_DISK), NameFrom(config.disks), written, dir.files)
  {
    hide WithMediaType;
    var configs := WithMediaType(layers, MEDIA_TYPE_CONFIG);
    if |configs| != 1 {
      return Err(WrongLayerCount);
    }
    if configs[0].digest !in registry.blobs {
      return Err(MissingBlob);
    }
    var config := format.parse(registry.blobs[configs[0].digest]);
    if config.None? {
      return Err(BadConfig);
    }
    dir.files := dir.files[CONFIG_FILE := format.marshal(config.value)];
    var kernels := WithMediaType(layers, MEDIA_TYPE_KERNEL);
    if |kernels| != 1 {
      return Err(WrongLayerCount);
    }
    if kernels[0].digest !in registry.blobs {
      return Err(MissingBlob);
    }
    dir.files := dir.files[KERNEL_FILE := registry.blobs[kernels[0].digest]];
    var initramfses := WithMediaType(layers, MEDIA_TYPE_INITRAMFS);
    if |initramfses| > 0 {
      if |initramfses| > 1 {
        return Err(WrongLayerCount);
      }
      if initramfses[0].digest !in registry.blobs {
        return Err(MissingBlob);
      }
      dir.files := dir.files[INITRAMFS_FILE := registry.blobs[initramfses[0].digest]];
    }
    assert FilesFrom(layers, registry.blobs, old(dir.files), format) == Ok((dir.files, config.value));
    r := PullDisks(WithMediaType(layers, MEDIA_TYPE_DISK), dir, NameFrom(config.value.disks));
  }

  // ---- diskpuller.PullDisks up to the start of its tasks ----

  function Names(entries: seq<DiskPuller.Entry>): set<string> {
    set e | e in entries :: e.name
  }

  function Lengths(entries: seq<DiskPuller.Entry>): map<string, int> {
    map name | name in Names(entries) :: DiskPuller.OffsetAfter(entries, name)
  }

  function Tasks(disks: seq<Descriptor>, entries: seq<DiskPuller.Entry>): (tasks: seq<DiskPuller.Task>)
    requires |disks| == |entries|
  {
    seq(|disks|, i requires 0 <= i < |disks| =>
      DiskPuller.Task(disks[i], entries[i].name, DiskPuller.OffsetAfter(entries[..i], entries[i].name)))
  }

  /** The disk tasks, or why there are none. */
  function DiskTasks(disks: seq<Descriptor>, nameOf: DiskPuller.NameFromDescriptor): Result<seq<DiskPuller.Task>> {
    match DiskPuller.Entries(disks, nameOf, ANNOTATION_UNCOMPRESSED_SIZE)
    case Err(e) => Err(e)
    case Ok(entries) =>
      if forall name <- Names(entries) :: Lengths(entries)[name] >= 0 then Ok(Tasks(disks, entries))
      else Err(NegativeLength)
  }

  function Plan(layers: seq<Descriptor>, config: VMConfig): Result<seq<DiskPuller.Task>> {
    DiskTasks(WithMediaType(layers, MEDIA_TYPE_DISK), NameFrom(config.disks))
  }

  function PreparedDisks(disks: seq<Descriptor>, files: Files, nameOf: DiskPuller.NameFromDescriptor): Files
    requires DiskTasks(disks, nameOf).Ok?
  {
    var lengths := Lengths(DiskPuller.Entries(disks, nameOf, ANNOTATION_UNCOMPRESSED_SIZE).value);
    DiskPuller.Prepared(files, lengths, lengths.Keys)
  }

  function Prepared(layers: seq<Descriptor>, blobs: Blobs, files: Files, format: ConfigFormat): Files
    requires FilesFrom(layers, blobs, files, format).Ok?
    requires Plan(layers, FilesFrom(layers, blobs, files, format).value.1).Ok?
  {
    var (written, config) := FilesFrom(layers, blobs, files, format).value;
    PreparedDisks(WithMediaType(layers, MEDIA_TYPE_DISK), written, NameFrom(config.disks))
  }

  lemma PlannedTasks(disks: seq<Descriptor>, entries: seq<DiskPuller.Entry>, tasks: seq<DiskPuller.Task>,
                     lengths: map<string, int>)
    requires DiskPuller.Planned(disks, entries, tasks, lengths)
    ensures tasks == Tasks(disks, entries) && lengths == Lengths(entries)
  {
    forall name
      ensures name in lengths <==> name in Names(entries)
    {
      if name in lengths {
        var i :| 0 <= i < |entries| && entries[i].name == name;
        assert entries[i] in entries;
      }
    }
    assert lengths.Keys == Names(entries);
  }

  /** The directory after an error: as it was, or partly prepared when a length is negative. */
  ghost predicate LeftAfterError(disks: seq<Descriptor>, nameOf: DiskPuller.NameFromDescriptor,
                                 files: Files, files': Files)
  {
    match DiskPuller.Entries(disks, nameOf, ANNOTATION_UNCOMPRESSED_SIZE)
    case Err(_) => files' == files
    case Ok(entries) => DiskPuller.PartlyPrepared(files, Lengths(entries), files')
  }

  method PullDisks(disks: seq<Descriptor>, dir: DiskPuller.Directory, nameOf: DiskPuller.NameFromDescriptor)
    returns (r: Result<seq<DiskPuller.Task>>)
    modifies dir
    ensures r == DiskTasks(disks, nameOf)
    ensures r.Ok? ==> dir.files == PreparedDisks(disks, old(dir.files), nameOf)
    ensures r.Err? ==> LeftAfterError(disks, nameOf, old(dir.files), dir.files)
  {
    var planned := DiskPuller.PlanTasks(disks, nameOf, ANNOTATION_UNCOMPRESSED_SIZE);
    if planned.Err? {
      return Err(planned.error);
    }
    var (tasks, lengths) := planned.value;
    PlannedTasks(disks, DiskPuller.Entries(disks, nameOf, ANNOTATION_UNCOMPRESSED_SIZE).value, tasks, lengths);
    assert lengths.Keys == Names(DiskPuller.Entries(disks, nameOf, ANNOTATION_UNCOMPRESSED_SIZE).value);
    var prepared := DiskPuller.PrepareFiles(dir, lengths);
    if prepared.Err? {
      return Err(prepared.error);
    }
    return Ok(tasks);
  }

  /** The data a task's decompressor will hand over. */
  function JobsOf(tasks: seq<DiskPuller.Task>, blobs: Blobs, decode: seq<byte> -> Option<seq<byte>>)
    : (r: Option<seq<DiskPuller.Job>>)
    ensures r.Some? ==> |r.value| == |tasks|
  {
    if tasks == [] then Some([])
    else
      var front, last := JobsOf(tasks[..|tasks| - 1], blobs, decode), tasks[|tasks| - 1];
      if front.None? || last.desc.digest !in blobs then None
      else match decode(blobs[last.desc.digest])
        case None => None
        case Some(plain) => Some(front.value + [DiskPuller.Job(last.name, last.offset, plain)])
  }

  /** A task without data: its blob is missing, or does not decode. All others hand over what theirs decodes to. */
  lemma {:induction false} JobsExact(tasks: seq<DiskPuller.Task>, blobs: Blobs, decode: seq<byte> -> Option<seq<byte>>)
    ensures JobsOf(tasks, blobs, decode).Some? <==>
              forall i :: 0 <= i < |tasks| ==>
                tasks[i].desc.digest in blobs && decode(blobs[tasks[i].desc.digest]).Some?
    ensures JobsOf(tasks, blobs, decode).Some? ==>
              forall i :: 0 <= i < |tasks| ==>
                var job := JobsOf(tasks, blobs, decode).value[i];
                && job.name == tasks[i].name && job.offset == tasks[i].offset
                && decode(blobs[tasks[i].desc.digest]) == Some(job.plain)
    decreases |tasks|
  {
    if tasks != [] {
      JobsExact(tasks[..|tasks| - 1], blobs, decode);
    }
  }

  /** Every disk that is going to be written is named by its layer and listed in the config. */
  lemma PlannedNamesAreListed(layers: seq<Descriptor>, config: VMConfig)
    ensures Plan(layers, config).Ok? ==>
              && |Plan(layers, config).value| == |WithMediaType(layers, MEDIA_TYPE_DISK)|
              && forall i :: 0 <= i < |Plan(layers, config).value| ==>
                   var task := Plan(layers, config).value[i];
                   && task.desc == WithMediaType(layers, MEDIA_TYPE_DISK)[i]
                   && ANNOTATION_NAME in task.desc.annotations
                   && task.desc.annotations[ANNOTATION_NAME] == task.name
                   && task.name in config.disks
    ensures (exists i :: 0 <= i < |WithMediaType(layers, MEDIA_TYPE_DISK)|
               && var disk := WithMediaType(layers, MEDIA_TYPE_DISK)[i];
                  ANNOTATION_NAME !in disk.annotations || disk.annotations[ANNOTATION_NAME] !in config.disks) ==>
              Plan(layers, config).Err?
  {
    hide WithMediaType;
    DiskPuller.EntriesExact(WithMediaType(layers, MEDIA_TYPE_DISK), NameFrom(config.disks), ANNOTATION_UNCOMPRESSED_SIZE);
  }

  /** The selected layers are those at the given places, which are all the places of their media type, in order. */
  ghost predicate Selects(layers: seq<Descriptor>, mediaType: string, at: seq<nat>, selected: seq<Descriptor>) {
    && |at| == |selected|
    && (forall j, k :: 0 <= j < k < |at| ==> at[j] < at[k])
    && (forall k :: 0 <= k < |at| ==> at[k] < |layers| && layers[at[k]] == selected[k])
    && (forall i: nat :: i < |layers| ==> (layers[i].mediaType == mediaType <==> i in at))
  }

  lemma SelectsSnoc(layers: seq<Descriptor>, last: Descriptor, mediaType: string, at: seq<nat>, selected: seq<Descriptor>)
    requires Selects(layers, mediaType, at, selected)
    ensures last.mediaType == mediaType ==> Selects(layers + [last], mediaType, at + [|layers|], selected + [last])
    ensures last.mediaType != mediaType ==> Selects(layers + [last], mediaType, at, selected)
  {
    var all := layers + [last];
    forall i: nat | i < |all|
      ensures all[i].mediaType == mediaType <==> i in (if last.mediaType == mediaType then at + [|layers|] else at)
    {
      if i < |layers| {
        assert all[i] == layers[i];
      } else {
        assert forall k :: 0 <= k < |at| ==> at[k] != i;
      }
    }
  }

  lemma {:induction false} LayersOfType(layers: seq<Descriptor>, mediaType: string) returns (at: seq<nat>)
    ensures Selects(layers, mediaType, at, WithMediaType(layers, mediaType))
    decreases |layers|
  {
    if layers == [] {
      at := [];
    } else {
      hide Selects;
      var front, last := layers[..|layers| - 1], layers[|layers| - 1];
      at := LayersOfType(front, mediaType);
      assert layers == front + [last];
      SelectsSnoc(front, last, mediaType, at, WithMediaType(front, mediaType));
      if last.mediaType == mediaType {
        at := at + [|front|];
      } else {
        assert WithMediaType(front, mediaType) + [] == WithMediaType(front, mediaType);
      }
    }
  }

  /**
   * Exactly which images have the files of a VM besides its disks: those with one config layer and one
   * kernel layer and at most one initramfs layer, whose blobs are there, the config's a config. The
   * files are then these, and no others have changed.
   */
  lemma FilesFromExact(layers: seq<Descriptor>, blobs: Blobs, files: Files, format: ConfigFormat)
    ensures var configs, kernels, initramfses :=
              WithMediaType(layers, MEDIA_TYPE_CONFIG), WithMediaType(layers, MEDIA_TYPE_KERNEL),
              WithMediaType(layers, MEDIA_TYPE_INITRAMFS);
            && (FilesFrom(layers, blobs, files, format).Ok? <==>
                 && |configs| == 1 && |kernels| == 1 && |initramfses| <= 1
                 && (forall desc :: desc in configs + kernels + initramfses ==> desc.digest in blobs)
                 && format.parse(blobs[configs[0].digest]).Some?)
            && (FilesFrom(layers, blobs, files, format).Ok? ==>
                 var (written, config) := FilesFrom(layers, blobs, files, format).value;
                 && format.parse(blobs[configs[0].digest]) == Some(config)
                 && written.Keys == files.Keys + {CONFIG_FILE, KERNEL_FILE}
                                    + (if initramfses == [] then {} else {INITRAMFS_FILE})
                 && written[CONFIG_FILE] == format.marshal(config)
                 && written[KERNEL_FILE] == blobs[kernels[0].digest]
                 && (initramfses != [] ==> written[INITRAMFS_FILE] == blobs[initramfses[0].digest])
                 && forall name :: name in files && name != CONFIG_FILE && name != KERNEL_FILE && name != INITRAMFS_FILE ==>
                      written[name] == files[name])
  {
    hide WithMediaType;
    var configs, kernels, initramfses := WithMediaType(layers, MEDIA_TYPE_CONFIG),
                                         WithMediaType(layers, MEDIA_TYPE_KERNEL),
                                         WithMediaType(layers, MEDIA_TYPE_INITRAMFS);
    if |configs| == 1 && |kernels| == 1 && |initramfses| <= 1 {
      assert configs == [configs[0]] && kernels == [kernels[0]];
      assert initramfses == [] || initramfses == [initramfses[0]];
      assert CONFIG_FILE[0] == 'c' && KERNEL_FILE[0] == 'k' && INITRAMFS_FILE[0] == 'i';
    }
  }
}
