/** Pushing a VM directory and pulling the image gives the directory back. */
module RoundTrip {
  import opened Bytes
  import opened Compression
  import opened Chunking
  import opened SparseIO
  import opened OCI
  import opened Push
  import opened Pull
  import D = DiskPuller

  // ---- Choosing layers undoes assembling them ----

  lemma {:induction false} SelectConcat(a: seq<Descriptor>, b: seq<Descriptor>, mediaType: string)
    ensures WithMediaType(a + b, mediaType) == WithMediaType(a, mediaType) + WithMediaType(b, mediaType)
    decreases |b|
  {
    if b == [] {
      assert a + b == a;
    } else {
      assert (a + b)[..|a + b| - 1] == a + b[..|b| - 1];
      SelectConcat(a, b[..|b| - 1], mediaType);
    }
  }

  lemma {:induction false} SelectUniform(layers: seq<Descriptor>, mediaType: string, wanted: string)
    requires forall i :: 0 <= i < |layers| ==> layers[i].mediaType == mediaType
    ensures WithMediaType(layers, wanted) == if mediaType == wanted then layers else []
    decreases |layers|
  {
    if layers != [] {
      var front := layers[..|layers| - 1];
      assert layers == front + [layers[|layers| - 1]];
      SelectUniform(front, mediaType, wanted);
    }
  }

  lemma SelectFromImage<S(!new)>(codec: Codec<S>, digest: seq<byte> -> Digest, files: Files, pieces: seq<Piece>)
    requires CONFIG_FILE in files && KERNEL_FILE in files
    ensures var disks := Descriptors(DiskLayers(codec, digest, pieces));
            var descs := Descriptors(FileLayers(digest, files) + DiskLayers(codec, digest, pieces));
            && WithMediaType(descs, MEDIA_TYPE_DISK) == disks
            && WithMediaType(descs, MEDIA_TYPE_CONFIG) == [FileLayers(digest, files)[0].desc]
            && WithMediaType(descs, MEDIA_TYPE_KERNEL) == [FileLayers(digest, files)[1].desc]
            && WithMediaType(descs, MEDIA_TYPE_INITRAMFS)
               == if INITRAMFS_FILE in files then [FileLayers(digest, files)[2].desc] else []
  {
    var fileLayers, diskLayers := FileLayers(digest, files), DiskLayers(codec, digest, pieces);
    forall wanted | wanted in {MEDIA_TYPE_CONFIG, MEDIA_TYPE_KERNEL, MEDIA_TYPE_INITRAMFS, MEDIA_TYPE_DISK}
      ensures WithMediaType(Descriptors(fileLayers + diskLayers), wanted)
           == WithMediaType(Descriptors(fileLayers), wanted)
              + if wanted == MEDIA_TYPE_DISK then Descriptors(diskLayers) else []
    {
      DescriptorsConcat(fileLayers, diskLayers);
      SelectConcat(Descriptors(fileLayers), Descriptors(diskLayers), wanted);
      SelectUniform(Descriptors(diskLayers), MEDIA_TYPE_DISK, wanted);
    }
    SelectFromFileLayers(digest, files);
  }

  lemma MediaTypesDiffer()
    ensures MEDIA_TYPE_CONFIG[32] == 'c' && MEDIA_TYPE_KERNEL[32] == 'k'
    ensures MEDIA_TYPE_INITRAMFS[32] == 'i' && MEDIA_TYPE_DISK[32] == 'd'
  {}

  lemma SelectFromFileLayers(digest: seq<byte> -> Digest, files: Files)
    requires CONFIG_FILE in files && KERNEL_FILE in files
    ensures var layers := FileLayers(digest, files);
            && WithMediaType(Descriptors(layers), MEDIA_TYPE_DISK) == []
            && WithMediaType(Descriptors(layers), MEDIA_TYPE_CONFIG) == [layers[0].desc]
            && WithMediaType(Descriptors(layers), MEDIA_TYPE_KERNEL) == [layers[1].desc]
            && WithMediaType(Descriptors(layers), MEDIA_TYPE_INITRAMFS)
               == if INITRAMFS_FILE in files then [layers[2].desc] else []
  {
    hide WithMediaType;
    MediaTypesDiffer();
    var layers := FileLayers(digest, files);
    var two := Descriptors([layers[0], layers[1]]);
    assert two == [layers[0].desc] + [layers[1].desc];
    forall wanted | wanted in {MEDIA_TYPE_CONFIG, MEDIA_TYPE_KERNEL, MEDIA_TYPE_INITRAMFS, MEDIA_TYPE_DISK}
      ensures WithMediaType(Descriptors(layers), wanted)
           == (if wanted == MEDIA_TYPE_CONFIG then [layers[0].desc] else [])
            + (if wanted == MEDIA_TYPE_KERNEL then [layers[1].desc] else [])
            + (if wanted == MEDIA_TYPE_INITRAMFS && INITRAMFS_FILE in files then [layers[2].desc] else [])
    {
      SelectConcat([layers[0].desc], [layers[1].desc], wanted);
      SelectUniform([layers[0].desc], MEDIA_TYPE_CONFIG, wanted);
      SelectUniform([layers[1].desc], MEDIA_TYPE_KERNEL, wanted);
      if INITRAMFS_FILE in files {
        assert Descriptors(layers) == two + [layers[2].desc];
        SelectConcat(two, [layers[2].desc], wanted);
        SelectUniform([layers[2].desc], MEDIA_TYPE_INITRAMFS, wanted);
      } else {
        assert Descriptors(layers) == two;
      }
    }
  }

  /** The files written before the disks: config and kernel, and the initramfs if there is one. */
  function WrittenFiles(files: Files, dest: Files, format: ConfigFormat, config: VMConfig): Files
    requires KERNEL_FILE in files
  {
    var written := dest[CONFIG_FILE := format.marshal(config)][KERNEL_FILE := files[KERNEL_FILE]];
    if INITRAMFS_FILE in files then written[INITRAMFS_FILE := files[INITRAMFS_FILE]] else written
  }

  lemma FilesComeBack<S(!new)>(codec: Codec<S>, digest: seq<byte> -> Digest, format: ConfigFormat, files: Files,
                               pieces: seq<Piece>, blobs: Blobs, dest: Files)
    requires CONFIG_FILE in files && KERNEL_FILE in files && format.parse(files[CONFIG_FILE]).Some?
    requires CollisionFree(FileLayers(digest, files) + DiskLayers(codec, digest, pieces))
    ensures var layers := FileLayers(digest, files) + DiskLayers(codec, digest, pieces);
            var config := format.parse(files[CONFIG_FILE]).value;
            FilesFrom(Descriptors(layers), PutAll(blobs, layers), dest, format)
            == Ok((WrittenFiles(files, dest, format, config), config))
  {
    hide PutAll;
    hide WithMediaType;
    hide DiskLayers;
    var layers := FileLayers(digest, files) + DiskLayers(codec, digest, pieces);
    SelectFromImage(codec, digest, files, pieces);
    PutThenGet(blobs, layers, 0);
    PutThenGet(blobs, layers, 1);
    if INITRAMFS_FILE in files {
      PutThenGet(blobs, layers, 2);
    }
  }

  // ---- Descriptors give back names, sizes and data ----

  function EntriesOf(pieces: seq<Piece>): (entries: seq<D.Entry>)
    ensures |entries| == |pieces|
  {
    seq(|pieces|, i requires 0 <= i < |pieces| => D.Entry(pieces[i].name, |Flatten(pieces[i].group)|))
  }

  function JobsFor(pieces: seq<Piece>): (jobs: seq<D.Job>)
    ensures |jobs| == |pieces|
  {
    seq(|pieces|, i requires 0 <= i < |pieces| =>
      D.Job(pieces[i].name, D.OffsetAfter(EntriesOf(pieces)[..i], pieces[i].name), Flatten(pieces[i].group)))
  }

  lemma AnnotationsDiffer()
    ensures |ANNOTATION_NAME| == 24 && |ANNOTATION_UNCOMPRESSED_SIZE| == 37 && |ANNOTATION_UNCOMPRESSED_DIGEST| == 39
  {}

  lemma EntryComesBack<S(!new)>(codec: Codec<S>, digest: seq<byte> -> Digest, disks: seq<string>, piece: Piece)
    requires piece.name in disks && |Flatten(piece.group)| <= MAX_INT64
    ensures D.EntryOf(DiskLayer(digest, piece.name, ChunkOf(codec, digest, piece.group)).desc, NameFrom(disks),
                      ANNOTATION_UNCOMPRESSED_SIZE)
         == Ok(D.Entry(piece.name, |Flatten(piece.group)|))
  {
    AnnotationsDiffer();
    ParseIntOfFormat(|Flatten(piece.group)|);
  }

  lemma {:induction false} EntriesComeBack<S(!new)>(codec: Codec<S>, digest: seq<byte> -> Digest,
                                                    disks: seq<string>, pieces: seq<Piece>)
    requires forall piece :: piece in pieces ==> piece.name in disks && |Flatten(piece.group)| <= MAX_INT64
    ensures D.Entries(Descriptors(DiskLayers(codec, digest, pieces)), NameFrom(disks), ANNOTATION_UNCOMPRESSED_SIZE)
         == Ok(EntriesOf(pieces))
    decreases |pieces|
  {
    hide D.EntryOf;
    hide DiskLayer;
    hide Flatten;
    var layers := DiskLayers(codec, digest, pieces);
    if pieces != [] {
      var front, last := pieces[..|pieces| - 1], pieces[|pieces| - 1];
      EntriesComeBack(codec, digest, disks, front);
      assert last in pieces;
      EntryComesBack(codec, digest, disks, last);
      assert Descriptors(layers)[..|pieces| - 1] == Descriptors(DiskLayers(codec, digest, front));
      assert EntriesOf(pieces) == EntriesOf(front) + [D.Entry(last.name, |Flatten(last.group)|)];
    }
  }

  /** The blob uploaded for a piece. */
  function BlobOf<S(!new)>(codec: Codec<S>, digest: seq<byte> -> Digest, piece: Piece): Layer {
    DiskLayer(digest, piece.name, ChunkOf(codec, digest, piece.group))
  }

  ghost predicate Uploaded<S(!new)>(codec: Codec<S>, digest: seq<byte> -> Digest, pieces: seq<Piece>, blobs: Blobs) {
    forall i :: 0 <= i < |pieces| ==>
      var layer := BlobOf(codec, digest, pieces[i]);
      layer.desc.digest in blobs && blobs[layer.desc.digest] == layer.data
  }

  lemma TasksSnoc<S(!new)>(codec: Codec<S>, digest: seq<byte> -> Digest, front: seq<Piece>, last: Piece)
    ensures Tasks(Descriptors(DiskLayers(codec, digest, front + [last])), EntriesOf(front + [last]))
         == Tasks(Descriptors(DiskLayers(codec, digest, front)), EntriesOf(front))
            + [D.Task(BlobOf(codec, digest, last).desc, last.name, D.OffsetAfter(EntriesOf(front), last.name))]
  {
    hide DiskLayer;
    hide Flatten;
    hide D.OffsetAfter;
    var pieces := front + [last];
    assert EntriesOf(pieces)[..|front|] == EntriesOf(front);
    assert forall i :: 0 <= i < |front| ==> EntriesOf(pieces)[..i] == EntriesOf(front)[..i];
  }

  lemma JobsSnoc(front: seq<Piece>, last: Piece)
    ensures JobsFor(front + [last])
         == JobsFor(front) + [D.Job(last.name, D.OffsetAfter(EntriesOf(front), last.name), Flatten(last.group))]
  {
    hide Flatten;
    hide D.OffsetAfter;
    var pieces := front + [last];
    assert EntriesOf(pieces)[..|front|] == EntriesOf(front);
    assert forall i :: 0 <= i < |front| ==> EntriesOf(pieces)[..i] == EntriesOf(front)[..i];
  }

  lemma {:induction false} DataComesBack<S(!new)>(codec: Codec<S>, digest: seq<byte> -> Digest, pieces: seq<Piece>,
                                                  blobs: Blobs)
    requires Lawful(codec) && Uploaded(codec, digest, pieces, blobs)
    ensures JobsOf(Tasks(Descriptors(DiskLayers(codec, digest, pieces)), EntriesOf(pieces)), blobs, codec.decode)
         == Some(JobsFor(pieces))
    decreases |pieces|
  {
    hide Encode;
    hide Flatten;
    hide D.OffsetAfter;
    hide DiskLayers;
    hide Tasks;
    hide JobsFor;
    if pieces == [] {
      NothingToDo(codec, digest);
    } else {
      var front, last := pieces[..|pieces| - 1], pieces[|pieces| - 1];
      assert pieces == front + [last];
      DataComesBack(codec, digest, front, blobs);
      TasksSnoc(codec, digest, front, last);
      JobsSnoc(front, last);
      assert codec.decode(Encode(codec, last.group)) == Some(Flatten(last.group));
    }
  }

  lemma NothingToDo<S(!new)>(codec: Codec<S>, digest: seq<byte> -> Digest)
    ensures Tasks(Descriptors(DiskLayers(codec, digest, [])), EntriesOf([])) == [] && JobsFor([]) == []
  {}

  // ---- Offsets are where the data belongs ----

  function PieceContent(pieces: seq<Piece>, name: string): seq<byte> {
    if pieces == [] then []
    else
      var last := pieces[|pieces| - 1];
      PieceContent(pieces[..|pieces| - 1], name) + if last.name == name then Flatten(last.group) else []
  }

  lemma {:induction false} PieceContentConcat(a: seq<Piece>, b: seq<Piece>, name: string)
    ensures PieceContent(a + b, name) == PieceContent(a, name) + PieceContent(b, name)
    decreases |b|
  {
    hide Flatten;
    if b == [] {
      assert a + b == a;
    } else {
      assert (a + b)[..|a + b| - 1] == a + b[..|b| - 1];
      PieceContentConcat(a, b[..|b| - 1], name);
    }
  }

  lemma {:induction false} OffsetIsContentLength(pieces: seq<Piece>, name: string)
    requires |PieceContent(pieces, name)| <= MAX_INT64
    ensures D.OffsetAfter(EntriesOf(pieces), name) == |PieceContent(pieces, name)|
    decreases |pieces|
  {
    hide Flatten;
    if pieces != [] {
      var front := pieces[..|pieces| - 1];
      assert EntriesOf(pieces)[..|pieces| - 1] == EntriesOf(front);
      OffsetIsContentLength(front, name);
    }
  }

  /** The first k jobs have the data of the first k pieces. */
  lemma {:induction false} JobContent(pieces: seq<Piece>, k: nat, name: string)
    requires k <= |pieces|
    ensures D.Content(JobsFor(pieces)[..k], name) == PieceContent(pieces[..k], name)
  {
    hide Flatten;
    hide D.OffsetAfter;
    if k > 0 {
      var jobs := JobsFor(pieces);
      assert jobs[..k][..k - 1] == jobs[..k - 1] && pieces[..k][..k - 1] == pieces[..k - 1];
      JobContent(pieces, k - 1, name);
    }
  }

  lemma {:induction false} PieceContentPrefix(pieces: seq<Piece>, k: nat, name: string)
    requires k <= |pieces|
    ensures |PieceContent(pieces[..k], name)| <= |PieceContent(pieces, name)|
  {
    assert pieces == pieces[..k] + pieces[k..];
    PieceContentConcat(pieces[..k], pieces[k..], name);
  }

  lemma JobsAreWellPlaced(pieces: seq<Piece>)
    requires forall piece :: piece in pieces ==> |PieceContent(pieces, piece.name)| <= MAX_INT64
    ensures D.WellPlaced(JobsFor(pieces))
  {
    var jobs := JobsFor(pieces);
    forall i | 0 <= i < |jobs|
      ensures jobs[i].offset == |D.Content(jobs[..i], jobs[i].name)|
    {
      var name := pieces[i].name;
      assert pieces[i] in pieces;
      PieceContentPrefix(pieces, i, name);
      JobContent(pieces, i, name);
      OffsetIsContentLength(pieces[..i], name);
      assert EntriesOf(pieces)[..i] == EntriesOf(pieces[..i]);
    }
  }

  // ---- What each disk amounts to ----

  /** The content as often as the config lists the disk. */
  function Stored(content: seq<byte>, disks: seq<string>, name: string): seq<byte> {
    if disks == [] then []
    else Stored(content, disks[..|disks| - 1], name) + if disks[|disks| - 1] == name then content else []
  }

  lemma {:induction false} ContentOfOneDisk(name: string, groups: seq<seq<seq<byte>>>, wanted: string)
    ensures PieceContent(seq(|groups|, i requires 0 <= i < |groups| => Piece(name, groups[i])), wanted)
         == if name == wanted then Flatten(Plaintexts(groups)) else []
    decreases |groups|
  {
    var pieces := seq(|groups|, i requires 0 <= i < |groups| => Piece(name, groups[i]));
    if groups == [] {
      assert Plaintexts(groups) == [];
    } else {
      var front, last := groups[..|groups| - 1], groups[|groups| - 1];
      assert groups == front + [last];
      ContentOfOneDisk(name, front, wanted);
      PlaintextsSnoc(front, last);
      assert pieces[..|groups| - 1] == seq(|front|, i requires 0 <= i < |front| => Piece(name, front[i]));
    }
  }

  lemma {:induction false} ContentOfAllDisks<S(!new)>(codec: Codec<S>, files: Files, disks: seq<string>, cuts: Cuts,
                                                      name: string)
    requires Lawful(codec) && EmptyDecodesToNothing(codec)
    requires CutsOf(files, disks, cuts) && name in files
    ensures PieceContent(Pieces(codec, disks, cuts), name) == Stored(files[name], disks, name)
    decreases |disks|
  {
    hide ChunkGroups;
    hide Plaintexts;
    hide Lawful;
    if disks != [] {
      var n := |disks| - 1;
      ContentOfAllDisks(codec, files, disks[..n], cuts, name);
      PieceContentConcat(Pieces(codec, disks[..n], cuts), PiecesOfDisk(codec, disks[n], cuts(n)), name);
      ContentOfOneDisk(disks[n], ChunkGroups(codec, TARGET_DISK_LAYER_SIZE_BYTES, cuts(n)), name);
      ChunksKeepBytes(codec, TARGET_DISK_LAYER_SIZE_BYTES, cuts(n));
    }
  }

  /** A disk comes back as it was exactly when the config lists it once (or it is empty). */
  lemma StoredExactly(content: seq<byte>, disks: seq<string>, name: string)
    requires name in disks
    ensures Stored(content, disks, name) == content <==> multiset(disks)[name] == 1 || content == []
  {
    StoredLength(content, disks, name);
    if multiset(disks)[name] == 1 {
      StoredOnce(content, disks, name);
    } else if content != [] {
      assert multiset(disks)[name] >= 2;
      TwiceIsLonger(multiset(disks)[name], |content|);
    }
  }

  lemma OneMore(k: nat, n: nat)
    ensures (k + 1) * n == k * n + n && 0 * n == 0
  {}

  lemma TwiceIsLonger(k: nat, n: nat)
    requires k >= 2 && n > 0
    ensures k * n > n
  {}

  lemma CountSnoc(disks: seq<string>, name: string)
    requires disks != []
    ensures multiset(disks)[name]
         == multiset(disks[..|disks| - 1])[name] + if disks[|disks| - 1] == name then 1 else 0
  {
    assert disks == disks[..|disks| - 1] + [disks[|disks| - 1]];
  }

  lemma {:induction false} StoredLength(content: seq<byte>, disks: seq<string>, name: string)
    ensures |Stored(content, disks, name)| == multiset(disks)[name] * |content|
    decreases |disks|
  {
    if disks != [] {
      var before := multiset(disks[..|disks| - 1])[name];
      StoredLength(content, disks[..|disks| - 1], name);
      CountSnoc(disks, name);
      OneMore(before, |content|);
    }
  }

  lemma {:induction false} StoredOnce(content: seq<byte>, disks: seq<string>, name: string)
    requires multiset(disks)[name] <= 1
    ensures Stored(content, disks, name) == if multiset(disks)[name] == 1 then content else []
    decreases |disks|
  {
    if disks != [] {
      CountSnoc(disks, name);
      StoredOnce(content, disks[..|disks| - 1], name);
    }
  }

  lemma {:induction false} StoredStartsWith(content: seq<byte>, disks: seq<string>, name: string)
    ensures name in disks ==> content <= Stored(content, disks, name)
    ensures name !in disks ==> Stored(content, disks, name) == []
    decreases |disks|
  {
    if disks != [] {
      StoredStartsWith(content, disks[..|disks| - 1], name);
    }
  }

  lemma {:induction false} StoredHasNoZero(content: seq<byte>, disks: seq<string>, name: string)
    requires 0 !in content
    ensures 0 !in Stored(content, disks, name)
    decreases |disks|
  {
    if disks != [] {
      StoredHasNoZero(content, disks[..|disks| - 1], name);
    }
  }

  // ---- The round trip ----

  function Config(files: Files, format: ConfigFormat): VMConfig
    requires Pushable(files, format)
  {
    format.parse(files[CONFIG_FILE]).value
  }

  /**
   * What the code relies on: a lawful compressor, a config format that is text, no digest collisions
   * among the image's blobs, and disks that fit a 64-bit length. A disk may be any file of the directory.
   */
  ghost predicate Distributable<S(!new)>(codec: Codec<S>, digest: seq<byte> -> Digest, format: ConfigFormat,
                                         files: Files, cuts: Cuts)
    requires Pushable(files, format)
  {
    var disks := Config(files, format).disks;
    && Lawful(codec) && EmptyDecodesToNothing(codec) && IsText(format)
    && CutsOf(files, disks, cuts)
    && DigestsDiffer(digest, ImageLayers(codec, digest, files, disks, cuts))
    && forall name :: name in disks ==> |Stored(files[name], disks, name)| <= MAX_INT64
  }

  /** The directory a pull is expected to produce. */
  function Pulled(files: Files, format: ConfigFormat): Files
    requires Pushable(files, format)
  {
    var config := Config(files, format);
    map name | name in {CONFIG_FILE, KERNEL_FILE} + (if INITRAMFS_FILE in files then {INITRAMFS_FILE} else {})
                       + (set d | d in config.disks) ::
      if name in config.disks then Stored(files[name], config.disks, name)
      else if name == CONFIG_FILE then format.marshal(config)
      else files[name]
  }

  lemma {:induction false} PieceNames<S(!new)>(codec: Codec<S>, disks: seq<string>, cuts: Cuts)
    ensures forall piece :: piece in Pieces(codec, disks, cuts) ==> piece.name in disks
    ensures forall name :: name in disks ==> exists piece :: piece in Pieces(codec, disks, cuts) && piece.name == name
    decreases |disks|
  {
    if disks != [] {
      var n := |disks| - 1;
      var front, last := Pieces(codec, disks[..n], cuts), PiecesOfDisk(codec, disks[n], cuts(n));
      PieceNames(codec, disks[..n], cuts);
      ChunkCount(codec, TARGET_DISK_LAYER_SIZE_BYTES, cuts(n));
      forall name | name in disks
        ensures exists piece: Piece :: piece in front + last && piece.name == name
      {
        if name in disks[..n] {
          var piece :| piece in front && piece.name == name;
          assert piece in front + last;
        } else {
          assert last[0] in front + last && last[0].name == name;
        }
      }
    }
  }

  /** All numbers below n, each once or more, in ascending order. */
  ghost predicate Ascends(origin: seq<nat>, n: nat) {
    && (forall k :: 0 <= k < |origin| ==> origin[k] < n)
    && (forall j, k :: 0 <= j < k < |origin| ==> origin[j] <= origin[k])
    && (forall i: nat :: i < n ==> i in origin)
  }

  /** Which disk of the config each piece is from: the disks come in the config's order, all of them. */
  ghost predicate InOrder(origin: seq<nat>, pieces: seq<Piece>, disks: seq<string>) {
    && |origin| == |pieces| && Ascends(origin, |disks|)
    && forall k :: 0 <= k < |origin| ==> pieces[k].name == disks[origin[k]]
  }

  lemma InOrderSnoc(origin: seq<nat>, pieces: seq<Piece>, disks: seq<string>, more: seq<Piece>, name: string)
    requires InOrder(origin, pieces, disks)
    requires more != [] && forall piece :: piece in more ==> piece.name == name
    ensures InOrder(origin + seq(|more|, _ => |disks|), pieces + more, disks + [name])
  {
    var all := origin + seq(|more|, _ => |disks|);
    assert all[|origin|] == |disks|;
    forall i: nat | i < |disks|
      ensures i in all
    {
      assert i in origin;
    }
  }

  lemma {:induction false} PiecesInOrder<S(!new)>(codec: Codec<S>, disks: seq<string>, cuts: Cuts)
    returns (origin: seq<nat>)
    ensures InOrder(origin, Pieces(codec, disks, cuts), disks)
    decreases |disks|
  {
    if disks == [] {
      origin := [];
    } else {
      hide InOrder;
      var n := |disks| - 1;
      var last := PiecesOfDisk(codec, disks[n], cuts(n));
      var front := PiecesInOrder(codec, disks[..n], cuts);
      ChunkCount(codec, TARGET_DISK_LAYER_SIZE_BYTES, cuts(n));
      hide ChunkGroups;
      InOrderSnoc(front, Pieces(codec, disks[..n], cuts), disks[..n], last, disks[n]);
      assert disks == disks[..n] + [disks[n]];
      origin := front + seq(|last|, _ => |disks[..n]|);
    }
  }

  /** The layer decodes to the chunk's plaintext, and names its disk and the plaintext's size and digest. */
  ghost predicate DescribesChunk<S(!new)>(codec: Codec<S>, digest: seq<byte> -> Digest, layer: Layer, name: string,
                                          plain: seq<byte>)
  {
    && layer.desc.mediaType == MEDIA_TYPE_DISK && codec.decode(layer.data) == Some(plain)
    && layer.desc.annotations == map[
         ANNOTATION_NAME := name,
         ANNOTATION_UNCOMPRESSED_SIZE := FormatInt(|plain|),
         ANNOTATION_UNCOMPRESSED_DIGEST := digest(plain)
       ]
  }

  lemma ChunkDescribesItself<S(!new)>(codec: Codec<S>, digest: seq<byte> -> Digest, piece: Piece)
    requires Lawful(codec)
    ensures DescribesChunk(codec, digest, BlobOf(codec, digest, piece), piece.name, Flatten(piece.group))
  {
    assert codec.decode(Encode(codec, piece.group)) == Some(Flatten(piece.group));
  }

  /** Config, kernel, and the initramfs if there is one. */
  ghost predicate StartsWithFiles(layers: seq<Layer>, files: Files)
    requires CONFIG_FILE in files && KERNEL_FILE in files
  {
    && |layers| >= (if INITRAMFS_FILE in files then 3 else 2)
    && layers[0].desc.mediaType == MEDIA_TYPE_CONFIG && layers[0].data == files[CONFIG_FILE]
    && layers[1].desc.mediaType == MEDIA_TYPE_KERNEL && layers[1].data == files[KERNEL_FILE]
    && (INITRAMFS_FILE in files ==>
         layers[2].desc.mediaType == MEDIA_TYPE_INITRAMFS && layers[2].data == files[INITRAMFS_FILE])
  }

  lemma FileLayersInOrder(digest: seq<byte> -> Digest, files: Files, more: seq<Layer>)
    requires CONFIG_FILE in files && KERNEL_FILE in files
    ensures |FileLayers(digest, files)| == (if INITRAMFS_FILE in files then 3 else 2)
    ensures StartsWithFiles(FileLayers(digest, files) + more, files)
  {}

  /** The layers are chunks of the disks, in the config's order, and describe their plaintexts. */
  ghost predicate DescribesDisks<S(!new)>(codec: Codec<S>, digest: seq<byte> -> Digest, layers: seq<Layer>,
                                          disks: seq<string>, plain: seq<seq<byte>>, origin: seq<nat>)
  {
    && |layers| == |plain| == |origin| && Ascends(origin, |disks|)
    && forall k :: 0 <= k < |layers| ==> DescribesChunk(codec, digest, layers[k], disks[origin[k]], plain[k])
  }

  lemma PiecesDescribeDisks<S(!new)>(codec: Codec<S>, digest: seq<byte> -> Digest, pieces: seq<Piece>,
                                     disks: seq<string>, origin: seq<nat>) returns (plain: seq<seq<byte>>)
    requires Lawful(codec) && InOrder(origin, pieces, disks)
    ensures DescribesDisks(codec, digest, DiskLayers(codec, digest, pieces), disks, plain, origin)
  {
    hide Encode;
    hide Flatten;
    hide Lawful;
    hide DiskLayer;
    hide DescribesChunk;
    hide Ascends;
    plain := seq(|pieces|, k requires 0 <= k < |pieces| => Flatten(pieces[k].group));
    forall k | 0 <= k < |pieces|
      ensures DescribesChunk(codec, digest, BlobOf(codec, digest, pieces[k]), pieces[k].name, plain[k])
    {
      ChunkDescribesItself(codec, digest, pieces[k]);
    }
    assert Ascends(origin, |disks|);
  }

  /**
   * What a pushed image says: config, kernel, the initramfs if there is one, then the disks' chunks in
   * the config's order, every chunk with its disk's name and the size and digest of its plaintext.
   */
  lemma ImageDescribesItself<S(!new)>(codec: Codec<S>, digest: seq<byte> -> Digest, files: Files,
                                      disks: seq<string>, cuts: Cuts)
    returns (plain: seq<seq<byte>>, origin: seq<nat>)
    requires CONFIG_FILE in files && KERNEL_FILE in files && Lawful(codec)
    ensures var layers, first := ImageLayers(codec, digest, files, disks, cuts), if INITRAMFS_FILE in files then 3 else 2;
            && StartsWithFiles(layers, files)
            && (forall layer :: layer in layers ==> WellDescribed(digest, layer))
            && |layers| >= first && DescribesDisks(codec, digest, layers[first..], disks, plain, origin)
  {
    hide Lawful;
    hide Pieces;
    hide DiskLayers;
    hide FileLayers;
    hide StartsWithFiles;
    hide WellDescribed;
    hide DescribesDisks;
    hide InOrder;
    var pieces := Pieces(codec, disks, cuts);
    var first, more := FileLayers(digest, files), DiskLayers(codec, digest, pieces);
    origin := PiecesInOrder(codec, disks, cuts);
    plain := PiecesDescribeDisks(codec, digest, pieces, disks, origin);
    LayersAreWellDescribed(codec, digest, files, disks, cuts);
    FileLayersInOrder(digest, files, more);
    assert (first + more)[|first|..] == more;
  }

  /** The pieces are pieces of the config's disks, and together they hold what each of them should. */
  ghost predicate PiecesMatch(files: Files, disks: seq<string>, pieces: seq<Piece>) {
    && (forall piece :: piece in pieces ==> piece.name in disks)
    && (forall name :: name in disks ==> exists piece :: piece in pieces && piece.name == name)
    && forall name :: name in disks ==>
         && name in files
         && PieceContent(pieces, name) == Stored(files[name], disks, name)
         && |PieceContent(pieces, name)| <= MAX_INT64
  }

  lemma ImagePiecesMatch<S(!new)>(codec: Codec<S>, digest: seq<byte> -> Digest, format: ConfigFormat, files: Files,
                                  cuts: Cuts)
    requires Pushable(files, format) && Distributable(codec, digest, format, files, cuts)
    ensures var disks := Config(files, format).disks;
            PiecesMatch(files, disks, Pieces(codec, disks, cuts))
  {
    hide Pieces;
    hide PieceContent;
    hide Stored;
    var disks := Config(files, format).disks;
    PieceNames(codec, disks, cuts);
    forall name | name in disks
      ensures PieceContent(Pieces(codec, disks, cuts), name) == Stored(files[name], disks, name)
    {
      ContentOfAllDisks(codec, files, disks, cuts, name);
    }
  }

  lemma {:induction false} PieceFits(pieces: seq<Piece>, i: nat)
    requires i < |pieces|
    ensures |Flatten(pieces[i].group)| <= |PieceContent(pieces, pieces[i].name)|
  {
    var name := pieces[i].name;
    PieceContentPrefix(pieces, i + 1, name);
    assert pieces[..i + 1][..i] == pieces[..i];
  }

  lemma PiecesFit(files: Files, disks: seq<string>, pieces: seq<Piece>)
    requires PiecesMatch(files, disks, pieces)
    ensures forall piece :: piece in pieces ==>
              |PieceContent(pieces, piece.name)| <= MAX_INT64 && |Flatten(piece.group)| <= MAX_INT64
  {
    hide PieceContent;
    hide Flatten;
    forall piece | piece in pieces
      ensures |PieceContent(pieces, piece.name)| <= MAX_INT64 && |Flatten(piece.group)| <= MAX_INT64
    {
      var i :| 0 <= i < |pieces| && pieces[i] == piece;
      PieceFits(pieces, i);
    }
  }

  /** The lengths the disks are created with are those of their contents, for exactly the config's disks. */
  lemma DiskLengths(files: Files, disks: seq<string>, pieces: seq<Piece>)
    requires PiecesMatch(files, disks, pieces)
    ensures Lengths(EntriesOf(pieces)).Keys == set d | d in disks
    ensures forall name :: name in disks ==>
              && Lengths(EntriesOf(pieces))[name] == |Stored(files[name], disks, name)|
              && D.Content(JobsFor(pieces), name) == Stored(files[name], disks, name)
  {
    hide PieceContent;
    hide Flatten;
    hide Stored;
    hide D.OffsetAfter;
    hide D.Content;
    var entries := EntriesOf(pieces);
    forall name
      ensures name in Names(entries) <==> name in disks
    {
      if name in disks {
        var piece :| piece in pieces && piece.name == name;
        var i :| 0 <= i < |pieces| && pieces[i] == piece;
        assert entries[i] in entries;
      }
    }
    forall name | name in disks
      ensures D.OffsetAfter(entries, name) == |Stored(files[name], disks, name)|
      ensures D.Content(JobsFor(pieces), name) == Stored(files[name], disks, name)
    {
      OffsetIsContentLength(pieces, name);
      JobContent(pieces, |pieces|, name);
      assert JobsFor(pieces)[..|pieces|] == JobsFor(pieces) && pieces[..|pieces|] == pieces;
    }
  }

  lemma ImageDoesNotCollide<S(!new)>(codec: Codec<S>, digest: seq<byte> -> Digest, format: ConfigFormat, files: Files,
                                     cuts: Cuts)
    requires Pushable(files, format) && Distributable(codec, digest, format, files, cuts)
    ensures CollisionFree(ImageLayers(codec, digest, files, Config(files, format).disks, cuts))
  {
    hide Lawful;
    hide CutsOf;
    hide Stored;
    hide ImageLayers;
    hide DigestsDiffer;
    hide CollisionFree;
    hide IsText;
    var disks := Config(files, format).disks;
    LayersAreWellDescribed(codec, digest, files, disks, cuts);
    DescribedLayersDoNotCollide(digest, ImageLayers(codec, digest, files, disks, cuts));
  }

  /** The plan a pull makes for a pushed image. */
  lemma ImagePlan<S(!new)>(codec: Codec<S>, digest: seq<byte> -> Digest, format: ConfigFormat, files: Files,
                           cuts: Cuts, blobs: Blobs)
    requires Pushable(files, format) && Distributable(codec, digest, format, files, cuts)
    ensures var config := Config(files, format);
            var pieces := Pieces(codec, config.disks, cuts);
            var layers := ImageLayers(codec, digest, files, config.disks, cuts);
            var descs := Descriptors(layers);
            && D.Entries(WithMediaType(descs, MEDIA_TYPE_DISK), NameFrom(config.disks), ANNOTATION_UNCOMPRESSED_SIZE)
               == Ok(EntriesOf(pieces))
            && Plan(descs, config).Ok?
            && JobsOf(Plan(descs, config).value, PutAll(blobs, layers), codec.decode) == Some(JobsFor(pieces))
            && D.WellPlaced(JobsFor(pieces))
  {
    hide Lawful;
    hide PutAll;
    hide WithMediaType;
    hide DiskLayers;
    hide Pieces;
    hide PieceContent;
    hide Flatten;
    hide JobsFor;
    hide JobsOf;
    hide Tasks;
    hide Stored;
    hide D.Entries;
    var config := Config(files, format);
    var pieces := Pieces(codec, config.disks, cuts);
    var layers := ImageLayers(codec, digest, files, config.disks, cuts);
    ImagePiecesMatch(codec, digest, format, files, cuts);
    PiecesFit(files, config.disks, pieces);
    SelectFromImage(codec, digest, files, pieces);
    EntriesComeBack(codec, digest, config.disks, pieces);
    ImageDoesNotCollide(codec, digest, format, files, cuts);
    UploadedImage(codec, digest, files, pieces, blobs);
    DataComesBack(codec, digest, pieces, PutAll(blobs, layers));
    JobsAreWellPlaced(pieces);
    DiskLengths(files, config.disks, pieces);
  }

  lemma UploadedImage<S(!new)>(codec: Codec<S>, digest: seq<byte> -> Digest, files: Files, pieces: seq<Piece>,
                               blobs: Blobs)
    requires CONFIG_FILE in files && KERNEL_FILE in files
    requires CollisionFree(FileLayers(digest, files) + DiskLayers(codec, digest, pieces))
    ensures Uploaded(codec, digest, pieces, PutAll(blobs, FileLayers(digest, files) + DiskLayers(codec, digest, pieces)))
  {
    hide PutAll;
    hide FileLayers;
    hide Encode;
    var first := FileLayers(digest, files);
    var layers := first + DiskLayers(codec, digest, pieces);
    forall i | 0 <= i < |pieces|
      ensures var layer := BlobOf(codec, digest, pieces[i]);
              layer.desc.digest in PutAll(blobs, layers) && PutAll(blobs, layers)[layer.desc.digest] == layer.data
    {
      assert layers[|first| + i] == BlobOf(codec, digest, pieces[i]);
      PutThenGet(blobs, layers, |first| + i);
    }
  }

  /** A disk file that exists already when the disks are created has no stray bytes that a pull would keep. */
  ghost predicate HarmlessClash(files: Files, disks: seq<string>, written: Files) {
    forall name :: name in disks && name in files && name in written ==>
      var content := Stored(files[name], disks, name);
      ZeroCompatible(D.Truncate(written[name], |content|), 0, content)
  }

  /** The disk files the tasks start from have their final length and no stray non-zero bytes. */
  lemma DisksAreReady(files: Files, disks: seq<string>, pieces: seq<Piece>, written: Files)
    requires PiecesMatch(files, disks, pieces) && HarmlessClash(files, disks, written)
    ensures var lengths := Lengths(EntriesOf(pieces));
            && (forall name :: name in lengths ==> lengths[name] >= 0)
            && D.Ready(JobsFor(pieces), D.Prepared(written, lengths, lengths.Keys))
  {
    hide PieceContent;
    hide Flatten;
    hide Stored;
    hide Lengths;
    hide D.OffsetAfter;
    hide D.Content;
    var jobs, lengths := JobsFor(pieces), Lengths(EntriesOf(pieces));
    DiskLengths(files, disks, pieces);
    forall i | 0 <= i < |jobs|
      ensures D.ReadyFor(jobs, D.Prepared(written, lengths, lengths.Keys), jobs[i].name)
    {
      assert pieces[i] in pieces;
    }
  }

  /** What any successful run of the disk tasks makes of the prepared directory. */
  lemma RunFillsDisks(files: Files, disks: seq<string>, pieces: seq<Piece>, written: Files,
                      events: seq<D.Event>, s: D.State)
    requires PiecesMatch(files, disks, pieces) && HarmlessClash(files, disks, written)
    requires D.WellPlaced(JobsFor(pieces))
    requires var lengths := Lengths(EntriesOf(pieces));
             && (forall name :: name in lengths ==> lengths[name] >= 0)
             && D.Execute(JobsFor(pieces), D.Start(JobsFor(pieces), D.Prepared(written, lengths, lengths.Keys)), events)
                == Some(s)
    requires D.Succeeded(s)
    ensures s.files.Keys == written.Keys + set d | d in disks
    ensures forall name :: name in s.files ==>
              s.files[name] == if name in disks then Stored(files[name], disks, name) else written[name]
  {
    hide PieceContent;
    hide Flatten;
    hide Stored;
    hide Lengths;
    hide D.OffsetAfter;
    hide D.Content;
    hide D.WellPlaced;
    hide D.Execute;
    hide D.Succeeded;
    hide D.Ready;
    var jobs, lengths := JobsFor(pieces), Lengths(EntriesOf(pieces));
    var before := D.Prepared(written, lengths, lengths.Keys);
    DiskLengths(files, disks, pieces);
    DisksAreReady(files, disks, pieces, written);
    D.SuccessfulPull(jobs, before, events, s);
    forall name | name in s.files
      ensures s.files[name] == if name in disks then Stored(files[name], disks, name) else written[name]
    {
      if name in disks {
        var piece :| piece in pieces && piece.name == name;
        var i :| 0 <= i < |pieces| && pieces[i] == piece;
        assert jobs[i].name == name;
      } else {
        forall i | 0 <= i < |jobs|
          ensures jobs[i].name != name
        {
          assert pieces[i] in pieces;
        }
      }
    }
  }

  lemma ClashIsHarmless<S(!new)>(codec: Codec<S>, digest: seq<byte> -> Digest, format: ConfigFormat, files: Files,
                                 cuts: Cuts, dest: Files)
    requires Pushable(files, format) && Distributable(codec, digest, format, files, cuts)
    requires dest.Keys <= {CONFIG_FILE}
    ensures HarmlessClash(files, Config(files, format).disks, WrittenFiles(files, dest, format, Config(files, format)))
  {
    hide Lawful;
    hide CutsOf;
    hide ImageLayers;
    hide Stored;
    var config := Config(files, format);
    var written := WrittenFiles(files, dest, format, config);
    forall name | name in config.disks && name in files && name in written
      ensures var content := Stored(files[name], config.disks, name);
              ZeroCompatible(D.Truncate(written[name], |content|), 0, content)
    {
      StoredStartsWith(files[name], config.disks, name);
      if name == CONFIG_FILE {
        StoredHasNoZero(files[name], config.disks, name);
      }
    }
  }

  /** The tasks a pull plans, their data, and the directory they start from; None when planning fails. */
  function PullPlan<S(!new)>(codec: Codec<S>, format: ConfigFormat, descs: seq<Descriptor>, stored: Blobs, dest: Files)
    : Option<(seq<D.Job>, Files)>
  {
    match FilesFrom(descs, stored, dest, format)
    case Err(_) => None
    case Ok((_, config)) =>
      match Plan(descs, config)
      case Err(_) => None
      case Ok(tasks) =>
        var jobs := JobsOf(tasks, stored, codec.decode);
        if jobs.None? then None else Some((jobs.value, Prepared(descs, stored, dest, format)))
  }

  /** A pull of a pushed image is planned without error, for disk files in order. */
  lemma PlanOfPushed<S(!new)>(codec: Codec<S>, digest: seq<byte> -> Digest, format: ConfigFormat, files: Files,
                              cuts: Cuts, blobs: Blobs, dest: Files)
    requires Pushable(files, format) && Distributable(codec, digest, format, files, cuts)
    requires dest.Keys <= {CONFIG_FILE}
    ensures var disks := Config(files, format).disks;
            var layers, pieces := ImageLayers(codec, digest, files, disks, cuts), Pieces(codec, disks, cuts);
            var written, lengths := WrittenFiles(files, dest, format, Config(files, format)), Lengths(EntriesOf(pieces));
            && PiecesMatch(files, disks, pieces) && HarmlessClash(files, disks, written)
            && D.WellPlaced(JobsFor(pieces)) && (forall name :: name in lengths ==> lengths[name] >= 0)
            && D.Ready(JobsFor(pieces), D.Prepared(written, lengths, lengths.Keys))
            && PullPlan(codec, format, Descriptors(layers), PutAll(blobs, layers), dest)
               == Some((JobsFor(pieces), D.Prepared(written, lengths, lengths.Keys)))
  {
    hide Lawful;
    hide PutAll;
    hide Pieces;
    hide FilesFrom;
    hide JobsOf;
    hide JobsFor;
    hide ImageLayers;
    hide Stored;
    hide D.Prepared;
    hide D.Entries;
    hide D.WellPlaced;
    hide D.Ready;
    hide CutsOf;
    hide WrittenFiles;
    hide WithMediaType;
    hide PiecesMatch;
    hide HarmlessClash;
    hide Tasks;
    hide Lengths;
    var config := Config(files, format);
    var pieces := Pieces(codec, config.disks, cuts);
    LayersUnfold(codec, digest, files, config.disks, cuts);
    ImageDoesNotCollide(codec, digest, format, files, cuts);
    FilesComeBack(codec, digest, format, files, pieces, blobs, dest);
    ImagePlan(codec, digest, format, files, cuts, blobs);
    ImagePiecesMatch(codec, digest, format, files, cuts);
    ClashIsHarmless(codec, digest, format, files, cuts, dest);
    DisksAreReady(files, config.disks, pieces, WrittenFiles(files, dest, format, config));
  }

  /**
   * Push then pull: for every compressor, every way the disks are cut into writes, every interleaving
   * of the disk tasks and every way their decompressors cut the data into reads, a pull of a pushed
   * image is planned without error, and when all its tasks succeed the directory is the expected one.
   */
  lemma PushThenPull<S(!new)>(codec: Codec<S>, digest: seq<byte> -> Digest, format: ConfigFormat, files: Files,
                              cuts: Cuts, blobs: Blobs, dest: Files, events: seq<D.Event>, s: D.State)
    requires Pushable(files, format) && Distributable(codec, digest, format, files, cuts)
    requires dest.Keys <= {CONFIG_FILE}
    ensures var layers := ImageLayers(codec, digest, files, Config(files, format).disks, cuts);
            var plan := PullPlan(codec, format, Descriptors(layers), PutAll(blobs, layers), dest);
            && plan.Some?
            && (D.Execute(plan.value.0, D.Start(plan.value.0, plan.value.1), events) == Some(s) && D.Succeeded(s) ==>
                 s.files == Pulled(files, format))
  {
    assert KERNEL_FILE in files;
    hide *;
    PlanOfPushed(codec, digest, format, files, cuts, blobs, dest);
    var config := Config(files, format);
    var pieces := Pieces(codec, config.disks, cuts);
    var written, lengths := WrittenFiles(files, dest, format, config), Lengths(EntriesOf(pieces));
    var jobs, before := JobsFor(pieces), D.Prepared(written, lengths, lengths.Keys);
    if D.Execute(jobs, D.Start(jobs, before), events) == Some(s) && D.Succeeded(s) {
      RunFillsDisks(files, config.disks, pieces, written, events, s);
      SamePulled(files, format, dest, s.files);
    }
  }

  /** Such a pull is possible: there is a run of the planned tasks in which all of them succeed. */
  lemma PullCanSucceed<S(!new)>(codec: Codec<S>, digest: seq<byte> -> Digest, format: ConfigFormat, files: Files,
                                cuts: Cuts, blobs: Blobs, dest: Files) returns (events: seq<D.Event>, s: D.State)
    requires Pushable(files, format) && Distributable(codec, digest, format, files, cuts)
    requires dest.Keys <= {CONFIG_FILE}
    ensures var layers := ImageLayers(codec, digest, files, Config(files, format).disks, cuts);
            var plan := PullPlan(codec, format, Descriptors(layers), PutAll(blobs, layers), dest);
            && plan.Some?
            && D.Execute(plan.value.0, D.Start(plan.value.0, plan.value.1), events) == Some(s) && D.Succeeded(s)
            && s.files == Pulled(files, format)
  {
    assert KERNEL_FILE in files;
    hide *;
    PlanOfPushed(codec, digest, format, files, cuts, blobs, dest);
    var pieces := Pieces(codec, Config(files, format).disks, cuts);
    var lengths := Lengths(EntriesOf(pieces));
    var written := WrittenFiles(files, dest, format, Config(files, format));
    events, s := D.AllTasksCanSucceed(JobsFor(pieces), D.Prepared(written, lengths, lengths.Keys));
    PushThenPull(codec, digest, format, files, cuts, blobs, dest, events, s);
  }

  lemma LayersUnfold<S(!new)>(codec: Codec<S>, digest: seq<byte> -> Digest, files: Files, disks: seq<string>, cuts: Cuts)
    requires CONFIG_FILE in files && KERNEL_FILE in files
    ensures ImageLayers(codec, digest, files, disks, cuts)
         == FileLayers(digest, files) + DiskLayers(codec, digest, Pieces(codec, disks, cuts))
  {}

  lemma WrittenKeys(files: Files, dest: Files, format: ConfigFormat, config: VMConfig)
    requires KERNEL_FILE in files && dest.Keys <= {CONFIG_FILE}
    ensures var written := WrittenFiles(files, dest, format, config);
            && written.Keys == {CONFIG_FILE, KERNEL_FILE} + (if INITRAMFS_FILE in files then {INITRAMFS_FILE} else {})
            && forall name :: name in written ==>
                 written[name] == if name == CONFIG_FILE then format.marshal(config)
                                  else if name in files then files[name] else []
  {}

  lemma SamePulled(files: Files, format: ConfigFormat, dest: Files, result: Files)
    requires Pushable(files, format) && dest.Keys <= {CONFIG_FILE}
    requires var config := Config(files, format);
             var written := WrittenFiles(files, dest, format, config);
             && result.Keys == written.Keys + (set d | d in config.disks)
             && forall name :: name in result ==>
                  result[name] == if name in config.disks then Stored(files[name], config.disks, name) else written[name]
    ensures result == Pulled(files, format)
  {
    hide Stored;
    var config, pulled := Config(files, format), Pulled(files, format);
    var written := WrittenFiles(files, dest, format, config);
    WrittenKeys(files, dest, format, config);
    forall name | name in result
      ensures name in pulled && result[name] == pulled[name]
    {
      if name !in config.disks {
        assert name in written;
      }
    }
    assert result.Keys == pulled.Keys;
  }

  /**
   * With distinct disk names every pulled file is the pushed one, except for the config, which is
   * re-encoded unless it is a disk itself.
   */
  lemma PulledIsPushed(files: Files, format: ConfigFormat)
    requires Pushable(files, format)
    requires forall name :: name in Config(files, format).disks ==> multiset(Config(files, format).disks)[name] == 1
    ensures forall name ::
              name in Pulled(files, format) && (name != CONFIG_FILE || name in Config(files, format).disks) ==>
              name in files && Pulled(files, format)[name] == files[name]
  {
    var disks := Config(files, format).disks;
    forall name | name in disks
      ensures Stored(files[name], disks, name) == files[name]
    {
      StoredExactly(files[name], disks, name);
    }
  }

  /** A digest without collisions. */
  function Spelled(data: seq<byte>): Digest {
    seq(|data|, i requires 0 <= i < |data| => data[i] as char)
  }

  /** What is asked of images can be met: by this directory with one disk, for one. */
  lemma SomeDirectoryIsDistributable() returns (format: ConfigFormat, files: Files, cuts: Cuts)
    ensures Pushable(files, format) && Distributable(NopCodec(), Spelled, format, files, cuts)
    ensures Config(files, format).disks == ["disk"] && files["disk"] == [0, 5]
  {
    format := ConfigFormat((b: seq<byte>) => if b == [123] then Some(VMConfig(["disk"], "")) else None,
                           (config: VMConfig) => [123]);
    files := map[CONFIG_FILE := [123], KERNEL_FILE := [1], "disk" := [0, 5]];
    cuts := (i: nat) => [[0, 5]];
    NopCodecIsLawful();
    var disks := Config(files, format).disks;
    assert Flatten([[0 as byte, 5]]) == [0, 5] + Flatten([]);
    StoredExactly(files["disk"], disks, "disk");
    forall i: nat | i < |disks| && disks[i] in files
      ensures Flatten(cuts(i)) == files[disks[i]]
    {
      assert disks[i] == "disk";
    }
    hide ImageLayers;
    forall a: seq<byte>, b: seq<byte> | Spelled(a) == Spelled(b)
      ensures a == b
    {
      SpelledApart(a, b);
    }
  }

  lemma SpelledApart(a: seq<byte>, b: seq<byte>)
    requires Spelled(a) == Spelled(b)
    ensures a == b
  {
    assert |a| == |Spelled(a)| == |b|;
    forall i | 0 <= i < |a|
      ensures a[i] == b[i]
    {
      assert Spelled(a)[i] == a[i] as char && Spelled(b)[i] == b[i] as char;
    }
  }
}
