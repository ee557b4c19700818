/** internal/oci/push.go: turning a VM directory into image layers. */
module Push {
  import opened Bytes
  import opened Compression
  import opened Chunking
  import opened OCI

  /** 500 * humanize.MByte */
  const TARGET_DISK_LAYER_SIZE_BYTES := 500_000_000

  const CONFIG_FILE := "config.json"
  const KERNEL_FILE := "kernel"
  const INITRAMFS_FILE := "initramfs"

  /** The part of config.json the distribution depends on, and everything else in it. */
  datatype VMConfig = VMConfig(disks: seq<string>, settings: string)

  /** vmconfig.NewFromJSON, which also validates, and json.Marshal. */
  datatype ConfigFormat = ConfigFormat(parse: seq<byte> -> Option<VMConfig>, marshal: VMConfig -> seq<byte>)

  /** A config is text: JSON has no place for a zero byte. */
  ghost predicate IsText(format: ConfigFormat) {
    forall bytes :: format.parse(bytes).Some? ==> 0 !in bytes
  }

  // ---- The layers of an image ----

  /** pushBytes */
  function BlobLayer(digest: seq<byte> -> Digest, mediaType: string, annotations: map<string, string>, data: seq<byte>)
    : Layer
  {
    Layer(Descriptor(mediaType, |data|, digest(data), annotations), data)
  }

  function DiskAnnotations(name: string, chunk: ChunkValue): map<string, string> {
    map[
      ANNOTATION_NAME := name,
      ANNOTATION_UNCOMPRESSED_SIZE := FormatInt(chunk.uncompressedSize),
      ANNOTATION_UNCOMPRESSED_DIGEST := chunk.uncompressedDigest
    ]
  }

  function DiskLayer(digest: seq<byte> -> Digest, name: string, chunk: ChunkValue): Layer {
    BlobLayer(digest, MEDIA_TYPE_DISK, DiskAnnotations(name, chunk), chunk.data)
  }

  /** One chunk's worth of writes of the named disk. */
  datatype Piece = Piece(name: string, group: seq<seq<byte>>)

  function PiecesOfDisk<S(!new)>(codec: Codec<S>, name: string, writes: seq<seq<byte>>): seq<Piece> {
    var groups := ChunkGroups(codec, TARGET_DISK_LAYER_SIZE_BYTES, writes);
    seq(|groups|, i requires 0 <= i < |groups| => Piece(name, groups[i]))
  }

  /** How each disk's bytes are handed to the chunker: for every position in the config, a sequence of writes. */
  type Cuts = nat -> seq<seq<byte>>

  /** The pieces of all disks, in the config's order. */
  function Pieces<S(!new)>(codec: Codec<S>, disks: seq<string>, cuts: Cuts): seq<Piece> {
    if disks == [] then []
    else
      var n := |disks| - 1;
      Pieces(codec, disks[..n], cuts) + PiecesOfDisk(codec, disks[n], cuts(n))
  }

  function DiskLayers<S(!new)>(codec: Codec<S>, digest: seq<byte> -> Digest, pieces: seq<Piece>): (layers: seq<Layer>)
    ensures |layers| == |pieces|
  {
    seq(|pieces|, i requires 0 <= i < |pieces| =>
      DiskLayer(digest, pieces[i].name, ChunkOf(codec, digest, pieces[i].group)))
  }

  function FileLayers(digest: seq<byte> -> Digest, files: Files): seq<Layer>
    requires CONFIG_FILE in files && KERNEL_FILE in files
  {
    [BlobLayer(digest, MEDIA_TYPE_CONFIG, map[], files[CONFIG_FILE]),
     BlobLayer(digest, MEDIA_TYPE_KERNEL, map[], files[KERNEL_FILE])]
    + if INITRAMFS_FILE in files then [BlobLayer(digest, MEDIA_TYPE_INITRAMFS, map[], files[INITRAMFS_FILE])] else []
  }

  function ImageLayers<S(!new)>(codec: Codec<S>, digest: seq<byte> -> Digest, files: Files,
                                disks: seq<string>, cuts: Cuts): seq<Layer>
    requires CONFIG_FILE in files && KERNEL_FILE in files
  {
    FileLayers(digest, files) + DiskLayers(codec, digest, Pieces(codec, disks, cuts))
  }

  /** The descriptor gives the size and the digest of the layer's own data. */
  ghost predicate WellDescribed(digest: seq<byte> -> Digest, layer: Layer) {
    layer.desc.size == |layer.data| && layer.desc.digest == digest(layer.data)
  }

  lemma LayersAreWellDescribed<S(!new)>(codec: Codec<S>, digest: seq<byte> -> Digest, files: Files,
                                        disks: seq<string>, cuts: Cuts)
    requires CONFIG_FILE in files && KERNEL_FILE in files
    ensures forall layer :: layer in ImageLayers(codec, digest, files, disks, cuts) ==> WellDescribed(digest, layer)
  {}

  /** No two different layers' data have the same digest. */
  ghost predicate DigestsDiffer(digest: seq<byte> -> Digest, layers: seq<Layer>) {
    forall i, j :: 0 <= i < |layers| && 0 <= j < |layers| && digest(layers[i].data) == digest(layers[j].data) ==>
      layers[i].data == layers[j].data
  }

  lemma DescribedLayersDoNotCollide(digest: seq<byte> -> Digest, layers: seq<Layer>)
    requires DigestsDiffer(digest, layers) && forall layer :: layer in layers ==> WellDescribed(digest, layer)
    ensures CollisionFree(layers)
  {
    forall i, j | 0 <= i < |layers| && 0 <= j < |layers| && layers[i].desc.digest == layers[j].desc.digest
      ensures layers[i].data == layers[j].data
    {
      assert WellDescribed(digest, layers[i]) && WellDescribed(digest, layers[j]);
    }
  }

  /** Everything a push reads is there. */
  predicate Pushable(files: Files, format: ConfigFormat) {
    && CONFIG_FILE in files
    && KERNEL_FILE in files
    && format.parse(files[CONFIG_FILE]).Some?
    && forall name :: name in format.parse(files[CONFIG_FILE]).value.disks ==> name in files
  }

  /** io.Copy hands each disk's bytes to the chunker in some sequence of writes. */
  predicate CutsOf(files: Files, disks: seq<string>, cuts: Cuts) {
    forall i: nat :: i < |disks| && disks[i] in files ==> Flatten(cuts(i)) == files[disks[i]]
  }

  // ---- The push itself ----

  method PushBytes(registry: Registry, digest: seq<byte> -> Digest, mediaType: string,
                   annotations: map<string, string>, data: seq<byte>) returns (desc: Descriptor)
    modifies registry`blobs
    ensures desc.mediaType == mediaType && desc.annotations == annotations
    ensures desc.size == |data| && desc.digest == digest(data)
    ensures registry.blobs == old(registry.blobs)[digest(data) := data]
    ensures desc == BlobLayer(digest, mediaType, annotations, data).desc
    ensures registry.blobs == PutAll(old(registry.blobs), [BlobLayer(digest, mediaType, annotations, data)])
  {
    desc := Descriptor(mediaType, |data|, digest(data), annotations);
    registry.BlobPut(desc, data);
    var layers := [BlobLayer(digest, mediaType, annotations, data)];
    assert layers[..0] == [] && PutAll(old(registry.blobs), layers[..0]) == old(registry.blobs);
  }

  /** Feeds a disk to a chunker and receives the chunks it sends. */
  method ChunkDisk<S(!new)>(codec: Codec<S>, digest: seq<byte> -> Digest, writes: seq<seq<byte>>)
    returns (chunks: seq<ChunkValue>)
    ensures chunks == ChunkValues(codec, digest, ChunkGroups(codec, TARGET_DISK_LAYER_SIZE_BYTES, writes))
  {
    hide Encode;
    hide Run;
    hide Flatten;
    var chunker := new Chunker(TARGET_DISK_LAYER_SIZE_BYTES, codec, digest);
    for i := 0 to |writes|
      invariant chunker.Valid() && !chunker.closed && fresh(chunker) && fresh(chunker.buf)
      invariant chunker.codec == codec && chunker.digest == digest
      invariant chunker.chunkSize == TARGET_DISK_LAYER_SIZE_BYTES
      invariant chunker.groups == Feed(codec, TARGET_DISK_LAYER_SIZE_BYTES, writes[..i])
    {
      assert writes[..i + 1] == writes[..i] + [writes[i]];
      FeedSnoc(codec, TARGET_DISK_LAYER_SIZE_BYTES, writes[..i], writes[i]);
      chunker.Write(writes[i]);
    }
    assert writes[..|writes|] == writes;
    chunker.Close();
    chunks := Receive(chunker);
  }

  /** Takes the chunks off the channel in the order they were sent. */
  method Receive<S(!new)>(chunker: Chunker<S>) returns (chunks: seq<ChunkValue>)
    requires chunker.Valid()
    ensures chunks == ChunkValues(chunker.codec, chunker.digest, chunker.groups.emitted)
  {
    hide Encode;
    hide Run;
    hide Flatten;
    ghost var groups := chunker.groups.emitted;
    chunks := [];
    for i := 0 to |chunker.chunks|
      invariant |chunks| == i
      invariant forall k :: 0 <= k < i ==> chunks[k] == ChunkOf(chunker.codec, chunker.digest, groups[k])
    {
      var chunk := chunker.chunks[i];
      assert chunker.ChunkCarries(chunk, groups[i]);
      chunks := chunks + [ChunkValue(chunk.data.bytes, chunk.uncompressedSize, chunk.uncompressedDigest)];
    }
  }

  method PushDisk<S(!new)>(registry: Registry, codec: Codec<S>, digest: seq<byte> -> Digest,
                           diskName: string, writes: seq<seq<byte>>) returns (result: seq<Descriptor>)
    modifies registry`blobs
    ensures var layers := DiskLayers(codec, digest, PiecesOfDisk(codec, diskName, writes));
            result == Descriptors(layers) && registry.blobs == PutAll(old(registry.blobs), layers)
    ensures var groups := ChunkGroups(codec, TARGET_DISK_LAYER_SIZE_BYTES, writes);
            && |result| == |groups|
            && forall i :: 0 <= i < |groups| ==>
                 && result[i].mediaType == MEDIA_TYPE_DISK
                 && result[i].size == |Encode(codec, groups[i])|
                 && result[i].digest == digest(Encode(codec, groups[i]))
                 && result[i].annotations == map[
                      ANNOTATION_NAME := diskName,
                      ANNOTATION_UNCOMPRESSED_SIZE := FormatInt(|Flatten(groups[i])|),
                      ANNOTATION_UNCOMPRESSED_DIGEST := digest(Flatten(groups[i]))
                    ]
  {
    hide Encode;
    hide Flatten;
    hide PutAll;
    hide ChunkGroups;
    var chunks := ChunkDisk(codec, digest, writes);
    ghost var layers := DiskLayers(codec, digest, PiecesOfDisk(codec, diskName, writes));
    result := [];
    NothingPut(registry.blobs);
    for i := 0 to |chunks|
      invariant result == Descriptors(layers[..i])
      invariant registry.blobs == PutAll(old(registry.blobs), layers[..i])
    {
      var desc := PushBytes(registry, digest, MEDIA_TYPE_DISK, DiskAnnotations(diskName, chunks[i]), chunks[i].data);
      assert layers[..i + 1] == layers[..i] + [DiskLayer(digest, diskName, chunks[i])];
      PutAllConcat(old(registry.blobs), layers[..i], [layers[i]]);
      result := result + [desc];
    }
    assert layers[..|layers|] == layers;
  }

  lemma NothingPut(blobs: Blobs)
    ensures PutAll(blobs, []) == blobs
  {}

  lemma DescriptorsConcat(a: seq<Layer>, b: seq<Layer>)
    ensures Descriptors(a + b) == Descriptors(a) + Descriptors(b)
  {}

  lemma DiskLayersConcat<S(!new)>(codec: Codec<S>, digest: seq<byte> -> Digest, a: seq<Piece>, b: seq<Piece>)
    ensures DiskLayers(codec, digest, a + b) == DiskLayers(codec, digest, a) + DiskLayers(codec, digest, b)
  {}

  method PushFiles(registry: Registry, digest: seq<byte> -> Digest, files: Files)
    returns (r: Result<seq<Descriptor>>)
    modifies registry`blobs
    ensures r.Ok? <==> CONFIG_FILE in files && KERNEL_FILE in files
    ensures r.Ok? ==> r.value == Descriptors(FileLayers(digest, files))
    ensures r.Ok? ==> registry.blobs == PutAll(old(registry.blobs), FileLayers(digest, files))
  {
    hide PutAll;
    hide Descriptors;
    if CONFIG_FILE !in files {
      return Err(MissingFile);
    }
    var desc := PushBytes(registry, digest, MEDIA_TYPE_CONFIG, map[], files[CONFIG_FILE]);
    var descs := [desc];
    ghost var done := [BlobLayer(digest, MEDIA_TYPE_CONFIG, map[], files[CONFIG_FILE])];
    OneDescriptor(done[0]);
    if KERNEL_FILE !in files {
      return Err(MissingFile);
    }
    desc := PushBytes(registry, digest, MEDIA_TYPE_KERNEL, map[], files[KERNEL_FILE]);
    done := Pushed(old(registry.blobs), done, BlobLayer(digest, MEDIA_TYPE_KERNEL, map[], files[KERNEL_FILE]));
    descs := descs + [desc];
    if INITRAMFS_FILE in files {
      desc := PushBytes(registry, digest, MEDIA_TYPE_INITRAMFS, map[], files[INITRAMFS_FILE]);
      done := Pushed(old(registry.blobs), done, BlobLayer(digest, MEDIA_TYPE_INITRAMFS, map[], files[INITRAMFS_FILE]));
      descs := descs + [desc];
    }
    assert done == FileLayers(digest, files);
    return Ok(descs);
  }

  method PushVMDirectory<S(!new)>(registry: Registry, codec: Codec<S>, digest: seq<byte> -> Digest,
                                  format: ConfigFormat, imageConfig: seq<byte>, manifestDigest: Manifest -> Digest,
                                  files: Files, cuts: Cuts)
    returns (r: Result<Digest>)
    requires CONFIG_FILE in files && format.parse(files[CONFIG_FILE]).Some? ==>
               CutsOf(files, format.parse(files[CONFIG_FILE]).value.disks, cuts)
    modifies registry
    ensures r.Ok? <==> Pushable(files, format)
    ensures r.Ok? <==>
              && CONFIG_FILE in files && KERNEL_FILE in files && format.parse(files[CONFIG_FILE]).Some?
              && forall name :: name in format.parse(files[CONFIG_FILE]).value.disks ==> name in files
    ensures r.Err? ==> registry.manifest == old(registry.manifest)
    ensures r.Ok? ==>
              var image := BlobLayer(digest, MEDIA_TYPE_IMAGE_CONFIG, map[], imageConfig);
              var layers := ImageLayers(codec, digest, files, format.parse(files[CONFIG_FILE]).value.disks, cuts);
              && registry.manifest == Some(Manifest(image.desc, Descriptors(layers)))
              && r.value == manifestDigest(registry.manifest.value)
              && registry.blobs == PutAll(PutAll(old(registry.blobs), [image]), layers)
              && (forall layer :: layer in layers ==> WellDescribed(digest, layer))
  {
    hide PutAll;
    hide Descriptors;
    hide DiskLayers;
    hide FileLayers;
    hide Pieces;
    hide PiecesOfDisk;
    hide DiskLayer;
    hide Flatten;
    var imageDesc := PushBytes(registry, digest, MEDIA_TYPE_IMAGE_CONFIG, map[], imageConfig);
    ghost var before := registry.blobs;
    var pushed := PushFiles(registry, digest, files);
    if pushed.Err? {
      return Err(MissingFile);
    }
    var descs := pushed.value;
    var config := format.parse(files[CONFIG_FILE]);
    if config.None? {
      return Err(BadConfig);
    }
    var disks := config.value.disks;
    ghost var fileLayers := FileLayers(digest, files);
    ghost var done := fileLayers;
    NoDiskLayers(codec, digest, fileLayers, disks, cuts);
    for i := 0 to |disks|
      invariant forall k :: 0 <= k < i ==> disks[k] in files
      invariant done == fileLayers + DiskLayers(codec, digest, Pieces(codec, disks[..i], cuts))
      invariant descs == Descriptors(done) && registry.blobs == PutAll(before, done)
      invariant registry.manifest == old(registry.manifest)
    {
      if disks[i] !in files {
        return Err(MissingFile);
      }
      var diskDescs := PushDisk(registry, codec, digest, disks[i], cuts(i));
      done := PushedDisk(codec, digest, before, done, disks[i], cuts(i), fileLayers,
                         Pieces(codec, disks[..i], cuts));
      descs := descs + diskDescs;
      PiecesSnoc(codec, disks, cuts, i);
    }
    assert disks[..|disks|] == disks;
    LayersAreWellDescribed(codec, digest, files, disks, cuts);
    var manifest := Manifest(imageDesc, descs);
    registry.ManifestPut(manifest);
    return Ok(manifestDigest(manifest));
  }

  lemma OneDescriptor(layer: Layer)
    ensures Descriptors([layer]) == [layer.desc]
  {}

  lemma NoDiskLayers<S(!new)>(codec: Codec<S>, digest: seq<byte> -> Digest, layers: seq<Layer>, disks: seq<string>,
                              cuts: Cuts)
    ensures layers + DiskLayers(codec, digest, Pieces(codec, disks[..0], cuts)) == layers
  {}

  lemma PiecesSnoc<S(!new)>(codec: Codec<S>, disks: seq<string>, cuts: Cuts, i: nat)
    requires i < |disks|
    ensures Pieces(codec, disks[..i + 1], cuts)
         == Pieces(codec, disks[..i], cuts) + PiecesOfDisk(codec, disks[i], cuts(i))
  {
    hide PiecesOfDisk;
    assert disks[..i + 1][..i] == disks[..i];
  }

  lemma Pushed(blobs: Blobs, done: seq<Layer>, layer: Layer) returns (done': seq<Layer>)
    ensures done' == done + [layer]
    ensures Descriptors(done') == Descriptors(done) + [layer.desc]
    ensures PutAll(blobs, done') == PutAll(PutAll(blobs, done), [layer])
  {
    done' := done + [layer];
    DescriptorsConcat(done, [layer]);
    OneDescriptor(layer);
    PutAllConcat(blobs, done, [layer]);
  }

  lemma PushedDisk<S(!new)>(codec: Codec<S>, digest: seq<byte> -> Digest, blobs: Blobs, done: seq<Layer>,
                            name: string, writes: seq<seq<byte>>, fileLayers: seq<Layer>, pieces: seq<Piece>)
    returns (done': seq<Layer>)
    requires done == fileLayers + DiskLayers(codec, digest, pieces)
    ensures done' == fileLayers + DiskLayers(codec, digest, pieces + PiecesOfDisk(codec, name, writes))
    ensures var layers := DiskLayers(codec, digest, PiecesOfDisk(codec, name, writes));
            && Descriptors(done') == Descriptors(done) + Descriptors(layers)
            && PutAll(blobs, done') == PutAll(PutAll(blobs, done), layers)
  {
    hide DiskLayers;
    var layers := DiskLayers(codec, digest, PiecesOfDisk(codec, name, writes));
    done' := done + layers;
    DiskLayersConcat(codec, digest, pieces, PiecesOfDisk(codec, name, writes));
    DescriptorsConcat(done, layers);
    PutAllConcat(blobs, done, layers);
  }
}
