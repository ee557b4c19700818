/** The registry's side of an image: descriptors, media types, annotations and stored blobs. */
module OCI {
  import opened Bytes
  import opened Chunking

  const MEDIA_TYPE_IMAGE_CONFIG := "application/vnd.oci.image.config.v1+json"

  const MEDIA_TYPE_CONFIG := "application/vnd.cirruslabs.vetu.config.v1"
  const MEDIA_TYPE_KERNEL := "application/vnd.cirruslabs.vetu.kernel.v1"
  const MEDIA_TYPE_INITRAMFS := "application/vnd.cirruslabs.vetu.initramfs.v1"
  const MEDIA_TYPE_DISK := "application/vnd.cirruslabs.vetu.disk.v1"

  const ANNOTATION_NAME := "org.cirruslabs.vetu.name"
  const ANNOTATION_UNCOMPRESSED_SIZE := "org.cirruslabs.vetu.uncompressed-size"
  const ANNOTATION_UNCOMPRESSED_DIGEST := "org.cirruslabs.vetu.uncompressed-digest"

  datatype Descriptor = Descriptor(mediaType: string, size: nat, digest: Digest, annotations: map<string, string>)

  datatype Error =
    | MissingName | UnknownDisk | MissingSize | BadSize | NegativeLength
    | MissingBlob | BadConfig | WrongLayerCount | MissingFile

  datatype Result<+T> = Ok(value: T) | Err(error: Error)

  type Blobs = map<Digest, seq<byte>>

  datatype Manifest = Manifest(config: Descriptor, layers: seq<Descriptor>)

  /** Content-addressed blob storage, and the manifest an image reference leads to. */
  class Registry {
    var blobs: Blobs
    var manifest: Option<Manifest>

    constructor ()
      ensures blobs == map[] && manifest == None
    {
      blobs, manifest := map[], None;
    }

    method ManifestPut(m: Manifest)
      modifies this`manifest
      ensures manifest == Some(m)
    {
      manifest := Some(m);
    }

    method BlobPut(desc: Descriptor, data: seq<byte>)
      modifies this`blobs
      ensures blobs == old(blobs)[desc.digest := data]
    {
      blobs := blobs[desc.digest := data];
    }
  }

  /** A layer together with the bytes uploaded for it. */
  datatype Layer = Layer(desc: Descriptor, data: seq<byte>)

  function PutAll(blobs: Blobs, layers: seq<Layer>): Blobs {
    if layers == [] then blobs
    else PutAll(blobs, layers[..|layers| - 1])[layers[|layers| - 1].desc.digest := layers[|layers| - 1].data]
  }

  function Descriptors(layers: seq<Layer>): (descs: seq<Descriptor>)
    ensures |descs| == |layers|
  {
    seq(|layers|, i requires 0 <= i < |layers| => layers[i].desc)
  }

  /** No two different uploads share a digest. */
  ghost predicate CollisionFree(layers: seq<Layer>) {
    forall i, j :: 0 <= i < |layers| && 0 <= j < |layers| && layers[i].desc.digest == layers[j].desc.digest ==>
      layers[i].data == layers[j].data
  }

  lemma {:induction false} PutAllConcat(blobs: Blobs, a: seq<Layer>, b: seq<Layer>)
    ensures PutAll(blobs, a + b) == PutAll(PutAll(blobs, a), b)
  {
    if b == [] {
      assert a + b == a;
    } else {
      assert (a + b)[..|a + b| - 1] == a + b[..|b| - 1];
      PutAllConcat(blobs, a, b[..|b| - 1]);
    }
  }

  /** What has been uploaded can be fetched by its descriptor. */
  lemma {:induction false} PutThenGet(blobs: Blobs, layers: seq<Layer>, i: nat)
    requires i < |layers| && CollisionFree(layers)
    ensures layers[i].desc.digest in PutAll(blobs, layers)
    ensures PutAll(blobs, layers)[layers[i].desc.digest] == layers[i].data
    decreases |layers|
  {
    if i < |layers| - 1 {
      var front := layers[..|layers| - 1];
      assert CollisionFree(front);
      PutThenGet(blobs, front, i);
    }
  }
}
