/** internal/chunker: cutting a byte stream into independently compressed chunks. */
module Chunking {
  import opened Bytes
  import opened Compression

  // ---- Which writes end up in which chunk ----

  /** The writes that make up each emitted chunk, and those of the chunk being filled. */
  datatype Groups = Groups(emitted: seq<seq<seq<byte>>>, current: seq<seq<byte>>)

  function WriteStep<S(!new)>(codec: Codec<S>, chunkSize: int, g: Groups, b: seq<byte>): Groups {
    if |Run(codec, g.current).output| >= chunkSize then Groups(g.emitted + [g.current], [b])
    else Groups(g.emitted, g.current + [b])
  }

  function CloseStep<S(!new)>(codec: Codec<S>, g: Groups): Groups {
    if Encode(codec, g.current) != [] || g.emitted == [] then Groups(g.emitted + [g.current], [])
    else Groups(g.emitted, [])
  }

  function Feed<S(!new)>(codec: Codec<S>, chunkSize: int, writes: seq<seq<byte>>): Groups {
    if writes == [] then Groups([], [])
    else WriteStep(codec, chunkSize, Feed(codec, chunkSize, writes[..|writes| - 1]), writes[|writes| - 1])
  }

  /** The groups of all chunks of a stream written as `writes` and closed. */
  function ChunkGroups<S(!new)>(codec: Codec<S>, chunkSize: int, writes: seq<seq<byte>>): seq<seq<seq<byte>>> {
    CloseStep(codec, Feed(codec, chunkSize, writes)).emitted
  }

  // ---- The chunker ----

  type Digest = string

  /** bytes.Buffer, shared between the compressor that fills it and the chunk that carries it away. */
  class Buffer {
    var bytes: seq<byte>
    constructor ()
      ensures bytes == []
    {
      bytes := [];
    }
  }

  lemma NothingRun<S(!new)>(codec: Codec<S>)
    ensures Run(codec, []) == codec.start && Flatten([]) == []
  {}

  datatype Chunk = Chunk(data: Buffer, uncompressedSize: nat, uncompressedDigest: Digest)

  class Chunker<S(!new)> {
    // Settings
    const chunkSize: int
    const codec: Codec<S>
    const digest: seq<byte> -> Digest

    // State
    var chunks: seq<Chunk>
    var emitted: bool
    var closed: bool

    // Per-chunk state
    var buf: Buffer
    var uncompressedSize: nat
    var hashed: seq<byte>
    var writer: S

    ghost var groups: Groups

    ghost predicate ChunkCarries(c: Chunk, group: seq<seq<byte>>)
      reads c.data
    {
      && c.data.bytes == Encode(codec, group)
      && c.uncompressedSize == |Flatten(group)|
      && c.uncompressedDigest == digest(Flatten(group))
    }

    ghost predicate Valid()
      reads this, buf, set c | c in chunks :: c.data
    {
      && (forall c :: c in chunks ==> c.data != buf)
      && |chunks| == |groups.emitted|
      && (forall i :: 0 <= i < |chunks| ==> ChunkCarries(chunks[i], groups.emitted[i]))
      && emitted == (groups.emitted != [])
      && Stepped(writer, buf.bytes) == Run(codec, groups.current)
      && hashed == Flatten(groups.current)
      && uncompressedSize == |hashed|
    }

    constructor (chunkSize: int, codec: Codec<S>, digest: seq<byte> -> Digest)
      ensures Valid() && fresh(buf) && !closed
      ensures this.chunkSize == chunkSize && this.codec == codec && this.digest == digest
      ensures groups == Feed(codec, chunkSize, [])
    {
      this.chunkSize, this.codec, this.digest := chunkSize, codec, digest;
      chunks, emitted, closed := [], false, false;
      groups := Groups([], []);
      buf := new Buffer();
      uncompressedSize, hashed := 0, [];
      writer := codec.start.state;
      new;
      buf.bytes := codec.start.output;
    }

    method ResetPerChunkState()
      modifies this`buf, this`uncompressedSize, this`hashed, this`writer
      ensures fresh(buf) && uncompressedSize == 0 && hashed == []
      ensures Stepped(writer, buf.bytes) == codec.start
    {
      buf := new Buffer();
      uncompressedSize, hashed := 0, [];
      writer, buf.bytes := codec.start.state, codec.start.output;
    }

    /** Closing the compressor flushes what it still holds back into the buffer. */
    method CloseWriter()
      requires Stepped(writer, buf.bytes) == Run(codec, groups.current)
      modifies buf
      ensures buf.bytes == Encode(codec, groups.current)
    {
      buf.bytes := buf.bytes + codec.close(writer);
    }

    /** Sends the chunk whose compressor has been closed; the channel keeps the buffer. */
    method Emit()
      requires buf.bytes == Encode(codec, groups.current) && hashed == Flatten(groups.current)
      requires uncompressedSize == |hashed| && |chunks| == |groups.emitted|
      requires forall i :: 0 <= i < |chunks| ==> ChunkCarries(chunks[i], groups.emitted[i])
      modifies this`chunks, this`emitted, this`groups
      ensures chunks == old(chunks) + [Chunk(buf, uncompressedSize, digest(hashed))] && emitted
      ensures groups == Groups(old(groups.emitted) + [old(groups.current)], [])
      ensures forall i :: 0 <= i < |chunks| ==> ChunkCarries(chunks[i], groups.emitted[i])
    {
      chunks := chunks + [Chunk(buf, uncompressedSize, digest(hashed))];
      emitted := true;
      groups := Groups(groups.emitted + [groups.current], []);
    }

    /** The first half of Write: a chunk that has reached its target size is sent and a new one started. */
    method StartNextChunk()
      requires Valid()
      modifies this, buf
      ensures Valid() && closed == old(closed) && fresh(buf)
      ensures groups == Groups(old(groups.emitted) + [old(groups.current)], [])
      ensures old(chunks) <= chunks
      ensures forall c :: c in old(chunks) ==> c.data.bytes == old(c.data.bytes)
    {
      hide Encode;
      hide Run;
      hide Flatten;
      NothingRun(codec);
      CloseWriter();
      Emit();
      ResetPerChunkState();
    }

    /** The second half of Write: the data goes to the size, the hash and the compressor. */
    method Append(b: seq<byte>)
      requires Valid()
      modifies this`uncompressedSize, this`hashed, this`writer, this`groups, buf
      ensures Valid()
      ensures groups == Groups(old(groups.emitted), old(groups.current) + [b])
    {
      hide Encode;
      hide Run;
      hide Flatten;
      RunSnoc(codec, groups.current, b);
      FlattenSnoc(groups.current, b);
      uncompressedSize := uncompressedSize + |b|;
      hashed := hashed + b;
      var step := codec.write(writer, b);
      writer, buf.bytes := step.state, buf.bytes + step.output;
      groups := Groups(groups.emitted, groups.current + [b]);
    }

    /** Emitted chunks keep their bytes: the compressor of a later chunk has a buffer of its own. */
    method Write(b: seq<byte>)
      requires Valid() && !closed
      modifies this, buf
      ensures Valid() && !closed && (buf == old(buf) || fresh(buf))
      ensures groups == WriteStep(codec, chunkSize, old(groups), b)
      ensures old(chunks) <= chunks
      ensures forall c :: c in old(chunks) ==> c.data.bytes == old(c.data.bytes)
    {
      hide Encode;
      hide Run;
      hide Flatten;
      if |buf.bytes| >= chunkSize {
        StartNextChunk();
      }
      ghost var current := groups.current;
      Append(b);
      assert [] + [b] == [b];
    }

    method Close()
      requires Valid() && !closed
      modifies this, buf
      ensures closed && fresh(buf) && groups == CloseStep(codec, old(groups))
      ensures Valid()
      ensures old(chunks) <= chunks
      ensures forall c :: c in old(chunks) ==> c.data.bytes == old(c.data.bytes)
    {
      hide Encode;
      hide Run;
      hide Flatten;
      NothingRun(codec);
      CloseWriter();
      if |buf.bytes| != 0 || !emitted {
        Emit();
      } else {
        groups := Groups(groups.emitted, []);
      }
      closed := true;
      ResetPerChunkState();
    }
  }

  // ---- What the chunks amount to ----

  /** A chunk as a value: what a receiver of the channel sees. */
  datatype ChunkValue = ChunkValue(data: seq<byte>, uncompressedSize: nat, uncompressedDigest: Digest)

  function ChunkOf<S(!new)>(codec: Codec<S>, digest: seq<byte> -> Digest, group: seq<seq<byte>>): ChunkValue {
    ChunkValue(Encode(codec, group), |Flatten(group)|, digest(Flatten(group)))
  }

  function ChunkValues<S(!new)>(codec: Codec<S>, digest: seq<byte> -> Digest, groups: seq<seq<seq<byte>>>)
    : (chunks: seq<ChunkValue>)
    ensures |chunks| == |groups|
  {
    seq(|groups|, i requires 0 <= i < |groups| => ChunkOf(codec, digest, groups[i]))
  }

  function Plaintexts(groups: seq<seq<seq<byte>>>): (plain: seq<seq<byte>>)
    ensures |plain| == |groups|
  {
    seq(|groups|, i requires 0 <= i < |groups| => Flatten(groups[i]))
  }

  lemma PlaintextsSnoc(groups: seq<seq<seq<byte>>>, group: seq<seq<byte>>)
    ensures Flatten(Plaintexts(groups + [group])) == Flatten(Plaintexts(groups)) + Flatten(group)
  {
    assert Plaintexts(groups + [group]) == Plaintexts(groups) + [Flatten(group)];
    FlattenSnoc(Plaintexts(groups), Flatten(group));
  }

  lemma WriteStepKeepsBytes<S(!new)>(codec: Codec<S>, chunkSize: int, g: Groups, b: seq<byte>)
    ensures var g' := WriteStep(codec, chunkSize, g, b);
            Flatten(Plaintexts(g'.emitted)) + Flatten(g'.current)
            == Flatten(Plaintexts(g.emitted)) + Flatten(g.current) + b
  {
    hide Run;
    hide Flatten;
    hide Plaintexts;
    PlaintextsSnoc(g.emitted, g.current);
    FlattenSnoc(g.current, b);
    FlattenSnoc([], b);
    NothingRun(codec);
    assert [] + [b] == [b] && [] + b == b;
    assert Flatten(Plaintexts(g.emitted)) + (Flatten(g.current) + b)
        == Flatten(Plaintexts(g.emitted)) + Flatten(g.current) + b;
  }

  /** While writing, nothing is lost or reordered between the emitted chunks and the current one. */
  lemma {:induction false} FeedKeepsBytes<S(!new)>(codec: Codec<S>, chunkSize: int, writes: seq<seq<byte>>)
    ensures var g := Feed(codec, chunkSize, writes);
            Flatten(Plaintexts(g.emitted)) + Flatten(g.current) == Flatten(writes)
    decreases |writes|
  {
    if writes == [] {
      assert Plaintexts([]) == [];
    } else {
      hide WriteStep;
      hide Flatten;
      hide Plaintexts;
      var front, last := writes[..|writes| - 1], writes[|writes| - 1];
      FeedKeepsBytes(codec, chunkSize, front);
      assert writes == front + [last];
      FlattenSnoc(front, last);
      WriteStepKeepsBytes(codec, chunkSize, Feed(codec, chunkSize, front), last);
    }
  }

  /** Close drops the last chunk: something was emitted before and the closed compressor put out nothing. */
  predicate Suppressed<S(!new)>(codec: Codec<S>, g: Groups) {
    Encode(codec, g.current) == [] && g.emitted != []
  }

  /**
   * The chunks' plaintexts are the written bytes exactly when Close does not suppress a chunk into
   * which data has gone.
   */
  lemma ChunksKeepBytesExactly<S(!new)>(codec: Codec<S>, chunkSize: int, writes: seq<seq<byte>>)
    ensures var g := Feed(codec, chunkSize, writes);
            Flatten(Plaintexts(ChunkGroups(codec, chunkSize, writes))) == Flatten(writes)
            <==> !(Suppressed(codec, g) && Flatten(g.current) != [])
  {
    var g := Feed(codec, chunkSize, writes);
    FeedKeepsBytes(codec, chunkSize, writes);
    if !Suppressed(codec, g) {
      PlaintextsSnoc(g.emitted, g.current);
    }
  }

  /** With a lawful compressor for which no output means no data, no byte is ever lost. */
  lemma ChunksKeepBytes<S(!new)>(codec: Codec<S>, chunkSize: int, writes: seq<seq<byte>>)
    requires Lawful(codec) && EmptyDecodesToNothing(codec)
    ensures Flatten(Plaintexts(ChunkGroups(codec, chunkSize, writes))) == Flatten(writes)
  {
    ChunksKeepBytesExactly(codec, chunkSize, writes);
    var g := Feed(codec, chunkSize, writes);
    assert codec.decode(Encode(codec, g.current)) == Some(Flatten(g.current));
  }

  datatype SilentState = SilentState(started: bool, pending: seq<byte>)

  /** A compressor meeting the round-trip law alone that stays silent when all it got is the byte 7. */
  function SilentCodec(): Codec<SilentState> {
    Codec(
      Stepped(SilentState(false, []), []),
      (s: SilentState, b: seq<byte>) =>
        if |s.pending + b| <= 1 then Stepped(SilentState(s.started, s.pending + b), [])
        else Stepped(SilentState(true, []), (if s.started then [] else [1]) + s.pending + b),
      (s: SilentState) =>
        if s.started then s.pending else if s.pending == [7] then [] else [1] + s.pending,
      (d: seq<byte>) => Some(if d == [] then [7] else d[1..])
    )
  }

  ghost predicate SilentAfter(r: Stepped<SilentState>, data: seq<byte>) {
    if r.state.started then r.output + r.state.pending == [1] + data
    else r.output == [] && r.state.pending == data
  }

  lemma SilentStep(before: Stepped<SilentState>, data: seq<byte>, b: seq<byte>)
    requires SilentAfter(before, data)
    ensures var step := SilentCodec().write(before.state, b);
            SilentAfter(Stepped(step.state, before.output + step.output), data + b)
  {
    var step := SilentCodec().write(before.state, b);
    if step.state.started {
      var tag: seq<byte> := if before.state.started then [] else [1];
      assert before.output + step.output + step.state.pending == before.output + (tag + before.state.pending + b);
      assert before.output + (tag + before.state.pending + b) == [1] + data + b;
    }
  }

  lemma {:induction false} SilentRun(writes: seq<seq<byte>>)
    ensures SilentAfter(Run(SilentCodec(), writes), Flatten(writes))
    decreases |writes|
  {
    hide SilentAfter;
    hide Flatten;
    if writes == [] {
      SilentStart();
    } else {
      var front, last := writes[..|writes| - 1], writes[|writes| - 1];
      SilentRun(front);
      assert writes == front + [last];
      FlattenSnoc(front, last);
      SilentStep(Run(SilentCodec(), front), Flatten(front), last);
      RunSnoc(SilentCodec(), front, last);
    }
  }

  lemma SilentStart()
    ensures SilentAfter(Run(SilentCodec(), []), Flatten([]))
  {}

  lemma SilentCodecIsLawful()
    ensures Lawful(SilentCodec()) && !EmptyDecodesToNothing(SilentCodec())
  {
    forall writes: seq<seq<byte>>
      ensures SilentCodec().decode(Encode(SilentCodec(), writes)) == Some(Flatten(writes))
    {
      SilentRun(writes);
      var r := Run(SilentCodec(), writes);
      assert ([1] + Flatten(writes))[1..] == Flatten(writes);
      if r.state.started || r.state.pending != [7] {
        assert Encode(SilentCodec(), writes) == [1] + Flatten(writes);
      }
    }
  }

  lemma SilentAboutSeven()
    ensures Encode(SilentCodec(), [[7]]) == [] && Flatten([[7]]) == [7]
  {
    SilentRun([[7]]);
    RunSnoc(SilentCodec(), [], [7]);
    assert [] + [[7 as byte]] == [[7 as byte]];
  }

  lemma LoudAboutOthers()
    ensures Run(SilentCodec(), []).output == [] && |Run(SilentCodec(), [[1, 2]]).output| == 3
  {
    RunSnoc(SilentCodec(), [], [1, 2]);
    assert [] + [[1 as byte, 2]] == [[1 as byte, 2]];
  }

  /** Why the second condition is needed: under the law alone, Close may drop data that was written. */
  lemma LawAloneDoesNotKeepBytes()
    ensures Lawful(SilentCodec())
    ensures Flatten(Plaintexts(ChunkGroups(SilentCodec(), 2, [[1, 2], [7]]))) != Flatten([[1, 2], [7]])
  {
    hide Plaintexts;
    hide Lawful;
    hide Encode;
    hide Run;
    hide SilentCodec;
    hide ChunkGroups;
    hide Flatten;
    SilentCodecIsLawful();
    SilentAboutSeven();
    LoudAboutOthers();
    NothingWritten(SilentCodec());
    FeedSnoc(SilentCodec(), 2, [], [1, 2]);
    FeedSnoc(SilentCodec(), 2, [[1, 2]], [7]);
    ChunksKeepBytesExactly(SilentCodec(), 2, [[1, 2], [7]]);
    assert [] + [[1 as byte, 2]] == [[1 as byte, 2]];
    assert [[1 as byte, 2]] + [[7 as byte]] == [[1 as byte, 2], [7 as byte]];
  }

  lemma NothingWritten<S(!new)>(codec: Codec<S>)
    requires Run(codec, []).output == []
    ensures Feed(codec, 2, []) == Groups([], []) && |Run(codec, []).output| < 2
  {}

  lemma FeedSnoc<S(!new)>(codec: Codec<S>, chunkSize: int, writes: seq<seq<byte>>, b: seq<byte>)
    ensures Feed(codec, chunkSize, writes + [b]) == WriteStep(codec, chunkSize, Feed(codec, chunkSize, writes), b)
  {
    hide WriteStep;
    assert (writes + [b])[..|writes|] == writes;
  }

  // ---- How many chunks there are ----

  function Outputs<S(!new)>(codec: Codec<S>, groups: seq<seq<seq<byte>>>): (outputs: seq<seq<byte>>)
    ensures |outputs| == |groups|
  {
    seq(|groups|, i requires 0 <= i < |groups| => Encode(codec, groups[i]))
  }

  /** A chunk is sent by Write only after its compressor has put out at least chunkSize bytes. */
  lemma {:induction false} EmittedChunksAreFull<S(!new)>(codec: Codec<S>, chunkSize: int, writes: seq<seq<byte>>)
    ensures forall group :: group in Feed(codec, chunkSize, writes).emitted ==> |Encode(codec, group)| >= chunkSize
  {
    if writes != [] {
      EmittedChunksAreFull(codec, chunkSize, writes[..|writes| - 1]);
    }
  }

  function Front(group: seq<seq<byte>>): seq<seq<byte>>
    requires group != []
  {
    group[..|group| - 1]
  }

  /** And Write starts a new chunk as soon as it has: without its last write no chunk has put out that much. */
  lemma {:induction false} ChunksAreCutInTime<S(!new)>(codec: Codec<S>, chunkSize: int, writes: seq<seq<byte>>)
    ensures var g := Feed(codec, chunkSize, writes);
            forall group :: group in g.emitted + [g.current] && |group| > 1 ==>
              |Run(codec, Front(group)).output| < chunkSize
    decreases |writes|
  {
    hide Run;
    if writes != [] {
      var front, b := writes[..|writes| - 1], writes[|writes| - 1];
      ChunksAreCutInTime(codec, chunkSize, front);
      var before, g := Feed(codec, chunkSize, front), Feed(codec, chunkSize, writes);
      assert Front(before.current + [b]) == before.current;
      forall group | group in g.emitted + [g.current] && |group| > 1
        ensures |Run(codec, Front(group)).output| < chunkSize
      {
        if group != before.current + [b] {
          assert group in before.emitted + [before.current];
        }
      }
    }
  }

  lemma {:induction false} FullPartsAddUp(parts: seq<seq<byte>>, size: nat)
    requires forall i :: 0 <= i < |parts| ==> |parts[i]| >= size
    ensures |parts| * size <= |Flatten(parts)|
    decreases |parts|
  {
    if parts != [] {
      FullPartsAddUp(parts[1..], size);
      OneMorePart(|parts| - 1, size);
    }
  }

  lemma OneMorePart(n: nat, size: nat)
    ensures (n + 1) * size == n * size + size
  {}

  /**
   * There is always a chunk; there is exactly one when nothing was written; and there are at most
   * (compressed output / chunkSize) + 1 of them.
   */
  lemma ChunkCount<S(!new)>(codec: Codec<S>, chunkSize: int, writes: seq<seq<byte>>)
    ensures |ChunkGroups(codec, chunkSize, writes)| >= 1
    ensures writes == [] ==> |ChunkGroups(codec, chunkSize, writes)| == 1
    ensures chunkSize > 0 ==>
              |ChunkGroups(codec, chunkSize, writes)|
              <= |Flatten(Outputs(codec, ChunkGroups(codec, chunkSize, writes)))| / chunkSize + 1
  {
    if chunkSize > 0 {
      var g, groups := Feed(codec, chunkSize, writes), ChunkGroups(codec, chunkSize, writes);
      EmittedChunksAreFull(codec, chunkSize, writes);
      assert g.emitted <= groups;
      FullChunksAddUp(codec, chunkSize, g.emitted, groups);
    }
  }

  lemma FullChunksAddUp<S(!new)>(codec: Codec<S>, size: nat, full: seq<seq<seq<byte>>>, all: seq<seq<seq<byte>>>)
    requires size > 0 && full <= all
    requires forall group :: group in full ==> |Encode(codec, group)| >= size
    ensures |full| <= |Flatten(Outputs(codec, all))| / size
  {
    hide Encode;
    hide Flatten;
    var a, b := Outputs(codec, full), Outputs(codec, all);
    FullPartsAddUp(a, size);
    assert b == a + b[|a|..];
    FlattenConcat(a, b[|a|..]);
    AtMostQuotient(|full|, size, |Flatten(b)|);
  }

  lemma MultiplyMonotone(a: nat, b: nat, size: nat)
    requires a <= b
    ensures a * size <= b * size
  {}

  lemma AtMostQuotient(n: nat, size: nat, total: nat)
    requires size > 0 && n * size <= total
    ensures n <= total / size
  {
    var q := total / size;
    assert total < (q + 1) * size;
    if q < n {
      MultiplyMonotone(q + 1, n, size);
    }
  }
}
