/**
 * The compressor a chunker drives (an io.WriteCloser) and the decompressor that undoes it.
 * A compressor may hand output over at any moment: when it is created, on any write, on Close.
 */
module Compression {
  import opened Bytes

  datatype Stepped<S> = Stepped(state: S, output: seq<byte>)

  datatype Codec<!S(!new)> = Codec(
    start: Stepped<S>,
    write: (S, seq<byte>) -> Stepped<S>,
    close: S -> seq<byte>,
    decode: seq<byte> -> Option<seq<byte>>
  )

  /** The compressor's state and everything it has put out after the given writes. */
  function Run<S(!new)>(codec: Codec<S>, writes: seq<seq<byte>>): Stepped<S> {
    if writes == [] then codec.start
    else
      var before := Run(codec, writes[..|writes| - 1]);
      var step := codec.write(before.state, writes[|writes| - 1]);
      Stepped(step.state, before.output + step.output)
  }

  /** The complete output for the given writes followed by Close. */
  function Encode<S(!new)>(codec: Codec<S>, writes: seq<seq<byte>>): seq<byte> {
    var r := Run(codec, writes);
    r.output + codec.close(r.state)
  }

  /** The one law asked of a compressor: its output after Close decodes to what was written. */
  ghost predicate Lawful<S(!new)>(codec: Codec<S>) {
    forall writes: seq<seq<byte>> {:trigger Encode(codec, writes)} ::
      codec.decode(Encode(codec, writes)) == Some(Flatten(writes))
  }

  /** No output decodes to no data. */
  ghost predicate EmptyDecodesToNothing<S(!new)>(codec: Codec<S>) {
    codec.decode([]) == None || codec.decode([]) == Some([])
  }

  lemma RunSnoc<S(!new)>(codec: Codec<S>, writes: seq<seq<byte>>, b: seq<byte>)
    ensures Run(codec, writes + [b])
         == var before, step := Run(codec, writes), codec.write(Run(codec, writes).state, b);
            Stepped(step.state, before.output + step.output)
  {
    assert (writes + [b])[..|writes|] == writes;
  }

  // ---- Codecs that satisfy the law ----

  /** The pass-through writer the chunker's own tests use. */
  function NopCodec(): Codec<()> {
    Codec(Stepped((), []), (s: (), b: seq<byte>) => Stepped((), b), (s: ()) => [], (d: seq<byte>) => Some(d))
  }

  lemma {:induction false} NopRun(writes: seq<seq<byte>>)
    ensures Run(NopCodec(), writes).output == Flatten(writes)
  {
    if writes != [] {
      var front, last := writes[..|writes| - 1], writes[|writes| - 1];
      NopRun(front);
      assert writes == front + [last];
      FlattenSnoc(front, last);
    }
  }

  lemma NopCodecIsLawful()
    ensures Lawful(NopCodec()) && EmptyDecodesToNothing(NopCodec())
  {
    forall writes: seq<seq<byte>>
      ensures NopCodec().decode(Encode(NopCodec(), writes)) == Some(Flatten(writes))
    {
      NopRun(writes);
      assert Encode(NopCodec(), writes) == Flatten(writes);
    }
  }

  const FRAME_START: byte := 4
  const FRAME_END: byte := 0
  const FRAME_BUFFER := 1024

  /**
   * A framed writer: a header when it is created, data held back until more than FRAME_BUFFER bytes
   * are pending, the rest and an end mark on Close. Even no data at all gives a non-empty frame.
   */
  function FrameCodec(): Codec<seq<byte>> {
    Codec(
      Stepped([], [FRAME_START]),
      (pending: seq<byte>, b: seq<byte>) =>
        if |pending + b| <= FRAME_BUFFER then Stepped(pending + b, []) else Stepped([], pending + b),
      (pending: seq<byte>) => pending + [FRAME_END],
      (d: seq<byte>) =>
        if |d| >= 2 && d[0] == FRAME_START && d[|d| - 1] == FRAME_END then Some(d[1..|d| - 1]) else None
    )
  }

  lemma {:induction false} FrameRun(writes: seq<seq<byte>>)
    ensures var r := Run(FrameCodec(), writes);
            r.output + r.state == [FRAME_START] + Flatten(writes)
  {
    if writes != [] {
      var front, last := writes[..|writes| - 1], writes[|writes| - 1];
      FrameRun(front);
      assert writes == front + [last];
      FlattenSnoc(front, last);
      var before, after := Run(FrameCodec(), front), Run(FrameCodec(), writes);
      assert after.output + after.state == (before.output + before.state) + last;
    }
  }

  lemma FrameCodecIsLawful()
    ensures Lawful(FrameCodec()) && EmptyDecodesToNothing(FrameCodec())
  {
    forall writes: seq<seq<byte>>
      ensures FrameCodec().decode(Encode(FrameCodec(), writes)) == Some(Flatten(writes))
    {
      FrameRun(writes);
      assert Encode(FrameCodec(), writes) == [FRAME_START] + Flatten(writes) + [FRAME_END];
    }
  }
}
