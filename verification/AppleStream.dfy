/**
 * internal/oci/pull/tart/applestream: a reader of block-compressed streams whose blocks use the
 * previous block's data as their LZ4 dictionary.
 */
module AppleStream {
  import opened Bytes
  import opened SparseIO

  const MAX_BYTES_PER_BLOCK := 128 * 1024 * 1024

  const MARKER_COMPRESSED: seq<byte> := [0x62, 0x76, 0x34, 0x31]
  const MARKER_UNCOMPRESSED: seq<byte> := [0x62, 0x76, 0x34, 0x2d]
  const MARKER_EOF: seq<byte> := [0x62, 0x76, 0x34, 0x24]

  /** lz4.UncompressBlockWithDict, and the block compressor it undoes. */
  datatype LZ4 = LZ4(
    compress: (seq<byte>, seq<byte>) -> seq<byte>,
    uncompress: (seq<byte>, nat, seq<byte>) -> Option<seq<byte>>
  )

  ghost predicate Lawful(lz4: LZ4) {
    forall plain: seq<byte>, dict: seq<byte> {:trigger lz4.compress(plain, dict)} ::
      lz4.uncompress(lz4.compress(plain, dict), |plain|, dict) == Some(plain)
  }

  /** A dictionary-dependent instance: a block equal to its dictionary compresses to nothing. */
  function RepeatLZ4(): LZ4 {
    LZ4(
      (plain: seq<byte>, dict: seq<byte>) => if plain == dict then [] else [1] + plain,
      (data: seq<byte>, size: nat, dict: seq<byte>) =>
        var plain := if data == [] then dict else data[1..];
        if |plain| <= size then Some(plain) else None
    )
  }

  lemma RepeatLZ4IsLawful()
    ensures Lawful(RepeatLZ4())
  {
    var lz4 := RepeatLZ4();
    forall plain: seq<byte>, dict: seq<byte>
      ensures lz4.uncompress(lz4.compress(plain, dict), |plain|, dict) == Some(plain)
    {
      assert ([1] + plain)[1..] == plain;
    }
  }

  // ---- One block, as a function of the input and the dictionary ----

  datatype Parsed = Block(plain: seq<byte>, rest: seq<byte>) | EndMarker(rest: seq<byte>) | Bad

  /** The check on a compressed block's sizes is made on their 32-bit sum, which wraps around. */
  predicate SizesAccepted(uncompressedSize: nat, compressedSize: nat) {
    (uncompressedSize + compressedSize) % TWO_TO_THE_32 <= MAX_BYTES_PER_BLOCK
  }

  function NextBlock(lz4: LZ4, input: seq<byte>, dict: seq<byte>): (r: Parsed)
    ensures !r.Bad? ==> |r.rest| + 4 <= |input| && r.rest == input[|input| - |r.rest|..]
  {
    if |input| < 4 then Bad
    else if input[..4] == MARKER_COMPRESSED then
      if |input| < 12 then Bad
      else
        var size, compressedSize := DecodeUint32(input[4..8]), DecodeUint32(input[8..12]);
        if !SizesAccepted(size, compressedSize) || |input| < 12 + compressedSize then Bad
        else
          var plain := lz4.uncompress(input[12..12 + compressedSize], size, dict);
          if plain.None? || |plain.value| != size then Bad else Block(plain.value, input[12 + compressedSize..])
    else if input[..4] == MARKER_UNCOMPRESSED then
      if |input| < 8 then Bad
      else
        var size := DecodeUint32(input[4..8]);
        if size > MAX_BYTES_PER_BLOCK || |input| < 8 + size then Bad
        else Block(input[8..8 + size], input[8 + size..])
    else if input[..4] == MARKER_EOF then EndMarker(input[4..])
    else Bad
  }

  /** All data up to the end marker, or up to the first thing that is not a well-formed block. */
  function DecodeStream(lz4: LZ4, input: seq<byte>, dict: seq<byte>): seq<byte>
    decreases |input|
  {
    match NextBlock(lz4, input, dict)
    case Block(plain, rest) => plain + DecodeStream(lz4, rest, plain)
    case EndMarker(_) => []
    case Bad => []
  }

  // ---- The grammar of streams, over their bytes ----

  /** The input starts with an uncompressed block: "bv4-", its size in four bytes, its data. */
  ghost predicate StartsRaw(input: seq<byte>, size: seq<byte>, plain: seq<byte>, rest: seq<byte>) {
    && input == [0x62, 0x76, 0x34, 0x2d] + size + plain + rest
    && |size| == 4 && DecodeUint32(size) == |plain| && |plain| <= 134217728
  }

  /**
   * The input starts with a compressed block: "bv41", its two sizes in four bytes each, and data that
   * uncompresses to as much as is announced.
   */
  ghost predicate StartsCompressed(lz4: LZ4, dict: seq<byte>, input: seq<byte>, sizes: seq<byte>, data: seq<byte>,
                                   plain: seq<byte>, rest: seq<byte>)
  {
    && input == [0x62, 0x76, 0x34, 0x31] + sizes + data + rest
    && |sizes| == 8 && DecodeUint32(sizes[..4]) == |plain| && DecodeUint32(sizes[4..]) == |data|
    && (|plain| + |data|) % 4294967296 <= 134217728
    && lz4.uncompress(data, |plain|, dict) == Some(plain)
  }

  ghost predicate StartsBlock(lz4: LZ4, dict: seq<byte>, input: seq<byte>, plain: seq<byte>, rest: seq<byte>) {
    || (exists size :: StartsRaw(input, size, plain, rest))
    || (exists sizes, data :: StartsCompressed(lz4, dict, input, sizes, data, plain, rest))
  }

  /** The parser takes exactly what the grammar allows: a truncated, oversized or unknown block is none. */
  lemma NextBlockExact(lz4: LZ4, input: seq<byte>, dict: seq<byte>, plain: seq<byte>, rest: seq<byte>)
    ensures NextBlock(lz4, input, dict) == EndMarker(rest) <==> input == [0x62, 0x76, 0x34, 0x24] + rest
    ensures NextBlock(lz4, input, dict) == Block(plain, rest) <==> StartsBlock(lz4, dict, input, plain, rest)
  {
    hide DecodeUint32;
    EndMarkerExact(lz4, input, dict, rest);
    if size :| StartsRaw(input, size, plain, rest) {
      RawIsTaken(lz4, input, dict, size, plain, rest);
    }
    if sizes, data :| StartsCompressed(lz4, dict, input, sizes, data, plain, rest) {
      CompressedIsTaken(lz4, input, dict, sizes, data, plain, rest);
    }
    if NextBlock(lz4, input, dict) == Block(plain, rest) {
      TakenIsBlock(lz4, input, dict);
    }
  }

  lemma EndMarkerExact(lz4: LZ4, input: seq<byte>, dict: seq<byte>, rest: seq<byte>)
    ensures NextBlock(lz4, input, dict) == EndMarker(rest) <==> input == [0x62, 0x76, 0x34, 0x24] + rest
  {
    hide DecodeUint32;
    if input == [0x62, 0x76, 0x34, 0x24] + rest {
      assert input[..4] == [0x62, 0x76, 0x34, 0x24] && input[3] == 0x24;
      assert MARKER_COMPRESSED[3] != 0x24 && MARKER_UNCOMPRESSED[3] != 0x24;
    }
  }

  lemma RawIsTaken(lz4: LZ4, input: seq<byte>, dict: seq<byte>, size: seq<byte>, plain: seq<byte>, rest: seq<byte>)
    requires StartsRaw(input, size, plain, rest)
    ensures NextBlock(lz4, input, dict) == Block(plain, rest)
  {
    hide DecodeUint32;
    assert input[..4] == [0x62, 0x76, 0x34, 0x2d] && input[3] == 0x2d && MARKER_COMPRESSED[3] != 0x2d;
    assert input[4..8] == size && input[8..8 + |plain|] == plain && input[8 + |plain|..] == rest;
  }

  lemma CompressedIsTaken(lz4: LZ4, input: seq<byte>, dict: seq<byte>, sizes: seq<byte>, data: seq<byte>,
                          plain: seq<byte>, rest: seq<byte>)
    requires StartsCompressed(lz4, dict, input, sizes, data, plain, rest)
    ensures NextBlock(lz4, input, dict) == Block(plain, rest)
  {
    hide DecodeUint32;
    assert input[..4] == [0x62, 0x76, 0x34, 0x31];
    assert input[4..8] == sizes[..4] && input[8..12] == sizes[4..];
    assert input[12..12 + |data|] == data && input[12 + |data|..] == rest;
  }

  lemma TakenIsBlock(lz4: LZ4, input: seq<byte>, dict: seq<byte>)
    requires NextBlock(lz4, input, dict).Block?
    ensures var b := NextBlock(lz4, input, dict); StartsBlock(lz4, dict, input, b.plain, b.rest)
  {
    hide DecodeUint32;
    var b := NextBlock(lz4, input, dict);
    var n := |input| - |b.rest|;
    if input[..4] == MARKER_COMPRESSED {
      assert input[4..12][..4] == input[4..8] && input[4..12][4..] == input[8..12];
      assert input == input[..4] + input[4..12] + input[12..n] + b.rest;
      assert StartsCompressed(lz4, dict, input, input[4..12], input[12..n], b.plain, b.rest);
    } else {
      assert input == input[..4] + input[4..8] + input[8..n] + b.rest;
      assert StartsRaw(input, input[4..8], b.plain, b.rest);
    }
  }

  // ---- The reader ----

  /** The stream's bytes not consumed yet, behind io.ReadFull. */
  class Source {
    var data: seq<byte>

    constructor (data: seq<byte>)
      ensures this.data == data
    {
      this.data := data;
    }

    method ReadFull(n: nat) returns (r: Option<seq<byte>>)
      modifies this
      ensures n <= |old(data)| ==> r == Some(old(data)[..n]) && data == old(data)[n..]
      ensures n > |old(data)| ==> r == None && data == []
    {
      if n <= |data| {
        r, data := Some(data[..n]), data[n..];
      } else {
        r, data := None, [];
      }
    }
  }

  /** A reader's state: what is left of the stream, whether the end marker was seen, dictionary and buffer. */
  datatype State = State(data: seq<byte>, eof: bool, dict: seq<byte>, buffer: seq<byte>)

  datatype Step = Step(state: State, output: seq<byte>, err: ReadError)

  /** bytes.Buffer.Read: an empty buffer reports EOF, unless nothing is asked for. */
  function TakeBuffered(s: State, k: nat): Step {
    if s.buffer == [] then Step(s, [], if k == 0 then NoError else EOF)
    else
      var n := if k <= |s.buffer| then k else |s.buffer|;
      Step(s.(buffer := s.buffer[n..]), s.buffer[..n], NoError)
  }

  function ReadStep(lz4: LZ4, s: State, k: nat): Step {
    if |s.buffer| >= k || s.eof then TakeBuffered(s, k)
    else
      match NextBlock(lz4, s.data, s.dict)
      case Bad => Step(s, [], Failure)
      case Block(plain, rest) => TakeBuffered(State(rest, false, plain, s.buffer + plain), k)
      case EndMarker(rest) => TakeBuffered(s.(data := rest, eof := true), k)
  }

  lemma CutOff(input: seq<byte>, i: nat, n: nat)
    requires i + n <= |input|
    ensures input[i..][..n] == input[i..i + n] && input[i..][n..] == input[i + n..]
  {}

  class Reader {
    const lz4: LZ4
    const underlyingReader: Source
    var underlyingReaderEOF: bool
    var lz4Dict: seq<byte>
    var uncompressed: seq<byte>

    function Current(): State
      reads this, underlyingReader
    {
      State(underlyingReader.data, underlyingReaderEOF, lz4Dict, uncompressed)
    }

    constructor (lz4: LZ4, r: Source)
      ensures Current() == State(r.data, false, [], [])
      ensures this.lz4 == lz4 && underlyingReader == r
    {
      this.lz4, underlyingReader := lz4, r;
      underlyingReaderEOF, lz4Dict, uncompressed := false, [], [];
    }

    method ReadBuffered(p: array<byte>) returns (n: nat, err: ReadError)
      modifies this`uncompressed, p
      ensures var step := TakeBuffered(old(Current()), p.Length);
              Current() == step.state && n == |step.output| <= p.Length && err == step.err
              && p[..n] == step.output
    {
      if uncompressed == [] {
        return 0, if p.Length == 0 then NoError else EOF;
      }
      n := if p.Length <= |uncompressed| then p.Length else |uncompressed|;
      forall i | 0 <= i < n {
        p[i] := uncompressed[i];
      }
      uncompressed := uncompressed[n..];
      err := NoError;
    }

    /** On failure neither the dictionary nor the buffer has been touched. */
    method ProcessNextBlock() returns (ok: bool)
      requires !underlyingReaderEOF
      modifies this, underlyingReader
      ensures ok <==> !NextBlock(lz4, old(underlyingReader.data), old(lz4Dict)).Bad?
      ensures ok ==>
                match NextBlock(lz4, old(underlyingReader.data), old(lz4Dict))
                case Bad => true
                case Block(plain, rest) => Current() == State(rest, false, plain, old(uncompressed) + plain)
                case EndMarker(rest) => Current() == old(Current()).(data := rest, eof := true)
      ensures !ok ==> Current() == old(Current()).(data := underlyingReader.data)
    {
      var marker := underlyingReader.ReadFull(4);
      if marker.None? {
        return false;
      }
      if marker.value == MARKER_COMPRESSED {
        ok := ProcessCompressed(old(underlyingReader.data));
      } else if marker.value == MARKER_UNCOMPRESSED {
        ok := ProcessUncompressed(old(underlyingReader.data));
      } else if marker.value == MARKER_EOF {
        underlyingReaderEOF := true;
        ok := true;
      } else {
        ok := false;
      }
    }

    method ProcessCompressed(ghost input: seq<byte>) returns (ok: bool)
      requires |input| >= 4 && input[..4] == MARKER_COMPRESSED && underlyingReader.data == input[4..]
      modifies this, underlyingReader
      ensures ok <==> NextBlock(lz4, input, old(lz4Dict)).Block?
      ensures ok ==> var b := NextBlock(lz4, input, old(lz4Dict));
                     Current() == State(b.rest, old(underlyingReaderEOF), b.plain, old(uncompressed) + b.plain)
      ensures !ok ==> Current() == old(Current()).(data := underlyingReader.data)
    {
      hide DecodeUint32;
      var header := underlyingReader.ReadFull(8);
      if header.None? {
        return false;
      }
      CutOff(input, 4, 8);
      assert header.value == input[4..12];
      assert header.value[..4] == input[4..8] && header.value[4..] == input[8..12];
      var uncompressedSize := DecodeUint32(header.value[..4]);
      var compressedSize := DecodeUint32(header.value[4..]);
      if (uncompressedSize + compressedSize) % TWO_TO_THE_32 > MAX_BYTES_PER_BLOCK {
        return false;
      }
      var compressedBytes := underlyingReader.ReadFull(compressedSize);
      if compressedBytes.None? {
        return false;
      }
      CutOff(input, 12, compressedSize);
      var uncompressedBytes := lz4.uncompress(compressedBytes.value, uncompressedSize, lz4Dict);
      if uncompressedBytes.None? || uncompressedSize != |uncompressedBytes.value| {
        return false;
      }
      lz4Dict := uncompressedBytes.value;
      uncompressed := uncompressed + uncompressedBytes.value;
      return true;
    }

    method ProcessUncompressed(ghost input: seq<byte>) returns (ok: bool)
      requires |input| >= 4 && input[..4] == MARKER_UNCOMPRESSED && underlyingReader.data == input[4..]
      modifies this, underlyingReader
      ensures ok <==> NextBlock(lz4, input, old(lz4Dict)).Block?
      ensures ok ==> var b := NextBlock(lz4, input, old(lz4Dict));
                     Current() == State(b.rest, old(underlyingReaderEOF), b.plain, old(uncompressed) + b.plain)
      ensures !ok ==> Current() == old(Current()).(data := underlyingReader.data)
    {
      hide DecodeUint32;
      var header := underlyingReader.ReadFull(4);
      if header.None? {
        return false;
      }
      CutOff(input, 4, 4);
      var uncompressedSize := DecodeUint32(header.value);
      if uncompressedSize > MAX_BYTES_PER_BLOCK {
        return false;
      }
      var uncompressedBytes := underlyingReader.ReadFull(uncompressedSize);
      if uncompressedBytes.None? {
        return false;
      }
      CutOff(input, 8, uncompressedSize);
      lz4Dict := uncompressedBytes.value;
      uncompressed := uncompressed + uncompressedBytes.value;
      return true;
    }

    method Read(p: array<byte>) returns (n: nat, err: ReadError)
      modifies this, underlyingReader, p
      ensures var step := ReadStep(lz4, old(Current()), p.Length);
              && n == |step.output| <= p.Length && err == step.err && p[..n] == step.output
              && Current() == if err == Failure then step.state.(data := underlyingReader.data) else step.state
    {
      // No next block as long as the buffer can serve the caller.
      if |uncompressed| >= p.Length {
        n, err := ReadBuffered(p);
        return;
      }
      if !underlyingReaderEOF {
        var ok := ProcessNextBlock();
        if !ok {
          return 0, Failure;
        }
      }
      n, err := ReadBuffered(p);
    }
  }

  // ---- Whole runs: any sequence of reads ----

  datatype Outcome = Outcome(delivered: seq<byte>, state: State, err: ReadError)

  /** Reads of the given sizes until the first one that reports an error or EOF. */
  function ReadRun(lz4: LZ4, s: State, sizes: seq<nat>): Outcome
    decreases |sizes|
  {
    if sizes == [] then Outcome([], s, NoError)
    else
      var step := ReadStep(lz4, s, sizes[0]);
      if step.err != NoError then Outcome(step.output, step.state, step.err)
      else
        var rest := ReadRun(lz4, step.state, sizes[1..]);
        rest.(delivered := step.output + rest.delivered)
  }

  /** What the reader still has to hand over: its buffer and the decoding of the rest of the stream. */
  function Upcoming(lz4: LZ4, s: State): seq<byte> {
    s.buffer + if s.eof then [] else DecodeStream(lz4, s.data, s.dict)
  }

  lemma TakeKeepsData(s: State, k: nat)
    ensures var step := TakeBuffered(s, k); step.output + step.state.buffer == s.buffer
  {}

  lemma StepKeepsData(lz4: LZ4, s: State, k: nat)
    ensures var step := ReadStep(lz4, s, k);
            step.output + (if step.err == Failure then step.state.buffer else Upcoming(lz4, step.state))
            == Upcoming(lz4, s)
  {
    hide TakeBuffered;
    hide NextBlock;
    if |s.buffer| >= k || s.eof {
      TakeKeepsUpcoming(lz4, s, k);
    } else {
      match NextBlock(lz4, s.data, s.dict)
      case Bad =>
      case Block(plain, rest) =>
        TakeKeepsUpcoming(lz4, State(rest, false, plain, s.buffer + plain), k);
        Associative(s.buffer, plain, DecodeStream(lz4, rest, plain));
      case EndMarker(rest) =>
        TakeKeepsUpcoming(lz4, s.(data := rest, eof := true), k);
    }
  }

  lemma Associative(a: seq<byte>, b: seq<byte>, c: seq<byte>)
    ensures (a + b) + c == a + (b + c)
  {}

  lemma TakeKeepsUpcoming(lz4: LZ4, s: State, k: nat)
    ensures var step := TakeBuffered(s, k);
            step.err != Failure && step.output + Upcoming(lz4, step.state) == Upcoming(lz4, s)
  {
    hide TakeBuffered;
    TakeKeepsData(s, k);
    TakeOnlyTakes(s, k);
    var step := TakeBuffered(s, k);
    Associative(step.output, step.state.buffer, if s.eof then [] else DecodeStream(lz4, s.data, s.dict));
  }

  lemma TakeOnlyTakes(s: State, k: nat)
    ensures TakeBuffered(s, k).state == s.(buffer := TakeBuffered(s, k).state.buffer)
    ensures TakeBuffered(s, k).err != Failure
  {}

  /**
   * At every point of any run, what has been delivered followed by what is still to come is the
   * decoding of the stream; after a failure, what was delivered followed by the buffer is.
   */
  lemma {:induction false} RunKeepsData(lz4: LZ4, s: State, sizes: seq<nat>)
    ensures var r := ReadRun(lz4, s, sizes);
            r.delivered + (if r.err == Failure then r.state.buffer else Upcoming(lz4, r.state)) == Upcoming(lz4, s)
    decreases |sizes|
  {
    hide Upcoming;
    hide ReadStep;
    if sizes == [] {
      assert [] + Upcoming(lz4, s) == Upcoming(lz4, s);
    } else {
      StepKeepsData(lz4, s, sizes[0]);
      var step := ReadStep(lz4, s, sizes[0]);
      if step.err == NoError {
        var rest := ReadRun(lz4, step.state, sizes[1..]);
        RunKeepsData(lz4, step.state, sizes[1..]);
        var last := if rest.err == Failure then rest.state.buffer else Upcoming(lz4, rest.state);
        assert (step.output + rest.delivered) + last == step.output + (rest.delivered + last);
      }
    }
  }

  /** Whatever a reader delivers is a prefix of the stream's decoding, even when it ends with an error. */
  lemma DeliveredIsPrefix(lz4: LZ4, data: seq<byte>, sizes: seq<nat>)
    ensures ReadRun(lz4, State(data, false, [], []), sizes).delivered <= DecodeStream(lz4, data, [])
  {
    RunKeepsData(lz4, State(data, false, [], []), sizes);
    assert [] + DecodeStream(lz4, data, []) == DecodeStream(lz4, data, []);
  }

  // ---- Failures, the end, and how much is buffered ----

  /** The input starts with a block or the end marker. */
  ghost predicate StartsWell(lz4: LZ4, dict: seq<byte>, input: seq<byte>) {
    || (exists plain, rest :: StartsBlock(lz4, dict, input, plain, rest))
    || (exists rest :: input == [0x62, 0x76, 0x34, 0x24] + rest)
  }

  /**
   * A read fails exactly when the buffer does not suffice, the end has not been reached, and the input
   * goes on with neither a well-formed block nor the end marker.
   */
  lemma FailsExactly(lz4: LZ4, s: State, k: nat)
    ensures ReadStep(lz4, s, k).err == Failure <==>
              |s.buffer| < k && !s.eof && !StartsWell(lz4, s.dict, s.data)
    ensures ReadStep(lz4, s, k).err == Failure ==> ReadStep(lz4, s, k).output == [] && ReadStep(lz4, s, k).state == s
  {
    hide NextBlock;
    hide StartsBlock;
    TakeOnlyTakes(s, k);
    if !s.eof {
      match NextBlock(lz4, s.data, s.dict)
      case Block(plain, rest) =>
        NextBlockExact(lz4, s.data, s.dict, plain, rest);
        TakeOnlyTakes(State(rest, false, plain, s.buffer + plain), k);
      case EndMarker(rest) =>
        NextBlockExact(lz4, s.data, s.dict, [], rest);
        TakeOnlyTakes(s.(data := rest, eof := true), k);
      case Bad =>
        if plain, rest :| StartsBlock(lz4, s.dict, s.data, plain, rest) {
          NextBlockExact(lz4, s.data, s.dict, plain, rest);
        }
        if rest :| s.data == [0x62, 0x76, 0x34, 0x24] + rest {
          NextBlockExact(lz4, s.data, s.dict, [], rest);
        }
    }
  }

  /** A read that the buffer can serve, and one that asks for nothing, leaves the stream alone and does not end. */
  lemma BufferServes(lz4: LZ4, s: State, k: nat)
    requires k <= |s.buffer|
    ensures ReadStep(lz4, s, k) == Step(s.(buffer := s.buffer[k..]), s.buffer[..k], NoError)
  {}

  /** Whatever a read has to offer is returned up to the size asked for. */
  lemma ReadsAreFull(lz4: LZ4, s: State, k: nat)
    requires ReadStep(lz4, s, k).err == NoError
    ensures |ReadStep(lz4, s, k).output| == k || ReadStep(lz4, s, k).state.buffer == []
  {
    hide NextBlock;
  }

  /** What the stream has lost since it was the given input. */
  ghost predicate IsTail(rest: seq<byte>, input: seq<byte>) {
    |rest| <= |input| && rest == input[|input| - |rest|..]
  }

  /** Only what the end marker, as its last four bytes, ends is taken for ended. */
  ghost predicate EndedByMarker(input: seq<byte>, s: State) {
    && IsTail(s.data, input)
    && (s.eof ==>
         && |s.data| + 4 <= |input|
         && input[|input| - |s.data| - 4..|input| - |s.data|] == [0x62, 0x76, 0x34, 0x24])
  }

  lemma StepKeepsEnd(lz4: LZ4, input: seq<byte>, s: State, k: nat)
    requires EndedByMarker(input, s)
    ensures EndedByMarker(input, ReadStep(lz4, s, k).state)
  {
    hide NextBlock;
    TakeOnlyTakes(s, k);
    if |s.buffer| < k && !s.eof {
      match NextBlock(lz4, s.data, s.dict)
      case Bad =>
      case Block(plain, rest) =>
        TakeOnlyTakes(State(rest, false, plain, s.buffer + plain), k);
      case EndMarker(rest) =>
        TakeOnlyTakes(s.(data := rest, eof := true), k);
        EndMarkerExact(lz4, s.data, s.dict, rest);
        assert s.data[..4] == [0x62, 0x76, 0x34, 0x24];
    }
  }

  lemma {:induction false} RunKeepsEnd(lz4: LZ4, input: seq<byte>, s: State, sizes: seq<nat>)
    requires EndedByMarker(input, s)
    ensures EndedByMarker(input, ReadRun(lz4, s, sizes).state)
    decreases |sizes|
  {
    hide ReadStep;
    hide EndedByMarker;
    if sizes != [] {
      StepKeepsEnd(lz4, input, s, sizes[0]);
      if ReadStep(lz4, s, sizes[0]).err == NoError {
        RunKeepsEnd(lz4, input, ReadStep(lz4, s, sizes[0]).state, sizes[1..]);
      }
    }
  }

  /** On no stream and for no sizes is the end reported as reached before the end marker has been read. */
  lemma EndIsMarked(lz4: LZ4, data: seq<byte>, sizes: seq<nat>)
    ensures EndedByMarker(data, ReadRun(lz4, State(data, false, [], []), sizes).state)
  {
    RunKeepsEnd(lz4, data, State(data, false, [], []), sizes);
  }

  lemma StepKeepsBound(lz4: LZ4, s: State, k: nat)
    requires |s.buffer| < TWO_TO_THE_32
    ensures |ReadStep(lz4, s, k).state.buffer| < TWO_TO_THE_32
  {
    hide NextBlock;
    if |s.buffer| < k && !s.eof && NextBlock(lz4, s.data, s.dict).Block? {
      BlockFits(lz4, s.data, s.dict);
    }
  }

  lemma BlockFits(lz4: LZ4, input: seq<byte>, dict: seq<byte>)
    requires NextBlock(lz4, input, dict).Block?
    ensures |NextBlock(lz4, input, dict).plain| < TWO_TO_THE_32
  {
    hide DecodeUint32;
  }

  /** However much is read, never more than one block's data is left in the buffer. */
  lemma {:induction false} BufferIsBounded(lz4: LZ4, s: State, sizes: seq<nat>)
    requires |s.buffer| < TWO_TO_THE_32
    ensures |ReadRun(lz4, s, sizes).state.buffer| < TWO_TO_THE_32
    decreases |sizes|
  {
    hide ReadStep;
    if sizes != [] {
      StepKeepsBound(lz4, s, sizes[0]);
      if ReadStep(lz4, s, sizes[0]).err == NoError {
        BufferIsBounded(lz4, ReadStep(lz4, s, sizes[0]).state, sizes[1..]);
      }
    }
  }

  // ---- Reading everything terminates ----

  /** A read that asks for something uses up input or buffer, unless it reports an error or EOF. */
  lemma StepMakesProgress(lz4: LZ4, s: State, k: nat)
    requires k > 0
    ensures var step := ReadStep(lz4, s, k);
            step.err == NoError ==>
              || |step.state.data| < |s.data|
              || (step.state.data == s.data && |step.state.buffer| < |s.buffer|)
  {}

  lemma {:induction false} ReadRunSnoc(lz4: LZ4, s: State, sizes: seq<nat>, k: nat)
    requires ReadRun(lz4, s, sizes).err == NoError
    ensures var r, step := ReadRun(lz4, s, sizes), ReadStep(lz4, ReadRun(lz4, s, sizes).state, k);
            ReadRun(lz4, s, sizes + [k]) == Outcome(r.delivered + step.output, step.state, step.err)
    decreases |sizes|
  {
    hide ReadStep;
    if sizes == [] {
      assert sizes + [k] == [k] && [k][1..] == [];
    } else {
      var step := ReadStep(lz4, s, sizes[0]);
      assert (sizes + [k])[1..] == sizes[1..] + [k];
      ReadRunSnoc(lz4, step.state, sizes[1..], k);
      var rest := ReadRun(lz4, step.state, sizes[1..]);
      Associative(step.output, rest.delivered, ReadStep(lz4, rest.state, k).output);
    }
  }

  /** The stream's data is in the reader's hands: an encoded stream of non-empty blocks, not read yet. */
  ghost predicate IsEncodedStream(lz4: LZ4, s: State, blocks: seq<PlainBlock>, tail: seq<byte>) {
    && Encodable(lz4, blocks, []) && s == Opened(lz4, blocks, tail)
    && forall b :: b in blocks ==> b.plain != []
  }

  /**
   * io.ReadAll: reads of any positive sizes until the reader reports EOF or fails. An encoded stream of
   * non-empty blocks is returned in full, and nothing behind its end marker is consumed.
   */
  method ReadAll(reader: Reader, sizeOf: nat -> nat) returns (all: seq<byte>, ok: bool)
    requires forall i :: sizeOf(i) > 0
    modifies reader, reader.underlyingReader
    ensures ok ==> all + Upcoming(reader.lz4, reader.Current()) == Upcoming(reader.lz4, old(reader.Current()))
    ensures all <= Upcoming(reader.lz4, old(reader.Current()))
    ensures ok ==> reader.uncompressed == []
    ensures forall blocks, tail |
              Lawful(reader.lz4) && IsEncodedStream(reader.lz4, old(reader.Current()), blocks, tail) ::
                ok && all == Plain(blocks) && reader.underlyingReader.data == tail
  {
    hide NextBlock;
    hide DecodeStream;
    hide ReadStep;
    hide ReadRun;
    hide Upcoming;
    hide IsEncodedStream;
    all := [];
    ghost var start := reader.Current();
    ghost var sizes: seq<nat> := [];
    var i := 0;
    NoReads(reader.lz4, start);
    while true
      invariant ReadRun(reader.lz4, start, sizes) == Outcome(all, reader.Current(), NoError)
      invariant AllPositive(sizes)
      decreases |reader.underlyingReader.data|, |reader.uncompressed|
    {
      var p := new byte[sizeOf(i)](_ => 0);
      ghost var s := reader.Current();
      StepMakesProgress(reader.lz4, s, p.Length);
      ReadEnds(reader.lz4, s, p.Length);
      ReadRunSnoc(reader.lz4, start, sizes, p.Length);
      sizes := sizes + [p.Length];
      RunKeepsData(reader.lz4, start, sizes);
      var n, err := reader.Read(p);
      all := all + p[..n];
      if err != NoError {
        EncodedInFull(reader.lz4, start, sizes);
        return all, err == EOF;
      }
      i := i + 1;
    }
  }

  lemma NoReads(lz4: LZ4, s: State)
    ensures ReadRun(lz4, s, []) == Outcome([], s, NoError)
  {}

  lemma EncodedInFull(lz4: LZ4, s: State, sizes: seq<nat>)
    requires AllPositive(sizes) && ReadRun(lz4, s, sizes).err != NoError
    ensures forall blocks, tail | Lawful(lz4) && IsEncodedStream(lz4, s, blocks, tail) ::
              var r := ReadRun(lz4, s, sizes);
              r.err == EOF && r.delivered == Plain(blocks) && r.state.data == tail
  {
    forall blocks, tail | Lawful(lz4) && IsEncodedStream(lz4, s, blocks, tail)
      ensures var r := ReadRun(lz4, s, sizes);
              r.err == EOF && r.delivered == Plain(blocks) && r.state.data == tail
    {
      StreamRoundTrip(lz4, blocks, tail, sizes);
    }
  }

  /** EOF is reported with an empty buffer and without data. */
  lemma ReadEnds(lz4: LZ4, s: State, k: nat)
    ensures var step := ReadStep(lz4, s, k);
            && (step.err == EOF ==> step.state.buffer == [] && step.output == [])
            && (step.err == Failure ==> step.output == [])
  {}

  // ---- Streams made of blocks ----

  datatype PlainBlock = PlainBlock(plain: seq<byte>, compressed: bool)

  function EncodeBlock(lz4: LZ4, b: PlainBlock, dict: seq<byte>): seq<byte>
    requires EncodableBlock(lz4, b, dict)
  {
    if b.compressed then
      var data := lz4.compress(b.plain, dict);
      MARKER_COMPRESSED + EncodeUint32(|b.plain|) + EncodeUint32(|data|) + data
    else
      MARKER_UNCOMPRESSED + EncodeUint32(|b.plain|) + b.plain
  }

  /** The block's sizes fit their fields and pass the reader's limit. */
  predicate EncodableBlock(lz4: LZ4, b: PlainBlock, dict: seq<byte>) {
    if b.compressed then
      && |b.plain| < TWO_TO_THE_32 && |lz4.compress(b.plain, dict)| < TWO_TO_THE_32
      && SizesAccepted(|b.plain|, |lz4.compress(b.plain, dict)|)
    else |b.plain| <= MAX_BYTES_PER_BLOCK
  }

  predicate Encodable(lz4: LZ4, blocks: seq<PlainBlock>, dict: seq<byte>)
    decreases |blocks|
  {
    blocks != [] ==> EncodableBlock(lz4, blocks[0], dict) && Encodable(lz4, blocks[1..], blocks[0].plain)
  }

  function EncodeStream(lz4: LZ4, blocks: seq<PlainBlock>, dict: seq<byte>): seq<byte>
    requires Encodable(lz4, blocks, dict)
    decreases |blocks|
  {
    if blocks == [] then MARKER_EOF
    else EncodeBlock(lz4, blocks[0], dict) + EncodeStream(lz4, blocks[1..], blocks[0].plain)
  }

  function Plain(blocks: seq<PlainBlock>): seq<byte>
    decreases |blocks|
  {
    if blocks == [] then [] else blocks[0].plain + Plain(blocks[1..])
  }

  /** The parser takes exactly one encoded block off the front of the input. */
  lemma NextBlockOfEncoded(lz4: LZ4, b: PlainBlock, dict: seq<byte>, rest: seq<byte>)
    requires Lawful(lz4) && EncodableBlock(lz4, b, dict)
    ensures NextBlock(lz4, EncodeBlock(lz4, b, dict) + rest, dict) == Block(b.plain, rest)
  {
    hide EncodeUint32;
    hide DecodeUint32;
    var input := EncodeBlock(lz4, b, dict) + rest;
    Uint32RoundTrip(|b.plain|);
    if b.compressed {
      var data := lz4.compress(b.plain, dict);
      Uint32RoundTrip(|data|);
      assert input[..4] == MARKER_COMPRESSED;
      assert input[4..8] == EncodeUint32(|b.plain|) && input[8..12] == EncodeUint32(|data|);
      assert input[12..12 + |data|] == data && input[12 + |data|..] == rest;
    } else {
      assert input[..4] == MARKER_UNCOMPRESSED;
      assert input[4..8] == EncodeUint32(|b.plain|);
      assert input[8..8 + |b.plain|] == b.plain && input[8 + |b.plain|..] == rest;
    }
  }

  /** The reader is inside an encoded stream: `blocks` are still ahead, `tail` follows the end marker. */
  ghost predicate At(lz4: LZ4, s: State, blocks: seq<PlainBlock>, tail: seq<byte>) {
    if s.eof then blocks == [] && s.data == tail
    else Encodable(lz4, blocks, s.dict) && s.data == EncodeStream(lz4, blocks, s.dict) + tail
  }

  lemma NextAt(lz4: LZ4, s: State, blocks: seq<PlainBlock>, tail: seq<byte>)
    requires Lawful(lz4) && At(lz4, s, blocks, tail) && !s.eof
    ensures blocks == [] ==> NextBlock(lz4, s.data, s.dict) == EndMarker(tail)
    ensures blocks != [] ==>
              && Encodable(lz4, blocks[1..], blocks[0].plain)
              && NextBlock(lz4, s.data, s.dict)
                 == Block(blocks[0].plain, EncodeStream(lz4, blocks[1..], blocks[0].plain) + tail)
  {
    hide EncodeBlock;
    if blocks == [] {
      assert s.data[..4] == MARKER_EOF && s.data[4..] == tail;
    } else {
      hide NextBlock;
      var rest := EncodeStream(lz4, blocks[1..], blocks[0].plain) + tail;
      assert s.data == EncodeBlock(lz4, blocks[0], s.dict) + rest;
      NextBlockOfEncoded(lz4, blocks[0], s.dict, rest);
    }
  }

  /** What one read does inside an encoded stream: it never fails and takes at most one block. */
  lemma StepAt(lz4: LZ4, s: State, blocks: seq<PlainBlock>, tail: seq<byte>, k: nat) returns (ahead: seq<PlainBlock>)
    requires Lawful(lz4) && At(lz4, s, blocks, tail)
    ensures ReadStep(lz4, s, k).err != Failure
    ensures At(lz4, ReadStep(lz4, s, k).state, ahead, tail)
    ensures ahead == blocks || (blocks != [] && ahead == blocks[1..])
    ensures ReadStep(lz4, s, k).output + ReadStep(lz4, s, k).state.buffer + Plain(ahead) == s.buffer + Plain(blocks)
    ensures k > 0 && ReadStep(lz4, s, k).err == EOF ==>
              ahead == [] || (blocks != [] && ahead == blocks[1..] && blocks[0].plain == [])
  {
    hide NextBlock;
    hide EncodeStream;
    hide Encodable;
    TakeKeepsData(s, k);
    if |s.buffer| >= k || s.eof {
      ahead := blocks;
    } else {
      NextAt(lz4, s, blocks, tail);
      ahead := if blocks == [] then [] else blocks[1..];
      if blocks != [] {
        var plain := blocks[0].plain;
        TakeKeepsData(State(NextBlock(lz4, s.data, s.dict).rest, false, plain, s.buffer + plain), k);
        assert s.buffer + plain + Plain(ahead) == s.buffer + (plain + Plain(ahead));
      } else {
        TakeKeepsData(s.(data := NextBlock(lz4, s.data, s.dict).rest, eof := true), k);
      }
    }
  }

  /** Once a block is empty, so are all that follow it. */
  predicate NoDataAfterEmpty(blocks: seq<PlainBlock>) {
    forall i, j :: 0 <= i < j < |blocks| && blocks[i].plain == [] ==> blocks[j].plain == []
  }

  lemma {:induction false} AllEmpty(blocks: seq<PlainBlock>)
    requires forall i :: 0 <= i < |blocks| ==> blocks[i].plain == []
    ensures Plain(blocks) == []
    decreases |blocks|
  {
    if blocks != [] {
      AllEmpty(blocks[1..]);
    }
  }

  predicate AllPositive(sizes: seq<nat>) {
    forall i :: 0 <= i < |sizes| ==> sizes[i] > 0
  }

  /** Where a run gets to inside an encoded stream: behind the first n blocks. */
  lemma {:induction false} RunAt(lz4: LZ4, s: State, blocks: seq<PlainBlock>, tail: seq<byte>, sizes: seq<nat>)
    returns (n: nat)
    requires Lawful(lz4) && At(lz4, s, blocks, tail) && AllPositive(sizes)
    ensures n <= |blocks|
    ensures var r := ReadRun(lz4, s, sizes);
            && r.err != Failure
            && At(lz4, r.state, blocks[n..], tail)
            && r.delivered + r.state.buffer + Plain(blocks[n..]) == s.buffer + Plain(blocks)
            && (r.err == EOF ==>
                 r.state.buffer == [] && (n == |blocks| || (n > 0 && blocks[n - 1].plain == [])))
    decreases |sizes|
  {
    hide ReadStep;
    hide At;
    hide Plain;
    if sizes == [] {
      n := 0;
      assert blocks[0..] == blocks;
    } else {
      var step := ReadStep(lz4, s, sizes[0]);
      ReadEnds(lz4, s, sizes[0]);
      var ahead := StepAt(lz4, s, blocks, tail, sizes[0]);
      var taken := if ahead == blocks then 0 else 1;
      assert ahead == blocks[taken..];
      if step.err == NoError {
        var m := RunAt(lz4, step.state, ahead, tail, sizes[1..]);
        n := taken + m;
        assert ahead[m..] == blocks[n..];
        var rest := ReadRun(lz4, step.state, sizes[1..]);
        RegroupRun(step.output, rest.delivered, rest.state.buffer, Plain(ahead[m..]), step.state.buffer, Plain(ahead));
      } else {
        n := taken;
      }
    }
  }

  lemma RegroupRun(output: seq<byte>, delivered: seq<byte>, buffer: seq<byte>, later: seq<byte>,
                   buffered: seq<byte>, ahead: seq<byte>)
    requires delivered + buffer + later == buffered + ahead
    ensures (output + delivered) + buffer + later == output + buffered + ahead
  {
    assert (output + delivered) + buffer + later == output + (delivered + buffer + later);
    assert output + (buffered + ahead) == output + buffered + ahead;
  }

  lemma TailIsLeft(lz4: LZ4, s: State, blocks: seq<PlainBlock>, tail: seq<byte>)
    requires At(lz4, s, blocks, tail)
    ensures |s.data| >= |tail| && s.data[|s.data| - |tail|..] == tail
  {
    hide EncodeStream;
    hide Encodable;
  }

  /** A run never consumes what follows the end marker, and EOF means that everything has been delivered. */
  lemma RunDeliversAll(lz4: LZ4, s: State, blocks: seq<PlainBlock>, tail: seq<byte>, sizes: seq<nat>)
    requires Lawful(lz4) && At(lz4, s, blocks, tail) && AllPositive(sizes)
    ensures var r := ReadRun(lz4, s, sizes);
            && r.err != Failure
            && |r.state.data| >= |tail| && r.state.data[|r.state.data| - |tail|..] == tail
            && (r.err == EOF && NoDataAfterEmpty(blocks) ==> r.delivered == s.buffer + Plain(blocks))
  {
    hide ReadRun;
    hide At;
    var n := RunAt(lz4, s, blocks, tail, sizes);
    var r := ReadRun(lz4, s, sizes);
    TailIsLeft(lz4, r.state, blocks[n..], tail);
    if r.err == EOF && NoDataAfterEmpty(blocks) {
      AllEmpty(blocks[n..]);
      assert r.delivered + [] + [] == r.delivered;
    }
  }

  /** When every block has data, EOF means that the end marker has been read. */
  lemma {:induction false} EOFAtEnd(lz4: LZ4, s: State, blocks: seq<PlainBlock>, tail: seq<byte>, sizes: seq<nat>)
    requires Lawful(lz4) && At(lz4, s, blocks, tail) && AllPositive(sizes)
    requires forall b :: b in blocks ==> b.plain != []
    ensures ReadRun(lz4, s, sizes).err == EOF ==>
              ReadRun(lz4, s, sizes).state.eof && ReadRun(lz4, s, sizes).state.data == tail
    decreases |sizes|
  {
    hide NextBlock;
    hide EncodeStream;
    hide Encodable;
    if sizes != [] {
      assert blocks != [] ==> blocks[0] in blocks;
      if !s.eof {
        NextAt(lz4, s, blocks, tail);
      }
      var ahead := StepAt(lz4, s, blocks, tail, sizes[0]);
      var step := ReadStep(lz4, s, sizes[0]);
      if step.err == NoError {
        EOFAtEnd(lz4, step.state, ahead, tail, sizes[1..]);
      }
    }
  }

  function Opened(lz4: LZ4, blocks: seq<PlainBlock>, tail: seq<byte>): State
    requires Encodable(lz4, blocks, [])
  {
    State(EncodeStream(lz4, blocks, []) + tail, false, [], [])
  }

  /** Reads larger than any block drain one block each; the first empty block is taken for the end. */
  lemma {:induction false} LargeReadsStopAtEmpty(lz4: LZ4, s: State, blocks: seq<PlainBlock>, tail: seq<byte>,
                                                 i: nat, size: nat)
    requires Lawful(lz4) && At(lz4, s, blocks, tail) && !s.eof && s.buffer == []
    requires i < |blocks| && blocks[i].plain == [] && forall j :: 0 <= j < i ==> blocks[j].plain != []
    requires |Plain(blocks)| < size
    ensures var r := ReadRun(lz4, s, seq(i + 1, _ => size));
            r.err == EOF && r.delivered + Plain(blocks[i..]) == Plain(blocks)
    decreases i
  {
    hide NextBlock;
    hide EncodeStream;
    hide Encodable;
    var sizes := seq(i + 1, _ => size);
    var step := ReadStep(lz4, s, size);
    LargeRead(lz4, s, blocks, tail, size);
    if i == 0 {
      assert blocks[0..] == blocks;
    } else {
      hide ReadStep;
      hide At;
      assert sizes[1..] == seq(i, _ => size);
      LargeReadsStopAtEmpty(lz4, step.state, blocks[1..], tail, i - 1, size);
      assert blocks[1..][i - 1..] == blocks[i..];
      Associative(blocks[0].plain, ReadRun(lz4, step.state, sizes[1..]).delivered, Plain(blocks[i..]));
    }
  }

  /** With an empty buffer, a read larger than the next block returns that block, or EOF if it is empty. */
  lemma LargeRead(lz4: LZ4, s: State, blocks: seq<PlainBlock>, tail: seq<byte>, size: nat)
    requires Lawful(lz4) && At(lz4, s, blocks, tail) && !s.eof && s.buffer == []
    requires blocks != [] && |Plain(blocks)| < size
    ensures |Plain(blocks[1..])| <= |Plain(blocks)|
    ensures var step, plain := ReadStep(lz4, s, size), blocks[0].plain;
            && step.output == plain
            && step.err == (if plain == [] then EOF else NoError)
            && At(lz4, step.state, blocks[1..], tail) && !step.state.eof && step.state.buffer == []
  {
    hide NextBlock;
    hide EncodeStream;
    hide Encodable;
    NextAt(lz4, s, blocks, tail);
    var plain := blocks[0].plain;
    assert [] + plain == plain && plain[|plain|..] == [] && plain[..|plain|] == plain;
  }

  lemma {:induction false} SomethingLeft(blocks: seq<PlainBlock>, j: nat)
    requires j < |blocks| && blocks[j].plain != []
    ensures Plain(blocks) != []
    decreases j
  {
    if j > 0 {
      SomethingLeft(blocks[1..], j - 1);
    }
  }

  lemma {:induction false} FirstEmpty(blocks: seq<PlainBlock>, i: nat) returns (f: nat)
    requires i < |blocks| && blocks[i].plain == []
    ensures f <= i && blocks[f].plain == [] && forall j :: 0 <= j < f ==> blocks[j].plain != []
  {
    f := 0;
    while blocks[f].plain != []
      invariant f <= i && forall j :: 0 <= j < f ==> blocks[j].plain != []
      decreases i - f
    {
      f := f + 1;
    }
  }

  /**
   * Exactly which streams are read in full: every sequence of positive read sizes that ends in EOF
   * delivers all of the blocks' data if and only if no data follows an empty block.
   */
  lemma DeliveryExact(lz4: LZ4, blocks: seq<PlainBlock>, tail: seq<byte>)
    requires Lawful(lz4) && Encodable(lz4, blocks, [])
    ensures (forall sizes {:trigger ReadRun(lz4, Opened(lz4, blocks, tail), sizes)} ::
              AllPositive(sizes) && ReadRun(lz4, Opened(lz4, blocks, tail), sizes).err == EOF ==>
                ReadRun(lz4, Opened(lz4, blocks, tail), sizes).delivered == Plain(blocks))
            <==> NoDataAfterEmpty(blocks)
  {
    hide ReadRun;
    hide EncodeStream;
    hide Encodable;
    var s := Opened(lz4, blocks, tail);
    if NoDataAfterEmpty(blocks) {
      forall sizes | AllPositive(sizes) && ReadRun(lz4, s, sizes).err == EOF
        ensures ReadRun(lz4, s, sizes).delivered == Plain(blocks)
      {
        RunDeliversAll(lz4, s, blocks, tail, sizes);
        assert [] + Plain(blocks) == Plain(blocks);
      }
    } else {
      var i, j :| 0 <= i < j < |blocks| && blocks[i].plain == [] && blocks[j].plain != [];
      var f := FirstEmpty(blocks, i);
      var size := |Plain(blocks)| + 1;
      LargeReadsStopAtEmpty(lz4, s, blocks, tail, f, size);
      SomethingLeft(blocks[f..], j - f);
      assert AllPositive(seq(f + 1, _ => size));
      assert ReadRun(lz4, s, seq(f + 1, _ => size)).delivered != Plain(blocks);
    }
  }

  /**
   * Non-empty blocks, any positive read sizes: once EOF is reported, the bytes delivered are exactly
   * the blocks' data and nothing behind the end marker has been consumed.
   */
  lemma StreamRoundTrip(lz4: LZ4, blocks: seq<PlainBlock>, tail: seq<byte>, sizes: seq<nat>)
    requires Lawful(lz4) && Encodable(lz4, blocks, []) && AllPositive(sizes)
    requires forall b :: b in blocks ==> b.plain != []
    requires ReadRun(lz4, Opened(lz4, blocks, tail), sizes).err != NoError
    ensures var r := ReadRun(lz4, Opened(lz4, blocks, tail), sizes);
            r.err == EOF && r.delivered == Plain(blocks) && r.state.eof && r.state.data == tail
  {
    RunDeliversAll(lz4, Opened(lz4, blocks, tail), blocks, tail, sizes);
    EOFAtEnd(lz4, Opened(lz4, blocks, tail), blocks, tail, sizes);
    assert [] + Plain(blocks) == Plain(blocks);
  }

  /** Decoding an encoded stream, whatever follows its end marker. */
  lemma {:induction false} DecodeOfEncoded(lz4: LZ4, blocks: seq<PlainBlock>, dict: seq<byte>, tail: seq<byte>)
    requires Lawful(lz4) && Encodable(lz4, blocks, dict)
    ensures DecodeStream(lz4, EncodeStream(lz4, blocks, dict) + tail, dict) == Plain(blocks)
    decreases |blocks|
  {
    hide NextBlock;
    NextAt(lz4, State(EncodeStream(lz4, blocks, dict) + tail, false, dict, []), blocks, tail);
    if blocks != [] {
      DecodeOfEncoded(lz4, blocks[1..], blocks[0].plain, tail);
    }
  }

  /**
   * The check on a compressed block's sizes holds them to the limit exactly when their sum does not
   * wrap around to a value within it.
   */
  lemma SizeCheckExact(size: nat, compressedSize: nat)
    requires size < TWO_TO_THE_32 && compressedSize < TWO_TO_THE_32
    ensures (SizesAccepted(size, compressedSize) <==> size + compressedSize <= MAX_BYTES_PER_BLOCK)
            <==> !(TWO_TO_THE_32 <= size + compressedSize <= TWO_TO_THE_32 + MAX_BYTES_PER_BLOCK)
    ensures SizesAccepted(TWO_TO_THE_32 - 1, 1)
  {
    assert (size + compressedSize) % TWO_TO_THE_32
        == if size + compressedSize < TWO_TO_THE_32 then size + compressedSize
           else size + compressedSize - TWO_TO_THE_32;
  }
}
