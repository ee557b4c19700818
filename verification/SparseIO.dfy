/** internal/sparseio: copying a reader into a file while skipping all-zero reads. */
module SparseIO {
  import opened Bytes

  const BLOCK_SIZE := 64 * 1024

  // ---- Files ----

  /** A positional write; a file grows with zeros when the write reaches past its end. */
  function Splice(file: seq<byte>, offset: nat, data: seq<byte>): (r: seq<byte>)
    ensures offset + |data| <= |file| ==> |r| == |file|
  {
    if data == [] then file
    else
      var grown := if |file| < offset + |data| then file + Zeros(offset + |data| - |file|) else file;
      grown[..offset] + data + grown[offset + |data|..]
  }

  /** A write of some data puts exactly that data there and zeros into a gap before it. */
  lemma SpliceExact(file: seq<byte>, offset: nat, data: seq<byte>, k: nat)
    requires data != []
    ensures |Splice(file, offset, data)| == if |file| < offset + |data| then offset + |data| else |file|
    ensures k < |Splice(file, offset, data)| ==>
              Splice(file, offset, data)[k]
              == if offset <= k < offset + |data| then data[k - offset] else if k < |file| then file[k] else 0
  {}

  datatype Write = Write(offset: nat, data: seq<byte>)

  function ApplyAll(file: seq<byte>, writes: seq<Write>): seq<byte>
    decreases |writes|
  {
    if writes == [] then file
    else ApplyAll(Splice(file, writes[0].offset, writes[0].data), writes[1..])
  }

  /** A file system about to fail: it accepts so many more writes, then puts only some bytes of one. */
  datatype Fault = Fault(writes: nat, bytes: nat)

  predicate Accepts(fault: Option<Fault>) {
    fault.Some? ==> fault.value.writes > 0
  }

  function AfterWrite(fault: Option<Fault>): Option<Fault>
    requires Accepts(fault)
  {
    if fault.None? then None else Some(fault.value.(writes := fault.value.writes - 1))
  }

  /** What is left of a write that fails. */
  function Torn(w: Write, fault: Fault): Write {
    w.(data := if fault.bytes <= |w.data| then w.data[..fault.bytes] else w.data)
  }

  lemma TornIsPrefix(w: Write, fault: Fault)
    ensures Torn(w, fault).offset == w.offset && Torn(w, fault).data <= w.data
    ensures |Torn(w, fault).data| == fault.bytes || (|w.data| < fault.bytes && Torn(w, fault) == w)
  {}

  /** How far a sequence of writes gets, the first failure ending it. */
  function Accepted(writes: seq<Write>, fault: Option<Fault>): seq<Write> {
    if writes == [] then []
    else if !Accepts(fault) then [Torn(writes[0], fault.value)]
    else [writes[0]] + Accepted(writes[1..], AfterWrite(fault))
  }

  /** None of the writes fails. */
  predicate AllAccepted(writes: seq<Write>, fault: Option<Fault>) {
    fault.Some? ==> |writes| <= fault.value.writes
  }

  lemma {:induction false} AcceptedInFull(writes: seq<Write>, fault: Option<Fault>)
    requires AllAccepted(writes, fault)
    ensures Accepted(writes, fault) == writes
    decreases |writes|
  {
    if writes != [] {
      AcceptedInFull(writes[1..], AfterWrite(fault));
    }
  }

  /** io.OffsetWriter over an open file: every write lands at base plus its own offset, or fails half-way. */
  class OffsetWriter {
    const base: nat
    var data: seq<byte>
    var fault: Option<Fault>
    ghost var log: seq<Write>

    constructor (file: seq<byte>, base: nat, fault: Option<Fault>)
      ensures data == file && this.base == base && this.fault == fault && log == []
    {
      this.base, data, this.fault, log := base, file, fault, [];
    }

    method WriteAt(p: seq<byte>, offset: nat) returns (ok: bool)
      modifies this
      ensures ok <==> Accepts(old(fault))
      ensures var w := Write(base + offset, p);
              var put := if ok then w else Torn(w, old(fault).value);
              data == Splice(old(data), put.offset, put.data) && log == old(log) + [put]
      ensures ok ==> fault == AfterWrite(old(fault))
    {
      ok := Accepts(fault);
      var put := if ok then Write(base + offset, p) else Torn(Write(base + offset, p), fault.value);
      data, log := Splice(data, put.offset, put.data), log + [put];
      if ok {
        fault := AfterWrite(fault);
      }
    }
  }

  // ---- Readers ----

  datatype ReadError = NoError | EOF | Failure
  datatype ReadResult = ReadResult(data: seq<byte>, err: ReadError)

  /** What the reads of a script hand over, up to and including the first one that reports an error. */
  function Delivered(script: seq<ReadResult>): seq<seq<byte>> {
    if script == [] then []
    else if script[0].err != NoError then [script[0].data]
    else [script[0].data] + Delivered(script[1..])
  }

  /** The error that ends the script; a reader that has nothing left reports EOF. */
  function Ending(script: seq<ReadResult>): ReadError {
    if script == [] then EOF
    else if script[0].err != NoError then script[0].err
    else Ending(script[1..])
  }

  /** The reads' data in the order read. */
  function DataOf(results: seq<ReadResult>): seq<byte> {
    Flatten(seq(|results|, i requires 0 <= i < |results| => results[i].data))
  }

  /** The read with the given number is the first to report an error, which may be EOF, beside its data. */
  ghost predicate EndsAt(script: seq<ReadResult>, k: int) {
    0 <= k < |script| && script[k].err != NoError && forall i :: 0 <= i < k ==> script[i].err == NoError
  }

  /** The last read's data counts like that of the others, also when it comes together with EOF. */
  lemma {:induction false} DeliveredUpTo(script: seq<ReadResult>, k: int)
    requires EndsAt(script, k)
    ensures Ending(script) == script[k].err && Flatten(Delivered(script)) == DataOf(script[..k + 1])
    decreases |script|
  {
    FirstData(script[..k + 1]);
    if k == 0 {
      FirstData([script[0]]);
      assert script[..1] == [script[0]] && [script[0]][1..] == [];
    } else {
      assert EndsAt(script[1..], k - 1);
      DeliveredUpTo(script[1..], k - 1);
      assert script[..k + 1][1..] == script[1..][..k];
    }
  }

  /** Without a read that reports an error, all data counts, and EOF follows. */
  lemma {:induction false} DeliveredInFull(script: seq<ReadResult>)
    requires forall i :: 0 <= i < |script| ==> script[i].err == NoError
    ensures Ending(script) == EOF && Flatten(Delivered(script)) == DataOf(script)
    decreases |script|
  {
    if script != [] {
      FirstData(script);
      DeliveredInFull(script[1..]);
    }
  }

  lemma FirstData(results: seq<ReadResult>)
    ensures DataOf([]) == []
    ensures results != [] ==> DataOf(results) == results[0].data + DataOf(results[1..])
  {
    if results != [] {
      var all := seq(|results|, i requires 0 <= i < |results| => results[i].data);
      assert all[1..] == seq(|results| - 1, i requires 0 <= i < |results| - 1 => results[1..][i].data);
    }
  }

  /** An io.Reader with an arbitrary schedule: short reads, empty reads, data together with EOF. */
  class Reader {
    var script: seq<ReadResult>

    ghost predicate Valid()
      reads this
    {
      forall i :: 0 <= i < |script| ==> |script[i].data| <= BLOCK_SIZE
    }

    constructor (script: seq<ReadResult>)
      ensures this.script == script
    {
      this.script := script;
    }

    method Read(chunk: array<byte>) returns (n: nat, err: ReadError)
      requires Valid() && chunk.Length == BLOCK_SIZE
      modifies this, chunk
      ensures Valid() && n <= BLOCK_SIZE
      ensures old(script) == [] ==> n == 0 && err == EOF && script == []
      ensures old(script) != [] ==>
                && chunk[..n] == old(script)[0].data
                && err == old(script)[0].err
                && script == old(script)[1..]
    {
      if script == [] {
        return 0, EOF;
      }
      var r := script[0];
      forall i | 0 <= i < |r.data| {
        chunk[i] := r.data[i];
      }
      n, err, script := |r.data|, r.err, script[1..];
    }
  }

  // ---- Copy ----

  /** The writes a sparse copy issues for the given reads, the first of them meant for the given offset. */
  function SparseWrites(offset: nat, chunks: seq<seq<byte>>): seq<Write>
    decreases |chunks|
  {
    if chunks == [] then []
    else
      (if AllZero(chunks[0]) then [] else [Write(offset, chunks[0])])
      + SparseWrites(offset + |chunks[0]|, chunks[1..])
  }

  lemma SparseWritesCons(offset: nat, head: seq<byte>, rest: seq<seq<byte>>)
    ensures SparseWrites(offset, [head] + rest)
         == (if AllZero(head) then [] else [Write(offset, head)]) + SparseWrites(offset + |head|, rest)
  {
    hide AllZero;
    assert ([head] + rest)[1..] == rest;
  }

  lemma ApplyAllCons(file: seq<byte>, w: Write, rest: seq<Write>)
    ensures ApplyAll(file, [w] + rest) == ApplyAll(Splice(file, w.offset, w.data), rest)
  {
    hide Splice;
    assert ([w] + rest)[1..] == rest;
  }

  /** One round of the copy loop: the first read is written unless it is all zeros. */
  lemma CopyRound(file: seq<byte>, log: seq<Write>, fault: Option<Fault>, offset: nat, head: seq<byte>,
                  rest: seq<seq<byte>>, file': seq<byte>, log': seq<Write>, fault': Option<Fault>)
    requires AllZero(head) || Accepts(fault)
    requires file' == if AllZero(head) then file else Splice(file, offset, head)
    requires log' == if AllZero(head) then log else log + [Write(offset, head)]
    requires fault' == if AllZero(head) then fault else AfterWrite(fault)
    ensures var all, left := SparseWrites(offset, [head] + rest), SparseWrites(offset + |head|, rest);
            && ApplyAll(file, Accepted(all, fault)) == ApplyAll(file', Accepted(left, fault'))
            && log + Accepted(all, fault) == log' + Accepted(left, fault')
            && (AllAccepted(all, fault) <==> AllAccepted(left, fault'))
  {
    hide Splice;
    hide AllZero;
    hide SparseWrites;
    hide ApplyAll;
    SparseWritesCons(offset, head, rest);
    var left := SparseWrites(offset + |head|, rest);
    if AllZero(head) {
      assert [] + left == left;
    } else {
      var w := Write(offset, head);
      assert ([w] + left)[1..] == left;
      ApplyAllCons(file, w, Accepted(left, fault'));
      AppendOne(log, w, Accepted(left, fault'));
    }
  }

  lemma AppendOne(log: seq<Write>, w: Write, left: seq<Write>)
    ensures log + ([w] + left) == (log + [w]) + left
  {}

  /** The round in which a write fails. */
  lemma FailedRound(file: seq<byte>, fault: Option<Fault>, offset: nat, head: seq<byte>, rest: seq<seq<byte>>)
    requires !AllZero(head) && !Accepts(fault)
    ensures var all, torn := SparseWrites(offset, [head] + rest), Torn(Write(offset, head), fault.value);
            && Accepted(all, fault) == [torn] && !AllAccepted(all, fault)
            && ApplyAll(file, Accepted(all, fault)) == Splice(file, torn.offset, torn.data)
  {
    hide Splice;
    hide AllZero;
    hide SparseWrites;
    SparseWritesCons(offset, head, rest);
    ApplyAllCons(file, Torn(Write(offset, head), fault.value), []);
    assert [Torn(Write(offset, head), fault.value)] + [] == [Torn(Write(offset, head), fault.value)];
  }

  lemma NothingLeftToCopy(file: seq<byte>, offset: nat, fault: Option<Fault>)
    ensures SparseWrites(offset, []) == [] && ApplyAll(file, SparseWrites(offset, [])) == file
    ensures Accepted(SparseWrites(offset, []), fault) == [] && AllAccepted(SparseWrites(offset, []), fault)
  {}

  lemma EqualToZeros(s: seq<byte>, zeros: seq<byte>)
    requires |s| <= |zeros| && AllZero(zeros)
    ensures s == zeros[..|s|] <==> AllZero(s)
  {}

  method Copy(dst: OffsetWriter, src: Reader) returns (ok: bool)
    requires src.Valid()
    modifies dst, src
    ensures var writes := SparseWrites(dst.base, Delivered(old(src.script)));
            && (ok <==> Ending(old(src.script)) == EOF && AllAccepted(writes, old(dst.fault)))
            && dst.data == ApplyAll(old(dst.data), Accepted(writes, old(dst.fault)))
            && dst.log == old(dst.log) + Accepted(writes, old(dst.fault))
    ensures var script := old(src.script);
            forall k | EndsAt(script, k) ::
              && (ok ==> script[k].err == EOF && CopiesReads(old(dst.data), dst.base, script, k, dst.data))
              && (old(dst.fault).None? ==> (ok <==> script[k].err == EOF))
  {
    hide Splice;
    hide ApplyAll;
    hide SparseWrites;
    hide Accepted;
    hide AllAccepted;
    hide CopiesReads;
    hide EndsAt;
    CopiedReads(dst.data, dst.base, src.script, dst.fault);
    var chunk := new byte[BLOCK_SIZE](_ => 0);
    var zeroedChunk := new byte[BLOCK_SIZE](_ => 0);
    var offset := 0;
    ghost var all := SparseWrites(dst.base, Delivered(src.script));
    ghost var left := Delivered(src.script);
    assert AllZero(zeroedChunk[..]);
    hide AllZero;
    while true
      invariant fresh(chunk) && fresh(zeroedChunk) && chunk != zeroedChunk && src.Valid()
      invariant AllZero(zeroedChunk[..])
      invariant Ending(src.script) == Ending(old(src.script)) && left == Delivered(src.script)
      invariant ApplyAll(old(dst.data), Accepted(all, old(dst.fault)))
             == ApplyAll(dst.data, Accepted(SparseWrites(dst.base + offset, left), dst.fault))
      invariant old(dst.log) + Accepted(all, old(dst.fault))
             == dst.log + Accepted(SparseWrites(dst.base + offset, left), dst.fault)
      invariant AllAccepted(all, old(dst.fault)) <==> AllAccepted(SparseWrites(dst.base + offset, left), dst.fault)
      decreases |src.script|
    {
      ghost var file, log, fault := dst.data, dst.log, dst.fault;
      var n, err := src.Read(chunk);
      var data, zeros := chunk[..n], zeroedChunk[..n];
      EqualToZeros(data, zeroedChunk[..]);
      assert zeros == zeroedChunk[..][..n];
      ghost var rest := if left == [] then [] else left[1..];
      assert left == [] ==> data == [];
      assert left != [] ==> left == [data] + rest;
      // Data is processed before the error, so that a read returning both loses nothing.
      if n > 0 {
        if data != zeros {
          var written := dst.WriteAt(data, offset);
          if !written {
            FailedRound(file, fault, dst.base + offset, data, rest);
            return false;
          }
        }
      }
      if left == [] {
        NothingLeftToCopy(file, dst.base + offset, fault);
      } else {
        CopyRound(file, log, fault, dst.base + offset, data, rest, dst.data, dst.log, dst.fault);
        NothingLeftToCopy(dst.data, dst.base + offset + n, dst.fault);
      }
      if err != NoError {
        return err == EOF;
      }
      offset, left := offset + n, rest;
    }
  }

  // ---- What a sparse copy achieves ----

  /** The file with `content` put at `base` and every other byte kept. */
  function Overwrite(file: seq<byte>, base: nat, content: seq<byte>): (r: seq<byte>)
    requires base + |content| <= |file|
    ensures |r| == |file|
  {
    file[..base] + content + file[base + |content|..]
  }

  /** Wherever the content has a zero, the file already has one. */
  ghost predicate ZeroCompatible(file: seq<byte>, base: nat, content: seq<byte>)
    requires base + |content| <= |file|
  {
    forall j :: 0 <= j < |content| && content[j] == 0 ==> file[base + j] == 0
  }

  lemma OverwriteTwice(file: seq<byte>, base: nat, head: seq<byte>, tail: seq<byte>)
    requires base + |head| + |tail| <= |file|
    ensures Overwrite(Overwrite(file, base, head), base + |head|, tail) == Overwrite(file, base, head + tail)
  {}

  lemma EmptyCopy(file: seq<byte>, base: nat)
    requires base <= |file|
    ensures ApplyAll(file, SparseWrites(base, [])) == Overwrite(file, base, [])
  {}

  lemma FirstReadLands(file: seq<byte>, base: nat, head: seq<byte>, tail: seq<byte>)
    requires base + |head| + |tail| <= |file|
    requires ZeroCompatible(file, base, head + tail)
    ensures (if AllZero(head) then file else Splice(file, base, head)) == Overwrite(file, base, head)
    ensures ZeroCompatible(Overwrite(file, base, head), base + |head|, tail)
  {
    var content := head + tail;
    assert forall j :: 0 <= j < |head| ==> content[j] == head[j];
    assert forall j :: 0 <= j < |tail| ==> content[|head| + j] == tail[j];
  }

  lemma {:induction false} SparseCopyWritesContent(file: seq<byte>, base: nat, chunks: seq<seq<byte>>)
    requires base + |Flatten(chunks)| <= |file|
    requires ZeroCompatible(file, base, Flatten(chunks))
    ensures ApplyAll(file, SparseWrites(base, chunks)) == Overwrite(file, base, Flatten(chunks))
    decreases |chunks|
  {
    hide Splice;
    hide AllZero;
    hide Overwrite;
    hide ZeroCompatible;
    hide SparseWrites;
    hide ApplyAll;
    if chunks == [] {
      EmptyCopy(file, base);
    } else {
      var head, tail := chunks[0], Flatten(chunks[1..]);
      var file' := if AllZero(head) then file else Splice(file, base, head);
      assert chunks == [head] + chunks[1..];
      SparseWritesCons(base, head, chunks[1..]);
      ApplyAllCons(file, Write(base, head), SparseWrites(base + |head|, chunks[1..]));
      assert [] + SparseWrites(base + |head|, chunks[1..]) == SparseWrites(base + |head|, chunks[1..]);
      FirstReadLands(file, base, head, tail);
      OverwriteTwice(file, base, head, tail);
      SparseCopyWritesContent(file', base + |head|, chunks[1..]);
    }
  }

  /** The destination of a successful copy, in terms of the reads themselves. */
  ghost predicate CopiesReads(file: seq<byte>, base: nat, script: seq<ReadResult>, k: int, file': seq<byte>)
    requires EndsAt(script, k)
  {
    var content := DataOf(script[..k + 1]);
    base + |content| <= |file| && ZeroCompatible(file, base, content) ==> file' == Overwrite(file, base, content)
  }

  lemma CopiedReads(file: seq<byte>, base: nat, script: seq<ReadResult>, fault: Option<Fault>)
    ensures var writes := SparseWrites(base, Delivered(script));
            && (fault.None? ==> AllAccepted(writes, fault))
            && forall k | EndsAt(script, k) ::
                 && Ending(script) == script[k].err
                 && (AllAccepted(writes, fault) ==>
                      CopiesReads(file, base, script, k, ApplyAll(file, Accepted(writes, fault))))
  {
    hide Accepted;
    hide SparseWrites;
    hide ApplyAll;
    var writes := SparseWrites(base, Delivered(script));
    forall k | EndsAt(script, k)
      ensures Ending(script) == script[k].err
      ensures AllAccepted(writes, fault) ==>
                CopiesReads(file, base, script, k, ApplyAll(file, Accepted(writes, fault)))
    {
      DeliveredUpTo(script, k);
      if AllAccepted(writes, fault) {
        AcceptedInFull(writes, fault);
        var content := DataOf(script[..k + 1]);
        if base + |content| <= |file| && ZeroCompatible(file, base, content) {
          SparseCopyWritesContent(file, base, Delivered(script));
        }
      }
    }
  }

  /** Every write is non-zero, carries the content's own bytes and stays inside the content's range. */
  lemma {:induction false} SparseWritesAreContent(base: nat, chunks: seq<seq<byte>>, w: Write)
    requires w in SparseWrites(base, chunks)
    ensures !AllZero(w.data)
    ensures base <= w.offset && w.offset + |w.data| <= base + |Flatten(chunks)|
    ensures Flatten(chunks)[w.offset - base..w.offset - base + |w.data|] == w.data
    decreases |chunks|
  {
    hide AllZero;
    var head, tail := chunks[0], Flatten(chunks[1..]);
    if w == Write(base, head) && !AllZero(head) {
      assert (head + tail)[..|head|] == head;
    } else {
      SparseWritesAreContent(base + |head|, chunks[1..], w);
      var at := w.offset - base - |head|;
      assert (head + tail)[|head| + at..|head| + at + |w.data|] == tail[at..at + |w.data|];
    }
  }

  lemma {:induction false} UntouchedByte(file: seq<byte>, writes: seq<Write>, p: nat)
    requires p < |file|
    requires forall w :: w in writes ==> w.offset + |w.data| <= |file|
    requires forall w :: w in writes ==> p < w.offset || w.offset + |w.data| <= p
    ensures |ApplyAll(file, writes)| == |file| && ApplyAll(file, writes)[p] == file[p]
    decreases |writes|
  {
    if writes != [] {
      var w := writes[0];
      assert w in writes;
      UntouchedByte(Splice(file, w.offset, w.data), writes[1..], p);
    }
  }

  lemma {:induction false} ApplyAllKeepsLength(file: seq<byte>, writes: seq<Write>)
    requires forall w :: w in writes ==> w.offset + |w.data| <= |file|
    ensures |ApplyAll(file, writes)| == |file|
    decreases |writes|
  {
    if writes != [] {
      var w := writes[0];
      assert w in writes;
      ApplyAllKeepsLength(Splice(file, w.offset, w.data), writes[1..]);
    }
  }

  lemma {:induction false} SingletonWrite(base: nat, content: seq<byte>, w: Write)
    requires w in SparseWrites(base, Singletons(content))
    ensures |w.data| == 1 && base <= w.offset < base + |content| && content[w.offset - base] == w.data[0] != 0
    decreases |content|
  {
    hide SparseWrites;
    hide Singletons;
    if content == [] {
      NoSingletons(base);
    } else {
      SingletonFirst(base, content, w);
      if w != Write(base, [content[0]]) || content[0] == 0 {
        SingletonWrite(base + 1, content[1..], w);
      }
    }
  }

  lemma NoSingletons(base: nat)
    ensures SparseWrites(base, Singletons([])) == []
  {}

  lemma SingletonFirst(base: nat, content: seq<byte>, w: Write)
    requires content != [] && w in SparseWrites(base, Singletons(content))
    ensures (w == Write(base, [content[0]]) && content[0] != 0) || w in SparseWrites(base + 1, Singletons(content[1..]))
  {
    hide SparseWrites;
    var head, tail := [content[0]], Singletons(content[1..]);
    assert Singletons(content) == [head] + tail;
    hide Singletons;
    SparseWritesCons(base, head, tail);
  }

  lemma SkippedZeroKeepsOldByte(file: seq<byte>, base: nat, content: seq<byte>, j: nat)
    requires base + |content| <= |file|
    requires j < |content| && content[j] == 0 && file[base + j] != 0
    ensures ApplyAll(file, SparseWrites(base, Singletons(content))) != Overwrite(file, base, content)
  {
    hide SparseWrites;
    hide ApplyAll;
    hide Singletons;
    var writes := SparseWrites(base, Singletons(content));
    forall w | w in writes
      ensures w.offset + |w.data| <= |file| && (base + j < w.offset || w.offset + |w.data| <= base + j)
    {
      SingletonWrite(base, content, w);
    }
    UntouchedByte(file, writes, base + j);
    assert Overwrite(file, base, content)[base + j] == content[j];
  }

  /**
   * Exactly when sparse copying is safe: it reproduces the content for every way the reader may cut
   * it into reads if and only if the destination is already zero wherever the content is zero.
   */
  lemma SparseCopyExact(file: seq<byte>, base: nat, content: seq<byte>)
    requires base + |content| <= |file|
    ensures (forall chunks :: Flatten(chunks) == content ==>
              ApplyAll(file, SparseWrites(base, chunks)) == Overwrite(file, base, content))
            <==> ZeroCompatible(file, base, content)
  {
    hide SparseWrites;
    hide ApplyAll;
    hide Overwrite;
    hide Singletons;
    if ZeroCompatible(file, base, content) {
      forall chunks | Flatten(chunks) == content
        ensures ApplyAll(file, SparseWrites(base, chunks)) == Overwrite(file, base, content)
      {
        SparseCopyWritesContent(file, base, chunks);
      }
    } else {
      var j :| 0 <= j < |content| && content[j] == 0 && file[base + j] != 0;
      FlattenSingletons(content);
      SkippedZeroKeepsOldByte(file, base, content, j);
    }
  }
}
