/** internal/storage/temporary: copying a VM directory's files, by cloning extents or sparsely. */
module Temporary {
  import opened Bytes
  import opened SparseIO

  /** zerocopy.Clone: the file shares the source's extents, or that is not supported, or it fails. */
  datatype CloneResult = Cloned | NotSupported | CloneFailed

  /** What copying one file meets: how cloning goes, how the source is read, when writing fails. */
  datatype Attempt = Attempt(clone: CloneResult, script: seq<ReadResult>, fault: Option<Fault>)

  /** A way to read a file: to its end, or up to a failure. */
  ghost predicate ReadsFile(script: seq<ReadResult>, content: seq<byte>) {
    && (forall i :: 0 <= i < |script| ==> |script[i].data| <= BLOCK_SIZE)
    && exists k :: EndsAt(script, k) && (script[k].err == EOF ==> DataOf(script[..k + 1]) == content)
  }

  /** The file is cloned, or cloning is not supported and neither a read nor a write of the copy fails. */
  predicate Copies(a: Attempt) {
    || a.clone.Cloned?
    || (&& a.clone.NotSupported? && Ending(a.script) == EOF
        && AllAccepted(SparseWrites(0, Delivered(a.script)), a.fault))
  }

  /** The reads of the script end with EOF rather than a failure. */
  ghost predicate ReadsWell(script: seq<ReadResult>) {
    exists k :: EndsAt(script, k) && script[k].err == EOF
  }

  /**
   * One file: created empty, truncated to the source's size, then cloned or, where that is not
   * supported, sparsely copied.
   */
  method CopyFile(content: seq<byte>, a: Attempt) returns (r: Option<seq<byte>>)
    requires ReadsFile(a.script, content)
    ensures r == if Copies(a) then Some(content) else None
    ensures a.clone.Cloned? ==> r == Some(content)
    ensures a.clone.CloneFailed? ==> r == None
    ensures a.clone.NotSupported? && a.fault.None? ==> r == if ReadsWell(a.script) then Some(content) else None
    ensures a.clone.NotSupported? && r.Some? ==> ReadsWell(a.script)
  {
    ghost var k :| EndsAt(a.script, k) && (a.script[k].err == EOF ==> DataOf(a.script[..k + 1]) == content);
    DeliveredUpTo(a.script, k);
    CopiedReads(Zeros(|content|), 0, a.script, a.fault);
    match a.clone
    case CloneFailed =>
      return None;
    case Cloned =>
      return Some(content);
    case NotSupported =>
      var dst := new OffsetWriter(Zeros(|content|), 0, a.fault);
      var src := new Reader(a.script);
      var ok := Copy(dst, src);
      if !ok {
        return None;
      }
      assert Overwrite(Zeros(|content|), 0, content) == content;
      return Some(dst.data);
  }

  /**
   * Every file of the source directory, in any order, whatever mixture of cloning and copying is used;
   * the first failure ends it.
   */
  method CreateFrom(src: Files, attempts: map<string, Attempt>) returns (r: Option<Files>)
    requires attempts.Keys == src.Keys
    requires forall name :: name in src ==> ReadsFile(attempts[name].script, src[name])
    ensures r == if forall name <- src.Keys :: Copies(attempts[name]) then Some(src) else None
  {
    var dst: Files := map[];
    var entries := src.Keys;
    while entries != {}
      invariant entries <= src.Keys && dst.Keys == src.Keys - entries
      invariant forall name :: name in dst ==> dst[name] == src[name] && Copies(attempts[name])
      decreases entries
    {
      var name :| name in entries;
      var file := CopyFile(src[name], attempts[name]);
      if file.None? {
        assert name in src.Keys && !Copies(attempts[name]);
        return None;
      }
      dst := dst[name := file.value];
      entries := entries - {name};
    }
    assert dst == src;
    return Some(dst);
  }
}
