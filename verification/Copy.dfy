/** `copy`: a range of one file or device to an offset of another, skipping zeros if asked to. */
module Copy {
  import opened Bytes
  import opened Seqs
  import opened Files

  const BUFSIZ: nat := 8192

  /** A byte of a file read as if zeros followed its end. */
  function At(f: seq<byte>, i: nat): byte { if i < |f| then f[i] else 0 }

  /** The length of a file after n bytes were written at `off`. */
  function Extent(before: seq<byte>, off: nat, n: nat): nat {
    if n > 0 && off + n > |before| then off + n else |before|
  }

  /**
   * `dest` is `before` with `data` laid over it at `off`, except that with `sparse` a zero byte
   * of the data may have left the old byte in place and the file may end early.
   */
  ghost predicate Laid(before: seq<byte>, off: nat, data: seq<byte>, sparse: bool, dest: seq<byte>) {
    && |before| <= |dest| <= Extent(before, off, |data|)
    && (!sparse ==> |dest| == Extent(before, off, |data|))
    && forall i: nat :: LaidAt(before, off, data, sparse, dest, i)
  }

  ghost predicate LaidAt(before: seq<byte>, off: nat, data: seq<byte>, sparse: bool, dest: seq<byte>, i: nat) {
    if off <= i < off + |data|
    then At(dest, i) == data[i - off] || (sparse && data[i - off] == 0 && At(dest, i) == At(before, i))
    else At(dest, i) == At(before, i)
  }

  lemma {:induction false} LaidNothing(before: seq<byte>, off: nat, sparse: bool)
    ensures Laid(before, off, [], sparse, before)
  {
  }

  lemma {:induction false} WriteReads(f: seq<byte>, off: nat, d: seq<byte>, i: nat)
    ensures At(WriteAt(f, off, d), i) == if off <= i < off + |d| then d[i - off] else At(f, i)
    ensures |WriteAt(f, off, d)| == Extent(f, off, |d|)
  {
    if d != [] {
      WriteAtBytes(f, off, d);
    }
  }

  /** The next block is written. */
  lemma {:induction false} LaidWrite(before: seq<byte>, off: nat, data: seq<byte>, sparse: bool, dest: seq<byte>,
                                     d: seq<byte>)
    requires Laid(before, off, data, sparse, dest)
    ensures Laid(before, off, data + d, sparse, WriteAt(dest, off + |data|, d))
  {
    var dest' := WriteAt(dest, off + |data|, d);
    WriteReads(dest, off + |data|, d, 0);
    forall i: nat ensures LaidAt(before, off, data + d, sparse, dest', i) {
      WriteReads(dest, off + |data|, d, i);
      assert LaidAt(before, off, data, sparse, dest, i);
    }
  }

  /** The next block is all zero and is skipped. */
  lemma {:induction false} LaidSkip(before: seq<byte>, off: nat, data: seq<byte>, dest: seq<byte>, d: seq<byte>)
    requires Laid(before, off, data, true, dest) && AllZero(d)
    ensures Laid(before, off, data + d, true, dest)
  {
    forall i: nat ensures LaidAt(before, off, data + d, true, dest, i) {
      assert LaidAt(before, off, data, true, dest, i);
    }
  }

  /**
   * Without `sparse` the destination is exactly the old one with the range written over it.  With
   * `sparse`, onto zeros, it is that up to zeros missing at the end.
   */
  lemma {:induction false} LaidIsExact(before: seq<byte>, off: nat, data: seq<byte>, sparse: bool, dest: seq<byte>)
    requires Laid(before, off, data, sparse, dest)
    requires !sparse || forall k: nat :: off <= k < off + |data| ==> At(before, k) == 0
    ensures var whole := WriteAt(before, off, data);
            && dest <= whole && AllZero(whole[|dest|..])
            && (!sparse || |dest| == |whole| ==> dest == whole)
  {
    var whole := WriteAt(before, off, data);
    WriteReads(before, off, data, 0);
    forall i: nat ensures At(dest, i) == At(whole, i) {
      WriteReads(before, off, data, i);
      assert LaidAt(before, off, data, sparse, dest, i);
    }
    SameBytes(dest, whole);
  }

  lemma {:induction false} SameBytes(f: seq<byte>, g: seq<byte>)
    requires |f| <= |g| && forall i: nat :: At(f, i) == At(g, i)
    ensures f <= g && AllZero(g[|f|..]) && (|f| == |g| ==> f == g)
  {
    forall i | 0 <= i < |g| ensures g[i] == if i < |f| then f[i] else 0 {
      assert At(f, i) == At(g, i);
    }
  }

  // ---------- messages to the library

  /** Replies and progress messages must not be written while the pulse timer may fire. */
  class Link {
    var armed: bool
    var errors: nat

    constructor ()
      ensures !armed && errors == 0
    {
      armed, errors := false, 0;
    }

    method PulseModeStart()
      requires !armed
      modifies this`armed
      ensures armed
    {
      armed := true;
    }

    method PulseModeCancel()
      modifies this`armed
      ensures !armed
    {
      armed := false;
    }

    method NotifyProgress(position: int, total: int)
      requires !armed
    {
    }

    method PulseModeEnd()
      modifies this`armed
      ensures !armed
    {
      PulseModeCancel();
      NotifyProgress(1, 1);
    }

    method ReplyWithError()
      requires !armed
      modifies this`errors
      ensures errors == old(errors) + 1
    {
      errors := errors + 1;
    }

    /** An error in the copy loop: the timer is cancelled before the reply. */
    method Fail(pulse: bool)
      requires armed ==> pulse
      modifies this
      ensures !armed && errors == old(errors) + 1
    {
      if pulse {
        PulseModeCancel();
      }
      ReplyWithError();
    }
  }

  // ---------- the copy loop

  /** The loop stands after n bytes. */
  ghost predicate CopiedSoFar(src: seq<byte>, srcoffset: nat, n: nat,
                              before: seq<byte>, off: nat, sparse: bool, dest: File)
    reads dest
  {
    && (n == 0 || srcoffset + n <= |src|)
    && dest.pos == off + n
    && Laid(before, off, Taken(src, srcoffset, n), sparse, dest.contents)
    && (dest.device ==> |dest.contents| == |before|)
  }

  lemma {:induction false} NothingCopied(src: seq<byte>, srcoffset: nat, off: nat, sparse: bool, dest: File)
    requires dest.pos == off
    ensures CopiedSoFar(src, srcoffset, 0, dest.contents, off, sparse, dest)
  {
    LaidNothing(dest.contents, off, sparse);
  }

  /** One block: skip or write it.  A failed seek or write ends the copy. */
  method CopyBlock(src: seq<byte>, srcoffset: nat, n: nat, buf: seq<byte>, sparse: bool, dest: File,
                   ghost before: seq<byte>, ghost off: nat)
    returns (ok: bool)
    requires CopiedSoFar(src, srcoffset, n, before, off, sparse, dest)
    requires buf != [] && srcoffset + n + |buf| <= |src| && buf == src[srcoffset + n..srcoffset + n + |buf|]
    modifies dest, dest.sys
    ensures dest.sys.failed == old(dest.sys.failed) + if ok then 0 else 1
    ensures ok ==> CopiedSoFar(src, srcoffset, n + |buf|, before, off, sparse, dest)
  {
    ghost var data := Taken(src, srcoffset, n);
    TakenNext(src, srcoffset, n, buf);
    var zero := IsZero(buf, |buf|);
    TakeAll(buf);
    if sparse && zero {
      var failed := dest.sys.Fails();
      if failed {
        return false;                      // lseek
      }
      LaidSkip(before, off, data, dest.contents, buf);
      dest.pos := dest.pos + |buf|;
      return true;
    }
    LaidWrite(before, off, data, sparse, dest.contents, buf);
    ghost var done;
    ok, done := dest.XWrite(buf);
  }

  /** Read up to `want` bytes and copy them: how many there were, or -1. */
  method CopyNext(src: seq<byte>, srcoffset: nat, n: nat, want: nat, sparse: bool, dest: File,
                  ghost before: seq<byte>, ghost off: nat)
    returns (got: int)
    requires want > 0 && CopiedSoFar(src, srcoffset, n, before, off, sparse, dest)
    modifies dest, dest.sys
    ensures dest.sys.failed == old(dest.sys.failed) + if got == -1 then 1 else 0
    ensures got == -1 || 0 <= got <= want
    ensures got >= 0 ==> CopiedSoFar(src, srcoffset, n + got, before, off, sparse, dest)
    ensures got == 0 ==> srcoffset + n >= |src|
    ensures got > 0 ==> srcoffset + n + got <= |src|
  {
    var buf;
    got, buf := ReadFrom(dest.sys, src, srcoffset + n, want);
    if got > 0 {
      var ok := CopyBlock(src, srcoffset, n, buf, sparse, dest, before, off);
      if !ok {
        return -1;
      }
    }
  }

  /** The source has as many bytes as were asked for. */
  predicate LongEnough(src: seq<byte>, from: nat, size: int) { size > 0 ==> from + size <= |src| }

  /**
   * The loop and what follows it.  size -1 means up to the end of the source, under the pulse
   * timer; otherwise exactly `size` bytes, with progress messages.
   */
  method CopyLoop(link: Link, src: seq<byte>, srcoffset: nat, dest: File, size0: int, sparse: bool, ghost off: nat)
    returns (r: int, ghost n: nat)
    requires !link.armed && size0 >= -1 && dest.pos == off
    modifies link, dest, dest.sys
    ensures r == 0 <==> dest.sys.failed == old(dest.sys.failed) && LongEnough(src, srcoffset, size0)
    ensures dest.sys.failed >= old(dest.sys.failed)
    ensures !link.armed && (r == 0 || r == -1)
    ensures link.errors == old(link.errors) + if r == -1 then 1 else 0
    ensures r == 0 ==> CopiedSoFar(src, srcoffset, n, old(dest.contents), off, sparse, dest)
    ensures r == 0 ==> if size0 >= 0 then n == size0 else srcoffset + n >= |src|
  {
    var size := size0;
    var count := 0;
    n := 0;
    ghost var before := dest.contents;
    NothingCopied(src, srcoffset, off, sparse, dest);
    if size == -1 {
      link.PulseModeStart();
    }
    while size != 0
      invariant link.armed <==> size0 == -1
      invariant dest.sys.failed == old(dest.sys.failed)
      invariant link.errors == old(link.errors) && 0 <= count
      invariant if size0 == -1 then size == -1 else size == size0 - count && size >= 0
      invariant CopiedSoFar(src, srcoffset, count, before, off, sparse, dest)
      decreases |src| - (srcoffset + count), size
    {
      var want := if size == -1 || size > BUFSIZ then BUFSIZ else size;
      var got := CopyNext(src, srcoffset, count, want, sparse, dest, before, off);
      if got == -1 {
        link.Fail(size == -1);
        return -1, n;
      }
      if got == 0 {
        if size == -1 {
          break;
        }
        link.ReplyWithError();             // input too short
        return -1, n;
      }
      count := count + got;
      if size != -1 {
        size := size - got;
        link.NotifyProgress(size0 - size, size0);
      }
    }
    n := count;
    if size == -1 {
      link.PulseModeEnd();
    }
    var failed := dest.sys.Fails();        // close
    if failed {
      link.ReplyWithError();
      return -1, n;
    }
    return 0, n;
  }

  datatype Options = Options(srcoffset: bool, destoffset: bool, size: bool, sparse: bool)

  /**
   * For every pattern of short reads and writes, a successful copy lays exactly the requested
   * range over the destination (an empty one if it was opened with O_TRUNC) and changes nothing
   * else: without `sparse` the new contents are the old ones with the range written over them.
   * It succeeds iff no argument is negative, no call fails (writing beyond the end of a device does)
   * and the source is long enough.  A copy that fails sends one error, and no message is ever sent
   * under the pulse timer.
   */
  method Copy(link: Link, src: seq<byte>, dest: File, opt: Options,
              srcoffset: int, destoffset: int, size: int, sparse: bool)
    returns (r: int, ghost n: nat)
    requires !link.armed
    modifies link, dest, dest.sys
    ensures r == 0 <==>
              && !((opt.srcoffset && srcoffset < 0) || (opt.destoffset && destoffset < 0) || (opt.size && size < 0))
              && dest.sys.failed == old(dest.sys.failed)
              && (opt.size ==> LongEnough(src, if opt.srcoffset then srcoffset else 0, size))
    ensures !link.armed && (r == 0 || r == -1)
    ensures link.errors == old(link.errors) + if r == -1 then 1 else 0
    ensures r == 0 ==>
              var from := if opt.srcoffset then srcoffset else 0;
              var to := if opt.destoffset then destoffset else 0;
              var before := if dest.device then old(dest.contents) else [];
              && (n == 0 || from + n <= |src|)
              && (if opt.size then n == size else from + n >= |src|)
              && Laid(before, to, Taken(src, from, n), opt.sparse && sparse, dest.contents)
              && (!(opt.sparse && sparse) ==> dest.contents == WriteAt(before, to, Taken(src, from, n)))
              && (dest.device ==> |dest.contents| == |before|)
  {
    n := 0;
    if (opt.srcoffset && srcoffset < 0) || (opt.destoffset && destoffset < 0) || (opt.size && size < 0) {
      link.ReplyWithError();
      return -1, n;
    }
    var from := if opt.srcoffset then srcoffset else 0;
    var to := if opt.destoffset then destoffset else 0;
    var failed := dest.sys.Fails();        // open both, seek in both
    if failed {
      link.ReplyWithError();
      return -1, n;
    }
    if !dest.device {
      dest.contents := [];
    }
    dest.pos := to;
    ghost var before := dest.contents;
    r, n := CopyLoop(link, src, from, dest, if opt.size then size else -1, opt.sparse && sparse, to);
    if r == 0 && !(opt.sparse && sparse) {
      LaidIsExact(before, to, Taken(src, from, n), false, dest.contents);
    }
  }
}
