/** An open file or block device, with its offset. */
module Files {
  import opened Bytes
  import opened Seqs
  import opened Faults

  /** read(2) at an offset of a file that is not being changed: an error, some bytes, or none at the end. */
  method ReadFrom(sys: System, src: seq<byte>, pos: nat, n: nat) returns (r: int, buf: seq<byte>)
    requires n > 0
    modifies sys
    ensures sys.failed == old(sys.failed) + if r == -1 then 1 else 0
    ensures r == -1 || 0 <= r <= n
    ensures r == 0 ==> pos >= |src|
    ensures r > 0 ==> pos + r <= |src| && buf == src[pos..pos + r]
  {
    var failed := sys.Fails();
    if failed {
      return -1, [];
    }
    if pos >= |src| {
      return 0, [];
    }
    r :| 1 <= r <= n && pos + r <= |src|;
    return r, src[pos..pos + r];
  }

  /** The first n bytes from offset `from` on. */
  function Taken(src: seq<byte>, from: nat, n: nat): (s: seq<byte>)
    requires n == 0 || from + n <= |src|
    ensures |s| == n
  {
    if n == 0 then [] else src[from..from + n]
  }

  lemma {:induction false} TakenNext(src: seq<byte>, from: nat, n: nat, buf: seq<byte>)
    requires from + n + |buf| <= |src| && buf == src[from + n..from + n + |buf|]
    ensures Taken(src, from, n) + buf == Taken(src, from, n + |buf|)
  {
    SliceThen(src, from, from + n, from + n + |buf|);
  }

  class File {
    const device: bool
    var contents: seq<byte>
    var pos: nat
    const sys: System

    constructor (sys: System, device: bool, initial: seq<byte>)
      ensures this.sys == sys && this.device == device && contents == initial && pos == 0
    {
      this.sys, this.device := sys, device;
      contents, pos := initial, 0;
    }

    /** write(2): fails, or writes any non-empty prefix; a device does not grow. */
    method Write(buf: seq<byte>) returns (n: int)
      requires buf != []
      modifies this, sys
      ensures sys.failed == old(sys.failed) + if n == -1 then 1 else 0
      ensures n == -1 || 1 <= n <= |buf|
      ensures n == -1 ==> contents == old(contents) && pos == old(pos)
      ensures n != -1 ==> contents == WriteAt(old(contents), old(pos), buf[..n]) && pos == old(pos) + n
      ensures device ==> |contents| == |old(contents)|
    {
      var failed := sys.Fails();
      if failed {
        return -1;
      }
      if device && pos >= |contents| {
        sys.failed := sys.failed + 1;
        return -1;
      }
      n :| 1 <= n <= |buf| && (device ==> pos + n <= |contents|);
      WriteAtBytes(contents, pos, buf[..n]);
      contents := WriteAt(contents, pos, buf[..n]);
      pos := pos + n;
    }

    /** xwrite: everything, or failure after some prefix. */
    method XWrite(buf: seq<byte>) returns (ok: bool, ghost done: nat)
      modifies this, sys
      ensures sys.failed == old(sys.failed) + if ok then 0 else 1
      ensures done <= |buf| && (ok ==> done == |buf|)
      ensures contents == WriteAt(old(contents), old(pos), buf[..done]) && pos == old(pos) + done
      ensures device ==> |contents| == |old(contents)|
    {
      var i := 0;
      while i < |buf|
        invariant 0 <= i <= |buf| && sys.failed == old(sys.failed)
        invariant contents == WriteAt(old(contents), old(pos), buf[..i]) && pos == old(pos) + i
        invariant device ==> |contents| == |old(contents)|
      {
        var n := Write(buf[i..]);
        if n == -1 {
          return false, i;
        }
        WriteAtAppend(old(contents), old(pos), buf[..i], buf[i..][..n]);
        TakeThen(buf, i, n);
        i := i + n;
      }
      return true, i;
    }

    /** Since the file was f0 with the offset at p0, `stored` has been written. */
    ghost predicate Holds(f0: seq<byte>, p0: nat, stored: seq<byte>)
      reads this
    {
      contents == WriteAt(f0, p0, stored) && pos == p0 + |stored|
    }

    method Append(buf: seq<byte>, ghost f0: seq<byte>, ghost p0: nat, ghost stored: seq<byte>)
      returns (ok: bool, ghost done: nat)
      requires Holds(f0, p0, stored)
      modifies this, sys
      ensures sys.failed == old(sys.failed) + if ok then 0 else 1
      ensures done <= |buf| && (ok ==> done == |buf|)
      ensures Holds(f0, p0, stored + buf[..done])
    {
      ok, done := XWrite(buf);
      WriteAtAppend(f0, p0, stored, buf[..done]);
    }
  }
}
