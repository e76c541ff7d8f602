/** The kernel's mount table, newest mount last. */
module Mounts {
  import opened Faults

  datatype Mount = Mount(fsname: string, dir: string)

  /** Path c lies strictly beneath directory p. */
  predicate Beneath(c: string, p: string) {
    |c| > |p| && p <= c && ((p != "" && p[|p| - 1] == '/') || c[|p|] == '/')
  }

  predicate Busy(t: seq<Mount>, path: string) {
    exists k :: 0 <= k < |t| && Beneath(t[k].dir, path)
  }

  predicate MountedAt(t: seq<Mount>, path: string) {
    exists k :: 0 <= k < |t| && t[k].dir == path
  }

  /** The table without the newest mount on `path`. */
  function Pop(t: seq<Mount>, path: string): (r: seq<Mount>)
    ensures |r| <= |t|
  {
    if t == [] then []
    else
      var n := |t| - 1;
      if t[n].dir == path then t[..n] else Pop(t[..n], path) + [t[n]]
  }

  /** What pop removes, and that it removes nothing else. */
  lemma {:induction false} PopRemovesOne(t: seq<Mount>, path: string) returns (k: nat)
    requires MountedAt(t, path)
    ensures k < |t| && t[k].dir == path && Pop(t, path) == t[..k] + t[k + 1..]
    ensures forall j :: k < j < |t| ==> t[j].dir != path
  {
    var n := |t| - 1;
    if t[n].dir == path {
      k := n;
      assert t[..n] + t[n + 1..] == t[..n];
    } else {
      var j :| 0 <= j < |t| && t[j].dir == path;
      assert t[..n][j] == t[j];
      k := PopRemovesOne(t[..n], path);
      WithoutOne(t, k);
      forall j | k < j < |t| ensures t[j].dir != path {
        if j < n {
          assert t[..n][j] == t[j];
        }
      }
    }
  }

  /** Leaving out element k before or after the last element is added is the same. */
  lemma {:induction false} WithoutOne<T>(t: seq<T>, k: nat)
    requires k < |t| - 1
    ensures var n := |t| - 1;
            t[..n][..k] + t[..n][k + 1..] + [t[n]] == t[..k] + t[k + 1..]
  {
  }

  /** Something was mounted beneath the newest mount on `path` after it. */
  predicate Covered(t: seq<Mount>, path: string) {
    t != [] &&
    var n := |t| - 1;
    t[n].dir != path && (Beneath(t[n].dir, path) || Covered(t[..n], path))
  }

  lemma {:induction false} NewestComesOff(t: seq<Mount>, m: Mount)
    ensures MountedAt(t + [m], m.dir) && !Covered(t + [m], m.dir) && Pop(t + [m], m.dir) == t
  {
    var s := t + [m];
    assert s[|t|] == m && s[..|t|] == t;
  }

  class Table {
    var mounts: seq<Mount>

    constructor (initial: seq<Mount>)
      ensures mounts == initial
    {
      mounts := initial;
    }

    /** umount(8): refused exactly when nothing is mounted there or something is mounted beneath. */
    method Umount(path: string) returns (ok: bool)
      modifies this
      ensures ok <==> MountedAt(old(mounts), path) && !Busy(old(mounts), path)
      ensures mounts == if ok then Pop(old(mounts), path) else old(mounts)
    {
      ok := MountedAt(mounts, path) && !Busy(mounts, path);
      if ok {
        mounts := Pop(mounts, path);
      }
    }

    /** The same when the table may hide mounts under newer ones: only newer mounts can be on top. */
    method UmountTop(path: string) returns (ok: bool)
      modifies this
      ensures ok <==> MountedAt(old(mounts), path) && !Covered(old(mounts), path)
      ensures mounts == if ok then Pop(old(mounts), path) else old(mounts)
    {
      ok := MountedAt(mounts, path) && !Covered(mounts, path);
      if ok {
        mounts := Pop(mounts, path);
      }
    }

    /** mount --bind: may fail. */
    method BindMount(sys: System, source: string, path: string) returns (ok: bool)
      modifies this, sys
      ensures sys.failed == old(sys.failed) + if ok then 0 else 1
      ensures mounts == if ok then old(mounts) + [Mount(source, path)] else old(mounts)
    {
      var failed := sys.Fails();
      ok := !failed;
      if ok {
        mounts := mounts + [Mount(source, path)];
      }
    }
  }
}
