/**
 * Running a guest command: bind mounts and the resolver configuration are set up
 * before and must be gone afterwards, on every way out.
 */
module Command {
  import opened Wrappers
  import opened Seqs
  import opened Mounts
  import opened Faults

  /** What each bind mount shows, and where in the guest. */
  const BINDS: seq<(string, string)> := [
    ("/dev", "/dev"), ("/dev/pts", "/dev/pts"), ("/proc", "/proc"),
    ("/sys/fs/selinux", "/selinux"), ("/sys", "/sys"), ("/sys/fs/selinux", "/sys/fs/selinux")]

  function BindOf(sysroot: string, k: nat): Mount
    requires k < |BINDS|
  {
    Mount(BINDS[k].0, sysroot + BINDS[k].1)
  }

  /** The mounts made by those of the first n binds that succeeded. */
  function Bound(sysroot: string, ok: seq<bool>, n: nat): seq<Mount>
    requires n <= |BINDS| && n <= |ok|
  {
    if n == 0 then [] else Bound(sysroot, ok, n - 1) + if ok[n - 1] then [BindOf(sysroot, n - 1)] else []
  }

  lemma {:induction false} BoundDependsOnPrefix(sysroot: string, ok: seq<bool>, ok': seq<bool>, n: nat)
    requires n <= |BINDS| && n <= |ok| && n <= |ok'| && ok[..n] == ok'[..n]
    ensures Bound(sysroot, ok, n) == Bound(sysroot, ok', n)
  {
    if n > 0 {
      assert ok[n - 1] == ok[..n][n - 1] && ok'[n - 1] == ok'[..n][n - 1];
      assert ok[..n - 1] == ok[..n][..n - 1] && ok'[..n - 1] == ok'[..n][..n - 1];
      BoundDependsOnPrefix(sysroot, ok, ok', n - 1);
    }
  }

  /** How many of the first n binds failed. */
  function Misses(ok: seq<bool>, n: nat): nat
    requires n <= |ok|
  {
    if n == 0 then 0 else Misses(ok, n - 1) + if ok[n - 1] then 0 else 1
  }

  lemma {:induction false} NoMisses(ok: seq<bool>, n: nat)
    requires n <= |ok| && Misses(ok, n) == 0
    ensures forall k :: 0 <= k < n ==> ok[k]
  {
    if n > 0 {
      NoMisses(ok, n - 1);
    }
  }

  lemma {:induction false} MissesDependOnPrefix(ok: seq<bool>, ok': seq<bool>, n: nat)
    requires n <= |ok| && n <= |ok'| && forall k :: 0 <= k < n ==> ok[k] == ok'[k]
    ensures Misses(ok, n) == Misses(ok', n)
  {
    if n > 0 {
      MissesDependOnPrefix(ok, ok', n - 1);
    }
  }

  class BindState {
    var mounted: bool
    var ok: seq<bool>           // dev_ok, dev_pts_ok, proc_ok, selinux_ok, sys_ok, sys_fs_selinux_ok

    constructor ()
      ensures !mounted && |ok| == |BINDS|
    {
      mounted, ok := false, seq(|BINDS|, _ => false);
    }

    /** Try one bind; its flag remembers whether to undo it. */
    method Bind(sys: System, table: Table, sysroot: string, k: nat, ghost base: seq<Mount>)
      requires k < |BINDS| == |ok| && table.mounts == base + Bound(sysroot, ok, k)
      modifies this`ok, table, sys
      ensures |ok| == |BINDS| && sys.failed - old(sys.failed) == Misses(ok, k + 1) - old(Misses(ok, k))
      ensures |ok| == |BINDS| && table.mounts == base + Bound(sysroot, ok, k + 1)
    {
      var done := table.BindMount(sys, BINDS[k].0, sysroot + BINDS[k].1);
      ghost var was := ok;
      ok := ok[k := done];
      BoundDependsOnPrefix(sysroot, was, ok, k);
      MissesDependOnPrefix(was, ok, k);
      Concat(base, Bound(sysroot, ok, k), if done then [BindOf(sysroot, k)] else []);
      assert base + Bound(sysroot, ok, k) + [] == base + Bound(sysroot, ok, k);
    }

    /**
     * bind_mount: -1 exactly when out of memory, before anything was mounted; otherwise a flag is clear
     * exactly for each mount that failed.
     */
    method BindMount(sys: System, table: Table, sysroot: string) returns (r: int)
      requires |ok| == |BINDS| && !mounted
      modifies this, table, sys
      ensures r == -1 ==> sys.failed == old(sys.failed) + 1
      ensures |ok| == |BINDS| && (r == 0 ==> sys.failed == old(sys.failed) + Misses(ok, |BINDS|))
      ensures |ok| == |BINDS| && (r == 0 || r == -1)
      ensures r == -1 ==> !mounted && table.mounts == old(table.mounts)
      ensures r == 0 ==> mounted && table.mounts == old(table.mounts) + Bound(sysroot, ok, |BINDS|)
    {
      ok := seq(|BINDS|, _ => false);
      var failed := sys.Fails();
      if failed {
        return -1;
      }
      ghost var base := table.mounts;
      assert base + [] == base;
      Bind(sys, table, sysroot, 0, base);
      Bind(sys, table, sysroot, 1, base);
      Bind(sys, table, sysroot, 2, base);
      Bind(sys, table, sysroot, 3, base);
      Bind(sys, table, sysroot, 4, base);
      Bind(sys, table, sysroot, 5, base);
      mounted := true;
      return 0;
    }

    /** Undo one bind if it was made; nothing newer is mounted, so umount cannot be refused. */
    method Unbind(table: Table, sysroot: string, k: nat, ghost base: seq<Mount>)
      requires k < |BINDS| == |ok| && table.mounts == base + Bound(sysroot, ok, k + 1)
      modifies table
      ensures table.mounts == base + Bound(sysroot, ok, k)
    {
      ghost var rest := base + Bound(sysroot, ok, k);
      if ok[k] {
        Concat(base, Bound(sysroot, ok, k), [BindOf(sysroot, k)]);
        NewestComesOff(rest, BindOf(sysroot, k));
        var done := table.UmountTop(sysroot + BINDS[k].1);
      }
    }

    /** free_bind_state, also run as a cleanup handler; the second run does nothing. */
    method Free(table: Table, sysroot: string, ghost base: seq<Mount>)
      requires |ok| == |BINDS| && (mounted ==> table.mounts == base + Bound(sysroot, ok, |BINDS|))
      modifies this`mounted, table
      ensures !mounted
      ensures table.mounts == if old(mounted) then base else old(table.mounts)
    {
      if mounted {
        Unbind(table, sysroot, 5, base);
        Unbind(table, sysroot, 4, base);
        Unbind(table, sysroot, 3, base);
        Unbind(table, sysroot, 2, base);
        Unbind(table, sysroot, 1, base);
        Unbind(table, sysroot, 0, base);
        assert base + [] == base;
        mounted := false;
      }
    }
  }

  // ---------- /etc/resolv.conf

  /** A file, a dangling symbolic link, or whatever else a name can stand for. */
  datatype Entry = Entry(contents: string, symlink: bool)

  class GuestFiles {
    var names: map<string, Entry>

    constructor (initial: map<string, Entry>)
      ensures names == initial
    {
      names := initial;
    }

    method Rename(sys: System, from: string, to: string) returns (ok: bool)
      requires from in names
      modifies this, sys
      ensures sys.failed == old(sys.failed) + if ok then 0 else 1
      ensures ok ==> names == (old(names) - {from})[to := old(names)[from]]
      ensures !ok ==> names == old(names)
    {
      var failed := sys.Fails();
      ok := !failed;
      if ok {
        names := (names - {from})[to := names[from]];
      }
    }

    /** cp onto a name that is free: all of the file, or if it fails nothing or any part. */
    method Copy(sys: System, contents: string, to: string)
      modifies this, sys
      ensures names - {to} == old(names) - {to}
      ensures sys.failed == old(sys.failed) || sys.failed == old(sys.failed) + 1
      ensures sys.failed == old(sys.failed) ==> names == old(names)[to := Entry(contents, false)]
    {
      var failed := sys.Fails();
      if !failed {
        names := names[to := Entry(contents, false)];
      } else if * {
        var c: string := *;
        names := names[to := Entry(c, false)];
      }
    }

    /** unlink succeeds on a name that exists. */
    method Unlink(path: string)
      modifies this
      ensures names == old(names) - {path}
    {
      names := names - {path};
    }

    /** The restoring rename: assumed to succeed. */
    method RenameBack(from: string, to: string)
      requires from in names
      modifies this
      ensures names == (old(names) - {from})[to := old(names)[from]]
    {
      names := (names - {from})[to := names[from]];
    }
  }

  /** Names hold `orig` except that resolv.conf may have been moved to its backup name and replaced. */
  ghost predicate SetAside(names: map<string, Entry>, orig: map<string, Entry>, conf: string, backup: Option<string>) {
    match backup
    case None => conf !in orig && names - {conf} == orig
    case Some(b) =>
      && b != conf && conf in orig && b !in orig && b in names && names[b] == orig[conf]
      && names - {conf, b} == orig - {conf}
  }

  class ResolverState {
    var mounted: bool
    var backup: Option<string>

    constructor ()
      ensures !mounted
    {
      mounted, backup := false, None;
    }

    /**
     * set_up_etc_resolv_conf; `random` is the name it draws for the backup and `appliance` the contents
     * of the appliance's own file.
     */
    method SetUp(sys: System, fs: GuestFiles, conf: string, random: string, appliance: string) returns (r: int)
      requires !mounted && random !in fs.names && random != conf
      modifies this, fs, sys
      ensures r == 0 || r == -1
      ensures sys.failed >= old(sys.failed)
      ensures r == -1 ==> sys.failed > old(sys.failed)
      ensures sys.failed == old(sys.failed) ==> conf in fs.names && fs.names[conf] == Entry(appliance, false)
      ensures r == -1 ==> !mounted && fs.names == old(fs.names)
      ensures r == 0 ==> mounted && SetAside(fs.names, old(fs.names), conf, backup)
    {
      backup := None;
      var failed := sys.Fails();           // sysroot_path
      if failed {
        return -1;
      }
      ghost var orig := fs.names;
      if conf in fs.names {
        failed := sys.Fails();             // random_name or strdup
        if failed {
          return -1;
        }
        backup := Some(random);
        var renamed := fs.Rename(sys, conf, random);
        if !renamed {
          return -1;
        }
        assert fs.names - {conf, random} == orig - {conf};
      } else {
        assert orig - {conf} == orig;
      }
      ghost var mid := fs.names;
      fs.Copy(sys, appliance, conf);
      CopyKeepsAside(mid, fs.names, orig, conf, backup);
      mounted := true;
      return 0;
    }

    /** free_resolver_state, also run as a cleanup handler; the second run does nothing. */
    method Free(fs: GuestFiles, conf: string, ghost orig: map<string, Entry>)
      requires mounted ==> SetAside(fs.names, orig, conf, backup)
      modifies this`mounted, fs
      ensures !mounted
      ensures fs.names == if old(mounted) then orig else old(fs.names)
    {
      if mounted {
        match backup {
          case Some(b) => RestoreIsExact(fs.names, orig, conf, b);
          case None =>
        }
        fs.Unlink(conf);
        if backup.Some? {
          fs.RenameBack(backup.value, conf);
        }
        mounted := false;
      }
    }
  }

  lemma {:induction false} RestoreIsExact(names: map<string, Entry>, orig: map<string, Entry>, conf: string, b: string)
    requires SetAside(names, orig, conf, Some(b))
    ensures b in names - {conf}
    ensures (names - {conf} - {b})[conf := (names - {conf})[b]] == orig
  {
    assert names - {conf} - {b} == names - {conf, b};
    assert (orig - {conf})[conf := orig[conf]] == orig;
  }

  lemma {:induction false} CopyKeepsAside(before: map<string, Entry>, after: map<string, Entry>, orig: map<string,
                                          Entry>, conf: string,
                                          backup: Option<string>)
    requires SetAside(before, orig, conf, backup) && after - {conf} == before - {conf}
    ensures SetAside(after, orig, conf, backup)
  {
    if backup.Some? {
      var b := backup.value;
      assert b in before - {conf};
      assert after - {conf, b} == (after - {conf}) - {b};
      assert before - {conf, b} == (before - {conf}) - {b};
    }
  }

  /** What the guest command finds when it runs: the mount table, which binds were made, and the guest's files. */
  datatype Sight = Sight(mounts: seq<Mount>, ok: seq<bool>, names: map<string, Entry>)

  /** All six binds, and the appliance's resolver configuration if the network is enabled. */
  ghost predicate SeesAll(seen: Sight, sysroot: string, network: bool, appliance: string) {
    && |seen.ok| == |BINDS| && (forall k :: 0 <= k < |BINDS| ==> seen.ok[k])
    && (network ==>
          var conf := sysroot + "/etc/resolv.conf";
          conf in seen.names && seen.names[conf] == Entry(appliance, false))
  }

  /**
   * Whatever fails, and on success, every exit leaves the mount table and the guest's files
   * exactly as they were; while the command runs it sees the binds that could be made.  If nothing
   * fails the command is run with all binds and the resolver configuration in place, and 0 is
   * returned.
   */
  method DoCommand(sys: System, table: Table, fs: GuestFiles, sysroot: string, rootMounted: bool, argv: seq<string>,
                   network: bool, random: string, appliance: string)
    returns (r: int, ghost ran: bool, ghost seen: Sight)
    requires random !in fs.names && random != sysroot + "/etc/resolv.conf"
    modifies table, fs, sys
    ensures table.mounts == old(table.mounts) && fs.names == old(fs.names)
    ensures r == 0 ==> ran
    ensures ran ==> rootMounted && argv != []
    ensures ran ==> |seen.ok| == |BINDS| && seen.mounts == old(table.mounts) + Bound(sysroot, seen.ok, |BINDS|)
    ensures rootMounted && argv != [] && sys.failed == old(sys.failed) ==>
              r == 0 && SeesAll(seen, sysroot, network, appliance)
    ensures sys.failed >= old(sys.failed)
  {
    var bs := new BindState();
    var rs := new ResolverState();
    ghost var base, orig := table.mounts, fs.names;
    var conf := sysroot + "/etc/resolv.conf";
    r, ran, seen := -1, false, Sight([], [], map[]);
    if !rootMounted || argv == [] {
      Cleanup(bs, rs, table, fs, sysroot, conf, base, orig);
      return;
    }
    var e := bs.BindMount(sys, table, sysroot);
    if e == -1 {
      Cleanup(bs, rs, table, fs, sysroot, conf, base, orig);
      return;
    }
    if network {
      e := rs.SetUp(sys, fs, conf, random, appliance);
      if e == -1 {
        Cleanup(bs, rs, table, fs, sysroot, conf, base, orig);
        return;
      }
    }
    ran, seen := true, Sight(table.mounts, bs.ok, fs.names);
    if sys.failed == old(sys.failed) {
      NoMisses(bs.ok, |BINDS|);
    }
    var failed := sys.Fails();             // the command itself, which alters neither
    bs.Free(table, sysroot, base);
    rs.Free(fs, conf, orig);
    if failed {
      Cleanup(bs, rs, table, fs, sysroot, conf, base, orig);
      return;
    }
    r := 0;
    Cleanup(bs, rs, table, fs, sysroot, conf, base, orig);
  }

  /** The handlers that run when do_command's variables go out of scope. */
  method Cleanup(bs: BindState, rs: ResolverState, table: Table, fs: GuestFiles, sysroot: string, conf: string,
                 ghost base: seq<Mount>, ghost orig: map<string, Entry>)
    requires |bs.ok| == |BINDS|
    requires if bs.mounted then table.mounts == base + Bound(sysroot, bs.ok, |BINDS|) else table.mounts == base
    requires if rs.mounted then SetAside(fs.names, orig, conf, rs.backup) else fs.names == orig
    modifies bs`mounted, rs`mounted, table, fs
    ensures table.mounts == base && fs.names == orig
  {
    rs.Free(fs, conf, orig);
    bs.Free(table, sysroot, base);
  }
}
