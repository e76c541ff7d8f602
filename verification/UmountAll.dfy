/** `do_umount_all`: unmount everything at or under the sysroot, longest path first. */
module UmountAll {
  import opened Seqs
  import opened Sort
  import opened Mounts

  /** The two tests made on every line of /proc/mounts. */
  predicate Selected(sysroot: string, dir: string) {
    || (|sysroot| > 0 && dir == sysroot)
    || (sysroot <= dir && |dir| > |sysroot| && dir[|sysroot|] == '/')
  }

  /** compare_longest_first (a, b) <= 0 */
  predicate LongestFirst(a: string, b: string) { |b| - |a| <= 0 }

  function Dirs(sysroot: string, t: seq<Mount>): seq<string> {
    if t == [] then []
    else Dirs(sysroot, t[..|t| - 1]) + if Selected(sysroot, t[|t| - 1].dir) then [t[|t| - 1].dir] else []
  }

  function Others(sysroot: string, t: seq<Mount>): seq<Mount> {
    if t == [] then []
    else Others(sysroot, t[..|t| - 1]) + if Selected(sysroot, t[|t| - 1].dir) then [] else [t[|t| - 1]]
  }

  lemma {:induction false} DirsAppend(sysroot: string, a: seq<Mount>, b: seq<Mount>)
    ensures Dirs(sysroot, a + b) == Dirs(sysroot, a) + Dirs(sysroot, b)
    ensures Others(sysroot, a + b) == Others(sysroot, a) + Others(sysroot, b)
  {
    if b == [] {
      assert a + b == a;
    } else {
      var n := |b| - 1;
      DirsAppend(sysroot, a, b[..n]);
      LastOfAppend(a, b);
    }
  }

  lemma {:induction false} LastOfAppend<T>(a: seq<T>, b: seq<T>)
    requires b != []
    ensures (a + b)[..|a + b| - 1] == a + b[..|b| - 1] && (a + b)[|a + b| - 1] == b[|b| - 1]
  {
  }

  lemma {:induction false} DirsHas(sysroot: string, t: seq<Mount>, k: nat)
    requires k < |t| && Selected(sysroot, t[k].dir)
    ensures t[k].dir in Dirs(sysroot, t)
  {
    var n := |t| - 1;
    if k < n {
      DirsHas(sysroot, t[..n], k);
    }
  }

  lemma {:induction false} DirsFrom(sysroot: string, t: seq<Mount>, dir: string)
    requires dir in Dirs(sysroot, t)
    ensures Selected(sysroot, dir) && MountedAt(t, dir)
  {
    var n := |t| - 1;
    if t[n].dir != dir || !Selected(sysroot, t[n].dir) {
      DirsFrom(sysroot, t[..n], dir);
      var k :| 0 <= k < n && t[..n][k].dir == dir;
      assert t[k].dir == dir;
    }
  }

  lemma {:induction false} NoDirsLeft(sysroot: string, t: seq<Mount>)
    requires Dirs(sysroot, t) == []
    ensures Others(sysroot, t) == t
    ensures forall k :: 0 <= k < |t| ==> !Selected(sysroot, t[k].dir)
  {
    if t != [] {
      var n := |t| - 1;
      assert !Selected(sysroot, t[n].dir) && Dirs(sysroot, t[..n]) == [];
      NoDirsLeft(sysroot, t[..n]);
      SplitAt(t, n);
      forall k | 0 <= k < |t| ensures !Selected(sysroot, t[k].dir) {
        if k < n {
          assert t[..n][k] == t[k];
        }
      }
    }
  }

  /** The appliance uses "/sysroot", or "" when the daemon serves a live system. */
  predicate GoodSysroot(sysroot: string) { sysroot == "" || sysroot[|sysroot| - 1] != '/' }

  /** The two tests find exactly what is mounted on the sysroot or beneath it. */
  lemma {:induction false} SelectedExactly(sysroot: string, dir: string)
    requires GoodSysroot(sysroot)
    ensures Selected(sysroot, dir) <==> (dir == sysroot && sysroot != "") || Beneath(dir, sysroot)
  {
  }

  /** Whatever is beneath a selected path is selected itself. */
  lemma {:induction false} BeneathIsSelected(sysroot: string, c: string, p: string)
    requires GoodSysroot(sysroot) && Selected(sysroot, p) && Beneath(c, p)
    ensures Selected(sysroot, c)
  {
    assert c[..|p|] == p;
    if p == sysroot {
      assert c[|sysroot|] == '/';
    } else {
      assert c[|sysroot|] == p[|sysroot|];
      assert c[..|sysroot|] == p[..|sysroot|];
    }
  }

  lemma {:induction false} DirsOne(sysroot: string, m: Mount)
    requires Selected(sysroot, m.dir)
    ensures Dirs(sysroot, [m]) == [m.dir] && Others(sysroot, [m]) == []
  {
    assert [m][..0] == [];
  }

  lemma {:induction false} MultisetMiddle<T>(x: seq<T>, d: T, y: seq<T>)
    ensures multiset(x + [d] + y) == multiset(x + y) + multiset{d}
  {
  }

  /** Popping a selected path takes exactly one directory off the list and no other mount. */
  lemma {:induction false} PopSelected(sysroot: string, t: seq<Mount>, dir: string)
    requires Selected(sysroot, dir) && MountedAt(t, dir)
    ensures multiset(Dirs(sysroot, t)) == multiset(Dirs(sysroot, Pop(t, dir))) + multiset{dir}
    ensures Others(sysroot, Pop(t, dir)) == Others(sysroot, t)
  {
    var k := PopRemovesOne(t, dir);
    SplitAt(t, k);
    RemoveSelected(sysroot, t[..k], t[k], t[k + 1..]);
  }

  lemma {:induction false} RemoveSelected(sysroot: string, a: seq<Mount>, m: Mount, b: seq<Mount>)
    requires Selected(sysroot, m.dir)
    ensures multiset(Dirs(sysroot, a + [m] + b)) == multiset(Dirs(sysroot, a + b)) + multiset{m.dir}
    ensures Others(sysroot, a + [m] + b) == Others(sysroot, a + b)
  {
    DirsAppend(sysroot, a + [m], b);
    DirsAppend(sysroot, a, [m]);
    DirsAppend(sysroot, a, b);
    DirsOne(sysroot, m);
    MultisetMiddle(Dirs(sysroot, a), m.dir, Dirs(sysroot, b));
    assert Others(sysroot, a) + [] == Others(sysroot, a);
  }

  /** The paths still to unmount, longest first, are exactly the selected mounts that are left. */
  ghost predicate Pending(sysroot: string, t: seq<Mount>, todo: seq<string>) {
    multiset(todo) == multiset(Dirs(sysroot, t)) && Sorted(todo, LongestFirst)
  }

  lemma {:induction false} BeneathIsListed(sysroot: string, t: seq<Mount>, todo: seq<string>, k: nat,
                                           p: string) returns (j: nat)
    requires GoodSysroot(sysroot) && Pending(sysroot, t, todo)
    requires k < |t| && Selected(sysroot, p) && Beneath(t[k].dir, p)
    ensures j < |todo| && |todo[j]| > |p|
  {
    BeneathIsSelected(sysroot, t[k].dir, p);
    DirsHas(sysroot, t, k);
    PermutationHasSameElements(todo, Dirs(sysroot, t), t[k].dir);
    j :| 0 <= j < |todo| && todo[j] == t[k].dir;
  }

  /** At the head of such a list an umount cannot be refused. */
  lemma {:induction false} LongestIsFree(sysroot: string, t: seq<Mount>, todo: seq<string>)
    requires GoodSysroot(sysroot) && todo != [] && Pending(sysroot, t, todo)
    ensures Selected(sysroot, todo[0]) && MountedAt(t, todo[0]) && !Busy(t, todo[0])
  {
    PermutationHasSameElements(todo, Dirs(sysroot, t), todo[0]);
    DirsFrom(sysroot, t, todo[0]);
    forall j | 0 <= j < |todo| ensures |todo[j]| <= |todo[0]| {
      assert j == 0 || LongestFirst(todo[0], todo[j]);
    }
    if Busy(t, todo[0]) {
      var k :| 0 <= k < |t| && Beneath(t[k].dir, todo[0]);
      var j := BeneathIsListed(sysroot, t, todo, k, todo[0]);
    }
  }

  lemma {:induction false} PopHead(sysroot: string, t: seq<Mount>, todo: seq<string>)
    requires GoodSysroot(sysroot) && todo != [] && Pending(sysroot, t, todo)
    ensures Pending(sysroot, Pop(t, todo[0]), todo[1..])
    ensures Others(sysroot, Pop(t, todo[0])) == Others(sysroot, t)
  {
    LongestIsFree(sysroot, t, todo);
    PopSelected(sysroot, t, todo[0]);
    TailOf(todo, multiset(Dirs(sysroot, Pop(t, todo[0]))), LongestFirst);
  }

  lemma {:induction false} TailOf<T>(s: seq<T>, m: multiset<T>, le: (T, T) -> bool)
    requires s != [] && multiset(s) == m + multiset{s[0]} && Sorted(s, le)
    ensures multiset(s[1..]) == m && Sorted(s[1..], le)
  {
    TailMultiset(s);
    assert m + multiset{s[0]} - multiset{s[0]} == m;
  }

  lemma {:induction false} NothingPending(sysroot: string, t: seq<Mount>)
    requires Pending(sysroot, t, [])
    ensures Others(sysroot, t) == t && forall k :: 0 <= k < |t| ==> !Selected(sysroot, t[k].dir)
  {
    var d := Dirs(sysroot, t);
    assert |multiset(d)| == |d| == 0;
    NoDirsLeft(sysroot, t);
  }

  lemma {:induction false} LongestFirstOrder()
    ensures TotalPreorder(LongestFirst)
  {
  }

  /**
   * For every mount table, duplicates included, and every order that qsort may give to paths
   * of equal length: no umount fails, nothing is left at or under the sysroot, and all other
   * mounts are as before, in order.
   */
  method DoUmountAll(table: Table, sysroot: string) returns (r: int)
    requires GoodSysroot(sysroot)
    modifies table
    ensures r == 0
    ensures table.mounts == Others(sysroot, old(table.mounts))
    ensures forall k :: 0 <= k < |table.mounts| ==> !Selected(sysroot, table.mounts[k].dir)
    ensures !Busy(table.mounts, sysroot) && (sysroot != "" ==> !MountedAt(table.mounts, sysroot))
  {
    var dirs := Collect(table.mounts, sysroot);
    var todo := QSort(dirs);
    var i := 0;
    ghost var left := todo;
    while i < |todo|
      invariant 0 <= i <= |todo| && left == todo[i..]
      invariant Pending(sysroot, table.mounts, left)
      invariant Others(sysroot, table.mounts) == Others(sysroot, old(table.mounts))
    {
      LongestIsFree(sysroot, table.mounts, left);
      PopHead(sysroot, table.mounts, left);
      var ok := table.Umount(todo[i]);
      if !ok {
        return -1;
      }
      i, left := i + 1, left[1..];
    }
    NothingPending(sysroot, table.mounts);
    forall k | 0 <= k < |table.mounts|
      ensures !Beneath(table.mounts[k].dir, sysroot) && (sysroot != "" ==> table.mounts[k].dir != sysroot)
    {
      SelectedExactly(sysroot, table.mounts[k].dir);
    }
    return 0;
  }

  /** The loop over /proc/mounts. */
  method Collect(t: seq<Mount>, sysroot: string) returns (dirs: seq<string>)
    ensures dirs == Dirs(sysroot, t)
  {
    dirs := [];
    for i := 0 to |t|
      invariant dirs == Dirs(sysroot, t[..i])
    {
      assert t[..i + 1][..i] == t[..i];
      var dir := t[i].dir;
      if |sysroot| > 0 && dir == sysroot {
        dirs := dirs + [dir];
      }
      if sysroot <= dir && |dir| > |sysroot| && dir[|sysroot|] == '/' {
        dirs := dirs + [dir];
      }
    }
    assert t[..|t|] == t;
  }

  /** qsort with compare_longest_first. */
  method QSort(s: seq<string>) returns (t: seq<string>)
    ensures SortOf(s, t, LongestFirst)
  {
    LongestFirstOrder();
    SortIsSort(s, LongestFirst);
    t := Sort.Sort(s, LongestFirst);
  }
}
