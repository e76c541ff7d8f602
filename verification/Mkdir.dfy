/** `recursive_mkdir` on a tree without symbolic links. */
module Mkdir {

  datatype Kind = Dir | Other

  /** Everything below the root, by absolute path. */
  type Tree = map<string, Kind>

  // ---------- paths

  /** strrchr: where the last component starts. */
  function LastSlash(s: string): (n: nat)
    requires '/' in s
    ensures n < |s| && s[n] == '/' && '/' !in s[n + 1..]
  {
    if s[|s| - 1] == '/' then |s| - 1
    else
      var n := LastSlash(s[..|s| - 1]);
      assert s[n + 1..] == s[..|s| - 1][n + 1..] + [s[|s| - 1]];
      n
  }

  /** An absolute path without empty components or a final slash; the root is "/". */
  predicate Normal(s: string) {
    s == "/" || Below(s)
  }

  predicate Below(s: string) {
    && |s| >= 2 && s[0] == '/' && s[|s| - 1] != '/'
    && forall i :: 0 <= i < |s| - 1 ==> !(s[i] == '/' && s[i + 1] == '/')
  }

  /** The path cut at its last slash; what is left of "/a" is the empty string, which stands for the root here. */
  function Parent(s: string): (p: string)
    requires Below(s)
    ensures |p| < |s| && (p == "" || Below(p))
  {
    s[..LastSlash(s)]
  }

  /** The path and its proper ancestors below the root, outermost first. */
  function Chain(s: string): seq<string>
    requires s == "" || Below(s)
    decreases |s|
  {
    if s == "" then [] else Chain(Parent(s)) + [s]
  }

  // ---------- the kernel

  datatype Found = IsDir | NotDir | Missing

  /** Path resolution: a missing component is ENOENT, a component that is no directory is ENOTDIR. */
  function Lookup(t: Tree, s: string): Found
    requires s == "" || Below(s)
    decreases |s|
  {
    if s == "" then IsDir
    else
      match Lookup(t, Parent(s))
      case Missing => Missing
      case NotDir => NotDir
      case IsDir => if s !in t then Missing else if t[s] == Dir then IsDir else NotDir
  }

  /** Every node hangs off a directory. */
  predicate IsTree(t: Tree) {
    forall s :: s in t ==> Below(s) && Lookup(t, Parent(s)) == IsDir
  }

  datatype Errno = Ok | EEXIST | ENOENT | ENOTDIR | OtherError

  class Kernel {
    var tree: Tree
    ghost var denied: nat       // how often mkdir failed for a reason of its own (permissions, space, ...)

    constructor (t: Tree)
      ensures tree == t
    {
      tree, denied := t, 0;
    }

    method Mkdir(path: string) returns (e: Errno)
      requires Normal(path)
      modifies this
      ensures e == Ok ==> Below(path) && path !in old(tree) && Lookup(old(tree), Parent(path)) == IsDir
      ensures e == Ok ==> tree == old(tree)[path := Dir]
      ensures e != Ok ==> tree == old(tree)
      ensures denied == old(denied) + if e == OtherError then 1 else 0
      ensures e == EEXIST <==> path == "/" || (path in tree && Lookup(tree, Parent(path)) == IsDir && e != Ok)
      ensures e == ENOENT <==> path != "/" && Lookup(old(tree), Parent(path)) == Missing
      ensures e == ENOTDIR <==> path != "/" && Lookup(old(tree), Parent(path)) == NotDir
    {
      if path == "/" {
        return EEXIST;
      }
      match Lookup(tree, Parent(path)) {
        case Missing => return ENOENT;
        case NotDir => return ENOTDIR;
        case IsDir =>
      }
      if path in tree {
        return EEXIST;
      }
      if * {
        denied := denied + 1;
        return OtherError;
      }
      tree := tree[path := Dir];
      return Ok;
    }
  }

  // ---------- what may change

  /** The only difference is new directories on the way to `path`. */
  ghost predicate Grown(t: Tree, t': Tree, path: string)
    requires path == "" || Below(path)
  {
    && (forall s :: s in t ==> s in t' && t'[s] == t[s])
    && (forall s :: s in t' && s !in t ==> s in Chain(path) && t'[s] == Dir)
  }

  lemma {:induction false} ChainIsShorter(s: string, x: string)
    requires (s == "" || Below(s)) && x in Chain(s)
    ensures |x| <= |s| && (|x| == |s| ==> x == s) && Below(x)
    decreases |s|
  {
    if x != s {
      ChainIsShorter(Parent(s), x);
    }
  }

  /** Adding a directory does not disturb paths that were already resolved. */
  lemma {:induction false} LookupGrows(t: Tree, t': Tree, s: string)
    requires (s == "" || Below(s)) && Lookup(t, s) == IsDir
    requires forall x :: x in t ==> x in t' && t'[x] == t[x]
    ensures Lookup(t', s) == IsDir
    decreases |s|
  {
    if s != "" {
      LookupGrows(t, t', Parent(s));
    }
  }

  lemma {:induction false} AddKeepsTree(t: Tree, path: string)
    requires IsTree(t) && Below(path) && path !in t && Lookup(t, Parent(path)) == IsDir
    ensures IsTree(t[path := Dir]) && Lookup(t[path := Dir], path) == IsDir
  {
    var t' := t[path := Dir];
    forall s | s in t' ensures Below(s) && Lookup(t', Parent(s)) == IsDir {
      LookupGrows(t, t', Parent(s));
    }
  }

  /** In a tree, a directory's whole chain is there. */
  lemma {:induction false} ChainIsThere(t: Tree, s: string, x: string)
    requires (s == "" || Below(s)) && Lookup(t, s) == IsDir && x in Chain(s)
    ensures x in t && t[x] == Dir
    decreases |s|
  {
    if x != s {
      ChainIsThere(t, Parent(s), x);
    }
  }

  lemma {:induction false} GrownUp(t: Tree, t1: Tree, path: string)
    requires Below(path) && (t1 == t || Grown(t, t1, Parent(path)))
    ensures Grown(t, t1, path)
  {
  }

  lemma {:induction false} GrownAdd(t: Tree, t1: Tree, path: string)
    requires Below(path) && path !in t && Grown(t, t1, path)
    ensures Grown(t, t1[path := Dir], path)
  {
    assert path in Chain(path);
  }

  /**
   * What a call below the root means: it returns 0 iff the path is then a directory; on success
   * exactly the missing ancestors and the path itself were created, and on any result nothing
   * else changed.  -2 says that the path itself is something else, and -1 that an ancestor is no
   * directory or that some mkdir was denied; otherwise it succeeds.
   */
  ghost predicate Outcome(t: Tree, t': Tree, path: string, r: int, denied: bool)
    requires Below(path)
  {
    && IsTree(t') && Grown(t, t', path)
    && (r == 0 <==> Lookup(t', path) == IsDir)
    && (r == 0 ==> forall s :: s in Chain(path) ==> s in t' && t'[s] == Dir)
    && (r == -2 <==> path in t && t[path] == Other)
    && (r == -1 <==> Lookup(t, Parent(path)) == NotDir || denied)
    && (r == 0 || r == -1 || r == -2)
  }

  lemma {:induction false} Existing(t: Tree, path: string)
    requires IsTree(t) && Below(path) && path in t
    ensures Outcome(t, t, path, if t[path] == Dir then 0 else -2, false)
  {
    if t[path] == Dir {
      forall s | s in Chain(path) ensures s in t && t[s] == Dir {
        ChainIsThere(t, path, s);
      }
    }
  }

  lemma {:induction false} Failed(t: Tree, t': Tree, path: string, denied: bool)
    requires IsTree(t') && Below(path) && path !in t' && (t' == t || Grown(t, t', Parent(path)))
    requires denied || Lookup(t, Parent(path)) == NotDir
    ensures Outcome(t, t', path, -1, denied)
  {
    GrownUp(t, t', path);
    assert Lookup(t', path) != IsDir;
  }

  lemma {:induction false} Created(t: Tree, t1: Tree, path: string)
    requires IsTree(t1) && Below(path) && path !in t && path !in t1 && Lookup(t1, Parent(path)) == IsDir
    requires t1 == t || (Grown(t, t1, Parent(path)) && Lookup(t, Parent(path)) == Missing)
    ensures Outcome(t, t1[path := Dir], path, 0, false)
  {
    var t' := t1[path := Dir];
    AddKeepsTree(t1, path);
    GrownUp(t, t1, path);
    GrownAdd(t, t1, path);
    forall s | s in Chain(path) ensures s in t' && t'[s] == Dir {
      ChainIsThere(t', path, s);
    }
  }

  lemma {:induction false} ParentFailed(t: Tree, t': Tree, path: string, r: int, denied: bool)
    requires IsTree(t) && Below(path) && Lookup(t, Parent(path)) == Missing
    requires Below(Parent(path)) && Outcome(t, t', Parent(path), r, denied) && r != 0
    ensures r == -1 && Outcome(t, t', path, r, denied)
  {
    MissingStaysOut(t, t', path);
    GrownUp(t, t', path);
    assert Lookup(t', path) != IsDir;
  }

  method RecursiveMkdir(k: Kernel, path: string) returns (r: int)
    requires Normal(path) && IsTree(k.tree)
    modifies k
    ensures r == 0 || r == -1 || r == -2
    ensures path == "/" ==> r == 0 && k.tree == old(k.tree)
    ensures Below(path) ==> Outcome(old(k.tree), k.tree, path, r, k.denied > old(k.denied))
    ensures k.denied >= old(k.denied)
    decreases |path|
  {
    ghost var t := k.tree;
    var e := k.Mkdir(path);
    if e == EEXIST {
      if path != "/" {
        Existing(t, path);
      }
      return if path == "/" || k.tree[path] == Dir then 0 else -2;
    }
    if e == ENOENT {
      // mkdir of "/" never says ENOENT, so the test for the root does not apply
      r := RecursiveMkdir(k, Parent(path));
      if r != 0 {
        ParentFailed(t, k.tree, path, r, k.denied > old(k.denied));
        return r;
      }
      MissingStaysOut(t, k.tree, path);
      r := Again(k, path, t);
      return r;
    }
    if e != Ok {
      Failed(t, t, path, e == OtherError);
      return -1;
    }
    Created(t, t, path);
    return 0;
  }

  /** The retry after `goto again`, with the loop flag set. */
  method Again(k: Kernel, path: string, ghost t: Tree) returns (r: int)
    requires IsTree(k.tree) && Below(path) && path !in t && path !in k.tree
    requires Lookup(k.tree, Parent(path)) == IsDir && Grown(t, k.tree, Parent(path))
    requires Lookup(t, Parent(path)) == Missing
    modifies k
    ensures r == 0 || r == -1
    ensures Outcome(t, k.tree, path, r, r == -1)
    ensures k.denied == old(k.denied) + if r == -1 then 1 else 0
  {
    ghost var t1 := k.tree;
    var e := k.Mkdir(path);
    if e != Ok {
      Failed(t, t1, path, true);
      return -1;
    }
    Created(t, t1, path);
    return 0;
  }

  /** Below a missing directory there is nothing, also after its ancestors were created. */
  lemma {:induction false} MissingStaysOut(t: Tree, t': Tree, path: string)
    requires IsTree(t) && Below(path) && Lookup(t, Parent(path)) == Missing && Grown(t, t', Parent(path))
    ensures path !in t && path !in t' && Parent(path) !in t
  {
    if path in t' && path !in t {
      ChainIsShorter(Parent(path), path);
    }
  }

  /** With a file at /a, making /a/b gives -1, not -2. */
  lemma {:induction false} AncestorExample(t': Tree, r: int, denied: bool)
    ensures var t: Tree := map["/a" := Other];
            && IsTree(t) && Below("/a/b") && Parent("/a/b") == "/a" && Lookup(t, "/a") == NotDir
            && (Outcome(t, t', "/a/b", r, denied) ==> r == -1 && t' == t)
  {
    var t: Tree := map["/a" := Other];
    assert LastSlash("/a/b") == 2 && LastSlash("/a") == 0;
    assert Parent("/a/b") == "/a" && Parent("/a") == "";
    assert Lookup(t, "/a") == NotDir;
    if Outcome(t, t', "/a/b", r, denied) {
      assert "/a" in t && t'["/a"] == Other;
      assert Lookup(t', "/a") == NotDir;
      assert Chain("/a/b") == ["/a", "/a/b"];
      assert forall s :: s in t' ==> s in t;
    }
  }
}
