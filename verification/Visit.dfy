/** The recursive walk over a guest's directory tree, reading each file's attributes from the flattened list. */
module Visit {
  import opened Bytes
  import opened Seqs
  import opened Xattr
  import opened Faults

  datatype FileType = Socket | Symlink | Regular | BlockDevice | Directory | CharDevice | Fifo

  type Perm = p: int | 0 <= p < 4096

  /** No directory entry has an empty name. */
  type Name = s: seq<byte> | s != [] witness [97]

  /** A file or directory; `kids` are its entries in `ls` order, if it is a directory. */
  datatype Node = Node(name: Name, ftype: FileType, perm: Perm, listing: Listing, kids: seq<Node>)

  /** S_IFSOCK is 0140000, S_IFLNK 0120000, S_IFREG 0100000, S_IFBLK 060000, S_IFDIR 040000 and so on. */
  function TypeBits(t: FileType): nat {
    match t
    case Socket => 12
    case Symlink => 10
    case Regular => 8
    case BlockDevice => 6
    case Directory => 4
    case CharDevice => 2
    case Fifo => 1
  }

  /** st_mode: the file type above twelve bits of permissions. */
  function ModeOf(t: FileType, perm: Perm): nat { TypeBits(t) * 4096 + perm }

  /** (mode & 0170000) == 0040000 */
  predicate IsDir(mode: nat) { mode / 4096 % 16 == 4 }

  /** The test that _visit makes on the mode tells directories from all other types. */
  lemma {:induction false} IsDirExactly(t: FileType, perm: Perm)
    ensures IsDir(ModeOf(t, perm)) <==> t == Directory
  {
    assert ModeOf(t, perm) / 4096 == TypeBits(t);
  }

  const SLASH: byte := 47

  function FullPath(dir: seq<byte>, name: seq<byte>): seq<byte> {
    if dir == [SLASH] then [SLASH] + name else dir + [SLASH] + name
  }

  /** One call of the visitor function; `addr` says which node it was, as child indexes from the top. */
  datatype Visit = Visit(addr: seq<nat>, dir: seq<byte>, name: seq<byte>, attrs: seq<Attr>)

  function AttrsOfNode(n: Node): seq<Attr> {
    if n.listing.Readable? then SortAttrs(n.listing.attrs) else []
  }

  /** The calls made for the entries i, i + 1, ... of directory d. */
  function Walk(d: Node, i: nat, dir: seq<byte>, base: seq<nat>): seq<Visit>
    decreases d, |d.kids| - i
  {
    if i >= |d.kids| then []
    else
      var n := d.kids[i];
      [Visit(base + [i], dir, n.name, AttrsOfNode(n))]
      + Below(d, i, dir, base)
      + Walk(d, i + 1, dir, base)
  }

  function Below(d: Node, i: nat, dir: seq<byte>, base: seq<nat>): seq<Visit>
    requires i < |d.kids|
    decreases d, 0
  {
    var n := d.kids[i];
    if n.ftype == Directory then Walk(n, 0, FullPath(dir, n.name), base + [i]) else []
  }

  function ListingsOfKids(d: Node): (ls: seq<Listing>)
    ensures |ls| == |d.kids| && forall i :: 0 <= i < |ls| ==> ls[i] == d.kids[i].listing
  {
    seq(|d.kids|, i requires 0 <= i < |d.kids| => d.kids[i].listing)
  }

  /** No file under d is unreadable. */
  predicate AllListed(d: Node) {
    forall n :: n in d.kids ==> n.listing.Readable? && (n.ftype == Directory ==> AllListed(n))
  }

  /** The calls for entry i itself and what lies below it. */
  function WalkEntry(d: Node, i: nat, dir: seq<byte>, base: seq<nat>): seq<Visit>
    requires i < |d.kids|
  {
    [Visit(base + [i], dir, d.kids[i].name, AttrsOfNode(d.kids[i]))] + Below(d, i, dir, base)
  }

  predicate EntryListed(n: Node) { n.listing.Readable? && (n.ftype == Directory ==> AllListed(n)) }

  /** One turn of the loop: decode the entry, call the visitor, descend. */
  method VisitEntry(sys: System, d: Node, i: nat, dir: seq<byte>, xs: seq<Attr>, xattrp: nat, ghost base: seq<nat>)
    returns (r: int, xattrp': nat, ghost part: seq<Visit>)
    requires i < |d.kids| && xs == Encode(ListingsOfKids(d)) && xattrp == Start(ListingsOfKids(d), i)
    modifies sys
    ensures r == 0 || r == -1
    ensures r == 0 <==> EntryListed(d.kids[i]) && sys.failed == old(sys.failed)
    ensures sys.failed >= old(sys.failed)
    ensures r == 0 ==> part == WalkEntry(d, i, dir, base) && EntryListed(d.kids[i])
    ensures r == 0 ==> xattrp' == Start(ListingsOfKids(d), i + 1)
    ensures r == -1 ==> part <= WalkEntry(d, i, dir, base)
    decreases d, 0
  {
    DecodeInvertsEncode(ListingsOfKids(d), i);
    var n := d.kids[i];
    var step := ReadEntry(xs, xattrp);
    assert !step.Misaligned?;             // the empty-name assertion
    if !step.Next? {
      return -1, 0, [];
    }
    ghost var v := Visit(base + [i], dir, n.name, step.attrs);
    part, xattrp' := [v], step.xattrp;
    var stop := sys.Fails();
    if stop {
      return -1, xattrp', part;           // the visitor function said stop
    }
    r := 0;
    IsDirExactly(n.ftype, n.perm);
    if IsDir(ModeOf(n.ftype, n.perm)) {
      ghost var inner;
      r, inner := VisitDir(sys, n, FullPath(dir, n.name), base + [i]);
      part := [v] + inner;
    }
  }

  /**
   * _visit below depth 0.  Any remote call or the visitor itself may fail.  It succeeds iff none
   * did and no file is unreadable, and then the visitor was called exactly as `Walk` says; on
   * failure, for some prefix of it.  An unreadable file is an error, never a shift of the later
   * files' attributes.
   */
  method VisitDir(sys: System, d: Node, dir: seq<byte>, ghost base: seq<nat>) returns (r: int, ghost log: seq<Visit>)
    modifies sys
    ensures r == 0 || r == -1
    ensures r == 0 <==> AllListed(d) && sys.failed == old(sys.failed)
    ensures sys.failed >= old(sys.failed)
    ensures r == 0 ==> log == Walk(d, 0, dir, base)
    ensures r == -1 ==> log <= Walk(d, 0, dir, base)
    decreases d, 1
  {
    log := [];
    var failed := sys.Fails();
    if failed {
      return -1, log;                     // ls, lstatnslist or lxattrlist failed
    }
    var xs := Encode(ListingsOfKids(d));
    var i, xattrp := 0, 0;
    while i < |d.kids|
      invariant 0 <= i <= |d.kids| && sys.failed == old(sys.failed)
      invariant Going(d, i, dir, base, xattrp, log)
    {
      ghost var part;
      var before := xattrp;
      r, xattrp, part := VisitEntry(sys, d, i, dir, xs, xattrp, base);
      GoOn(d, i, dir, base, before, log, part);
      log := log + part;
      if r == -1 {
        assert d.kids[i] in d.kids;
        return -1, log;
      }
      i := i + 1;
    }
    Arrived(d, dir, base, xattrp, log);
    return 0, log;
  }

  /** The loop stands before entry i: what was visited, what remains, and the list pointer fit together. */
  ghost predicate Going(d: Node, i: nat, dir: seq<byte>, base: seq<nat>, xattrp: nat, log: seq<Visit>) {
    && i <= |d.kids| && xattrp == Start(ListingsOfKids(d), i)
    && log + Walk(d, i, dir, base) == Walk(d, 0, dir, base)
    && forall k :: 0 <= k < i ==> EntryListed(d.kids[k])
  }

  lemma {:induction false} GoOn(d: Node, i: nat, dir: seq<byte>, base: seq<nat>, xattrp: nat, log: seq<Visit>,
                                part: seq<Visit>)
    requires i < |d.kids| && Going(d, i, dir, base, xattrp, log) && part <= WalkEntry(d, i, dir, base)
    ensures log + part <= Walk(d, 0, dir, base)
    ensures part == WalkEntry(d, i, dir, base) && EntryListed(d.kids[i]) ==>
              Going(d, i + 1, dir, base, Start(ListingsOfKids(d), i + 1), log + part)
  {
    Extend(log, part, WalkEntry(d, i, dir, base), Walk(d, i + 1, dir, base), Walk(d, 0, dir, base));
  }

  lemma {:induction false} Arrived(d: Node, dir: seq<byte>, base: seq<nat>, xattrp: nat, log: seq<Visit>)
    requires Going(d, |d.kids|, dir, base, xattrp, log)
    ensures log == Walk(d, 0, dir, base) && AllListed(d)
  {
    assert log + [] == log;
    forall n | n in d.kids ensures EntryListed(n) {
      var k :| 0 <= k < |d.kids| && d.kids[k] == n;
    }
  }

  lemma {:induction false} Extend<T>(log: seq<T>, part: seq<T>, entry: seq<T>, later: seq<T>, all: seq<T>)
    requires part <= entry && log + (entry + later) == all
    ensures log + part <= all && (part == entry ==> log + part + later == all)
  {
  }

  // ---------- what the walk means

  /** There is a node at this address below d. */
  predicate Exists(d: Node, a: seq<nat>) {
    && a != [] && a[0] < |d.kids|
    && (|a| == 1 || (d.kids[a[0]].ftype == Directory && Exists(d.kids[a[0]], a[1..])))
  }

  function NodeAt(d: Node, a: seq<nat>): Node
    requires Exists(d, a)
  {
    if |a| == 1 then d.kids[a[0]] else NodeAt(d.kids[a[0]], a[1..])
  }

  /** The names of the directories on the way to the node at address a. */
  function NamesTo(d: Node, a: seq<nat>): seq<Name>
    requires Exists(d, a)
  {
    if |a| == 1 then [] else [d.kids[a[0]].name] + NamesTo(d.kids[a[0]], a[1..])
  }

  /** Each name with a slash before it. */
  function Slashed(names: seq<Name>): seq<byte> {
    if names == [] then [] else [SLASH] + names[0] + Slashed(names[1..])
  }

  /** Names below a directory, joined with single slashes; the root adds none of its own. */
  function PathTo(dir: seq<byte>, names: seq<Name>): seq<byte> {
    if names == [] then dir else (if dir == [SLASH] then [] else dir) + Slashed(names)
  }

  /** full_path adds one name to such a path. */
  lemma {:induction false} FullPathIsPath(dir: seq<byte>, name: Name, names: seq<Name>)
    ensures PathTo(FullPath(dir, name), names) == PathTo(dir, [name] + names)
  {
    var top := if dir == [SLASH] then [] else dir;
    assert FullPath(dir, name) == top + ([SLASH] + name);
    assert ([name] + names)[1..] == names;
    assert |FullPath(dir, name)| >= 2;
    if names == [] {
      assert [SLASH] + name + [] == [SLASH] + name;
    } else {
      Concat(top, [SLASH] + name, Slashed(names));
    }
  }

  /** The path of the directory that holds the node at address a. */
  function DirAt(d: Node, a: seq<nat>, dir: seq<byte>): seq<byte>
    requires Exists(d, a)
  {
    PathTo(dir, NamesTo(d, a))
  }

  /** The visit that the node at address a should get. */
  function VisitAt(d: Node, a: seq<nat>, dir: seq<byte>, base: seq<nat>): Visit
    requires Exists(d, a)
  {
    Visit(base + a, DirAt(d, a, dir), NodeAt(d, a).name, AttrsOfNode(NodeAt(d, a)))
  }

  /** Addresses in the order of a depth-first walk: a parent before its children, siblings left to right. */
  predicate Earlier(a: seq<nat>, b: seq<nat>) {
    b != [] && (a == [] || a[0] < b[0] || (a[0] == b[0] && Earlier(a[1..], b[1..])))
  }

  /** Every visit of the walk is that of an existing node, with its own data. */
  lemma {:induction false} WalkIsSound(d: Node, i: nat, dir: seq<byte>, base: seq<nat>, v: Visit) returns (a: seq<nat>)
    requires v in Walk(d, i, dir, base)
    ensures Exists(d, a) && a[0] >= i && v == VisitAt(d, a, dir, base)
    decreases d, |d.kids| - i
  {
    var n := d.kids[i];
    if v == Visit(base + [i], dir, n.name, AttrsOfNode(n)) {
      a := [i];
    } else if v in Below(d, i, dir, base) {
      var b := WalkIsSound(n, 0, FullPath(dir, n.name), base + [i], v);
      a := [i] + b;
      assert a[1..] == b;
      VisitAtChild(d, a, dir, base);
    } else {
      a := WalkIsSound(d, i + 1, dir, base, v);
    }
  }

  /** Every node that exists is visited. */
  lemma {:induction false} WalkIsComplete(d: Node, i: nat, dir: seq<byte>, base: seq<nat>, a: seq<nat>)
    requires Exists(d, a) && a[0] >= i
    ensures VisitAt(d, a, dir, base) in Walk(d, i, dir, base)
    decreases d, |d.kids| - i
  {
    InWalk(d, i, dir, base, VisitAt(d, a, dir, base));
    if a[0] > i {
      WalkIsComplete(d, i + 1, dir, base, a);
    } else if |a| == 1 {
      VisitAtTop(d, a, dir, base);
    } else {
      var n := d.kids[i];
      WalkIsComplete(n, 0, FullPath(dir, n.name), base + [i], a[1..]);
      VisitAtChild(d, a, dir, base);
      InBelow(d, i, dir, base, VisitAt(d, a, dir, base));
    }
  }

  lemma {:induction false} VisitAtTop(d: Node, a: seq<nat>, dir: seq<byte>, base: seq<nat>)
    requires Exists(d, a) && |a| == 1
    ensures var n := d.kids[a[0]]; VisitAt(d, a, dir, base) == Visit(base + [a[0]], dir, n.name, AttrsOfNode(n))
  {
    assert a == [a[0]];
  }

  lemma {:induction false} InBelow(d: Node, i: nat, dir: seq<byte>, base: seq<nat>, v: Visit)
    requires i < |d.kids| && d.kids[i].ftype == Directory
    ensures v in Below(d, i, dir, base) <==> v in Walk(d.kids[i], 0, FullPath(dir, d.kids[i].name), base + [i])
  {
  }

  /** The walk from entry i on: the entry itself, what is below it, and the later entries. */
  lemma {:induction false} InWalk(d: Node, i: nat, dir: seq<byte>, base: seq<nat>, v: Visit)
    requires i < |d.kids|
    ensures v in Walk(d, i, dir, base) <==>
              || v == Visit(base + [i], dir, d.kids[i].name, AttrsOfNode(d.kids[i]))
              || v in Below(d, i, dir, base)
              || v in Walk(d, i + 1, dir, base)
  {
  }

  /** A deeper node gets the same visit as seen from the child on the way to it. */
  lemma {:induction false} VisitAtChild(d: Node, a: seq<nat>, dir: seq<byte>, base: seq<nat>)
    requires Exists(d, a) && |a| > 1
    ensures var n := d.kids[a[0]];
            VisitAt(d, a, dir, base) == VisitAt(n, a[1..], FullPath(dir, n.name), base + [a[0]])
  {
    assert a == [a[0]] + a[1..];
    Concat(base, [a[0]], a[1..]);
    var n := d.kids[a[0]];
    FullPathIsPath(dir, n.name, NamesTo(n, a[1..]));
  }

  lemma {:induction false} EarlierPrefix(p: seq<nat>, a: seq<nat>, b: seq<nat>)
    requires Earlier(a, b)
    ensures Earlier(p + a, p + b)
  {
    if p == [] {
      assert p + a == a && p + b == b;
    } else {
      EarlierPrefix(p[1..], a, b);
      assert (p + a)[1..] == p[1..] + a && (p + b)[1..] == p[1..] + b;
    }
  }

  predicate InOrder(vs: seq<Visit>) {
    forall k, l :: 0 <= k < l < |vs| ==> Earlier(vs[k].addr, vs[l].addr)
  }

  lemma {:induction false} InOrderAppend(a: seq<Visit>, b: seq<Visit>)
    requires InOrder(a) && InOrder(b)
    requires forall x, y :: x in a && y in b ==> Earlier(x.addr, y.addr)
    ensures InOrder(a + b)
  {
    forall k, l | 0 <= k < l < |a + b| ensures Earlier((a + b)[k].addr, (a + b)[l].addr) {
      if k < |a| <= l {
        assert a[k] in a && b[l - |a|] in b;
      }
    }
  }

  /** The walk is strictly in order, so no node is visited twice and a parent comes before its children. */
  lemma {:induction false} WalkIsInOrder(d: Node, i: nat, dir: seq<byte>, base: seq<nat>)
    ensures InOrder(Walk(d, i, dir, base))
    decreases d, |d.kids| - i
  {
    if i < |d.kids| {
      var n := d.kids[i];
      var v := Visit(base + [i], dir, n.name, AttrsOfNode(n));
      var below, later := Below(d, i, dir, base), Walk(d, i + 1, dir, base);
      if n.ftype == Directory {
        WalkIsInOrder(n, 0, FullPath(dir, n.name), base + [i]);
      }
      WalkIsInOrder(d, i + 1, dir, base);
      forall y | y in below ensures Earlier(v.addr, y.addr) {
        var _ := BelowAddress(d, i, dir, base, y);
      }
      InOrderAppend([v], below);
      forall x, y | x in [v] + below && y in later ensures Earlier(x.addr, y.addr) {
        EntryBeforeLater(d, i, dir, base, x, y);
      }
      InOrderAppend([v] + below, later);
    }
  }

  lemma {:induction false} BelowAddress(d: Node, i: nat, dir: seq<byte>, base: seq<nat>, y: Visit) returns (b: seq<nat>)
    requires i < |d.kids| && y in Below(d, i, dir, base)
    ensures b != [] && y.addr == base + ([i] + b) && Earlier(base + [i], y.addr)
  {
    b := WalkIsSound(d.kids[i], 0, FullPath(dir, d.kids[i].name), base + [i], y);
    Concat(base, [i], b);
    assert [i][1..] == [] && ([i] + b)[1..] == b;
    EarlierPrefix(base, [i], [i] + b);
  }

  lemma {:induction false} EntryBeforeLater(d: Node, i: nat, dir: seq<byte>, base: seq<nat>, x: Visit, y: Visit)
    requires i < |d.kids| && x in WalkEntry(d, i, dir, base) && y in Walk(d, i + 1, dir, base)
    ensures Earlier(x.addr, y.addr)
  {
    var c := WalkIsSound(d, i + 1, dir, base, y);
    var a := [i];
    if x in Below(d, i, dir, base) {
      var b := BelowAddress(d, i, dir, base, x);
      a := [i] + b;
    }
    EarlierPrefix(base, a, c);
  }

  /**
   * On a finite tree: the walk visits a node iff it exists, with its own path, name and
   * sorted attributes, and the order is strictly that of a depth-first walk.
   */
  lemma {:induction false} WalkVisitsEachNodeOnce(d: Node, dir: seq<byte>, a: seq<nat>)
    ensures InOrder(Walk(d, 0, dir, []))
    ensures Exists(d, a) ==> VisitAt(d, a, dir, []) in Walk(d, 0, dir, [])
    ensures (exists v :: v in Walk(d, 0, dir, []) && v.addr == a) <==> Exists(d, a)
  {
    WalkIsInOrder(d, 0, dir, []);
    if Exists(d, a) {
      WalkIsComplete(d, 0, dir, [], a);
      assert [] + a == a;
    }
    forall v | v in Walk(d, 0, dir, []) && v.addr == a ensures Exists(d, a) {
      var b := WalkIsSound(d, 0, dir, [], v);
      assert [] + b == b;
    }
  }

  lemma {:induction false} EarlierAsymmetric(a: seq<nat>, b: seq<nat>)
    requires Earlier(a, b)
    ensures !Earlier(b, a) && a != b
  {
    if a != [] && a[0] == b[0] {
      EarlierAsymmetric(a[1..], b[1..]);
    }
  }

  /** No address occurs twice in the walk, and a directory is visited before everything inside it. */
  lemma {:induction false} ParentFirstAndOnlyOnce(d: Node, dir: seq<byte>, k: nat, l: nat)
    requires k < |Walk(d, 0, dir, [])| && l < |Walk(d, 0, dir, [])|
    ensures var p, c := Walk(d, 0, dir, [])[k].addr, Walk(d, 0, dir, [])[l].addr;
            (p == c ==> k == l) && (p < c ==> k < l)
  {
    var w := Walk(d, 0, dir, []);
    var p, c := w[k].addr, w[l].addr;
    WalkIsInOrder(d, 0, dir, []);
    if k < l {
      EarlierAsymmetric(p, c);
    } else if l < k {
      EarlierAsymmetric(c, p);
    }
    if p < c {
      var tail := c[|p|..];
      EarlierPrefix(p, [], tail);
      assert p + [] == p && p + tail == c;
    }
  }

  /** visit: the top directory itself comes first, without a name. */
  method VisitTop(sys: System, top: Node, dir: seq<byte>) returns (r: int, ghost log: seq<Visit>)
    modifies sys
    ensures r == 0 || r == -1
    ensures r == 0 <==> top.listing.Readable? && AllListed(top) && sys.failed == old(sys.failed)
    ensures r == 0 ==> log == [Visit([], dir, [], AttrsOfNode(top))] + Walk(top, 0, dir, [])
    ensures r == -1 ==> log <= [Visit([], dir, [], AttrsOfNode(top))] + Walk(top, 0, dir, [])
  {
    log := [];
    var failed := sys.Fails();            // lstatns
    if failed || top.listing.Unreadable? {
      return -1, log;
    }
    ghost var v := Visit([], dir, [], AttrsOfNode(top));
    log := [v];
    var stop := sys.Fails();
    if stop {
      return -1, log;
    }
    ghost var inner;
    r, inner := VisitDir(sys, top, dir, []);
    log := [v] + inner;
  }
}
