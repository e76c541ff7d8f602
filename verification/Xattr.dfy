/**
 * Extended attributes of many files flattened into one list: the daemon writes, for
 * each file, a nameless entry that holds the number of attributes and then the sorted
 * attributes; the visitor reads the list back file by file.
 */
module Xattr {
  import opened Wrappers
  import opened Bytes
  import opened Seqs
  import opened Sort

  datatype Attr = Attr(name: seq<byte>, val: seq<byte>)

  const XATTR_LIST_MAX: nat := 65536
  const XATTR_SIZE_MAX: nat := 65536

  /** What the kernel says of one file: llistxattr fails, or a list of names with their values. */
  datatype Listing = Unreadable | Readable(attrs: seq<Attr>)

  // ---------- order of attributes

  /** strcmp (a, b) <= 0 on unsigned bytes. */
  predicate StrLe(a: seq<byte>, b: seq<byte>) {
    a == [] || (b != [] && (a[0] < b[0] || (a[0] == b[0] && StrLe(a[1..], b[1..]))))
  }

  /** The first difference decides, and a proper prefix comes first. */
  lemma {:induction false} StrLeAt(p: seq<byte>, a: seq<byte>, b: seq<byte>)
    requires a == [] || b == [] || a[0] != b[0]
    ensures StrLe(p + a, p + b) <==> a == [] || (b != [] && a[0] < b[0])
  {
    if p == [] {
      assert p + a == a && p + b == b;
    } else {
      assert (p + a)[1..] == p[1..] + a && (p + b)[1..] == p[1..] + b;
      StrLeAt(p[1..], a, b);
    }
  }

  lemma {:induction false} StrLeTotal(a: seq<byte>, b: seq<byte>)
    ensures StrLe(a, b) || StrLe(b, a)
    ensures StrLe(a, b) && StrLe(b, a) ==> a == b
  {
    if a != [] && b != [] {
      StrLeTotal(a[1..], b[1..]);
      assert a == [a[0]] + a[1..] && b == [b[0]] + b[1..];
    }
  }

  lemma {:induction false} StrLeTransitive(a: seq<byte>, b: seq<byte>, c: seq<byte>)
    requires StrLe(a, b) && StrLe(b, c)
    ensures StrLe(a, c)
  {
    if a != [] && a[0] == b[0] == c[0] {
      StrLeTransitive(a[1..], b[1..], c[1..]);
    }
  }

  predicate AttrLe(x: Attr, y: Attr) { StrLe(x.name, y.name) }

  lemma {:induction false} AttrOrder()
    ensures TotalPreorder(AttrLe)
  {
    forall x: Attr, y: Attr ensures AttrLe(x, y) || AttrLe(y, x) {
      StrLeTotal(x.name, y.name);
    }
    forall x: Attr, y: Attr, z: Attr | AttrLe(x, y) && AttrLe(y, z) ensures AttrLe(x, z) {
      StrLeTransitive(x.name, y.name, z.name);
    }
  }

  function SortAttrs(s: seq<Attr>): seq<Attr> { Sort.Sort(s, AttrLe) }

  /** Whatever qsort does, it yields this order, because a file's attribute names differ. */
  lemma {:induction false} AnyQsortAgrees(s: seq<Attr>, t: seq<Attr>)
    requires SortOf(s, t, AttrLe)
    requires forall i, j :: 0 <= i < j < |s| ==> s[i].name != s[j].name
    ensures t == SortAttrs(s)
  {
    AttrOrder();
    SortIsSort(s, AttrLe);
    forall a, b | a in t && b in t && AttrLe(a, b) && AttrLe(b, a) ensures a == b {
      PermutationHasSameElements(s, t, a);
      PermutationHasSameElements(s, t, b);
      StrLeTotal(a.name, b.name);
    }
    SortIsUnique(t, SortAttrs(s), AttrLe);
  }

  // ---------- decimal counts

  const ZERO: byte := 48

  function Digits(n: nat): (s: seq<byte>)
    ensures s != []
  {
    if n < 10 then [ZERO + n] else Digits(n / 10) + [ZERO + n % 10]
  }

  predicate IsDigit(c: byte) { ZERO <= c < ZERO + 10 }

  /** The digits that sscanf ("%zu") would convert. */
  function DigitPrefix(s: seq<byte>): (p: seq<byte>)
    ensures p <= s
  {
    if s == [] || !IsDigit(s[0]) then [] else [s[0]] + DigitPrefix(s[1..])
  }

  function Value(s: seq<byte>): int {
    if s == [] then 0 else 10 * Value(s[..|s| - 1]) + (s[|s| - 1] as int) - 48
  }

  function ScanCount(s: seq<byte>): Option<int> {
    if DigitPrefix(s) == [] then None else Some(Value(DigitPrefix(s)))
  }

  lemma {:induction false} DigitsAreDigits(n: nat)
    ensures forall i :: 0 <= i < |Digits(n)| ==> IsDigit(Digits(n)[i])
    ensures Value(Digits(n)) == n
  {
    if n >= 10 {
      DigitsAreDigits(n / 10);
      var s := Digits(n / 10) + [ZERO + n % 10];
      assert s[..|s| - 1] == Digits(n / 10);
    } else {
      assert [ZERO + n][..0] == [];
    }
  }

  lemma {:induction false} DigitPrefixOf(p: seq<byte>, rest: seq<byte>)
    requires (forall i :: 0 <= i < |p| ==> IsDigit(p[i])) && (rest == [] || !IsDigit(rest[0]))
    ensures DigitPrefix(p + rest) == p
  {
    if p == [] {
      assert p + rest == rest;
    } else {
      assert (p + rest)[1..] == p[1..] + rest;
      DigitPrefixOf(p[1..], rest);
    }
  }

  /** A printed count, its NUL, and the terminator added by the reader scan back to the count. */
  lemma {:induction false} CountRoundTrip(n: nat)
    ensures ScanCount(Digits(n) + [0] + [0]) == Some(n)
  {
    DigitsAreDigits(n);
    assert Digits(n) + [0] + [0] == Digits(n) + [0, 0];
    DigitPrefixOf(Digits(n), [0, 0]);
  }

  // ---------- the flattened list

  function EntryOf(l: Listing): (es: seq<Attr>)
    ensures es != []
  {
    match l
    case Unreadable => [Attr([], [])]
    case Readable(attrs) => [Attr([], Digits(|attrs|) + [0])] + SortAttrs(attrs)
  }

  function Entries(ls: seq<Listing>): (es: seq<seq<Attr>>)
    ensures |es| == |ls|
  {
    seq(|ls|, i requires 0 <= i < |ls| => EntryOf(ls[i]))
  }

  function Encode(ls: seq<Listing>): seq<Attr> { Flatten(Entries(ls)) }

  /** Batching the files (1000 at a time in the library) does not show in the list. */
  lemma {:induction false} EncodeAppend(a: seq<Listing>, b: seq<Listing>)
    ensures Encode(a + b) == Encode(a) + Encode(b)
  {
    EntriesAppend(a, b);
    FlattenAppend(Entries(a), Entries(b));
  }

  lemma {:induction false} EntriesAppend(a: seq<Listing>, b: seq<Listing>)
    ensures Entries(a + b) == Entries(a) + Entries(b)
  {
    var s, t := Entries(a + b), Entries(a) + Entries(b);
    forall i | 0 <= i < |s| ensures s[i] == t[i] {
      if i >= |a| {
        assert (a + b)[i] == b[i - |a|];
      }
    }
  }

  /** One step of the visitor: the attributes of the file whose entry starts at xattrp, and where the next starts. */
  datatype Step = Misaligned | FileError | BadCount | Next(attrs: seq<Attr>, xattrp: nat)

  function ReadEntry(xs: seq<Attr>, xattrp: nat): Step {
    if xattrp >= |xs| || xs[xattrp].name != [] then Misaligned
    else if xs[xattrp].val == [] then FileError
    else
      match ScanCount(xs[xattrp].val + [0])
      case None => BadCount
      case Some(n) =>
        if n < 0 || xattrp + 1 + n > |xs| then BadCount
        else Next(xs[xattrp + 1..xattrp + 1 + n], xattrp + 1 + n)
  }

  function Expected(l: Listing, xattrp: nat): Step {
    match l
    case Unreadable => FileError
    case Readable(attrs) => Next(SortAttrs(attrs), xattrp + 1 + |attrs|)
  }

  lemma {:induction false} SortLength(s: seq<Attr>)
    ensures |SortAttrs(s)| == |s|
  {
    assert |multiset(s)| == |s| && |multiset(SortAttrs(s))| == |SortAttrs(s)|;
  }

  /** Wherever an entry stands in a longer list, reading it gives exactly that file's own answer. */
  lemma {:induction false} ReadEntryAt(before: seq<Attr>, l: Listing, after: seq<Attr>)
    ensures ReadEntry(before + EntryOf(l) + after, |before|) == Expected(l, |before|)
  {
    var xs := before + EntryOf(l) + after;
    var h := EntryOf(l)[0];
    assert xs[|before|] == h;
    if l.Readable? {
      CountRoundTrip(|l.attrs|);
      SortLength(l.attrs);
      Concat(before, [h], SortAttrs(l.attrs));
      SliceOfMiddle(before + [h], SortAttrs(l.attrs), after);
    }
  }

  /** Where the k-th file's entry starts. */
  function Start(ls: seq<Listing>, k: nat): nat
    requires k <= |ls|
  {
    |Encode(ls[..k])|
  }

  lemma {:induction false} EntriesPrefix(ls: seq<Listing>, k: nat)
    requires k <= |ls|
    ensures Entries(ls[..k]) == Entries(ls)[..k]
  {
  }

  /**
   * For any number of files and attributes: at the start of file k the reader finds the
   * nameless entry, reports an unreadable file as an error, and otherwise gets that file's
   * own sorted attributes and the start of file k + 1.
   */
  lemma {:induction false} DecodeInvertsEncode(ls: seq<Listing>, k: nat)
    requires k < |ls|
    ensures ReadEntry(Encode(ls), Start(ls, k)) ==
            match ls[k]
            case Unreadable => FileError
            case Readable(attrs) => Next(SortAttrs(attrs), Start(ls, k + 1))
  {
    var es := Entries(ls);
    FlattenSplit(es, k);
    EntriesPrefix(ls, k);
    EntriesPrefix(ls, k + 1);
    ReadEntryAt(Flatten(es[..k]), ls[k], Flatten(es[k + 1..]));
    if ls[k].Readable? {
      SortLength(ls[k].attrs);
    }
  }

  // ---------- the daemon's encoder

  /** llistxattr fails, or gives names each followed by a NUL; lgetxattr gives their values. */
  datatype KernelFile = Fails | Lists(raw: seq<byte>, values: map<seq<byte>, seq<byte>>)

  /** What follows the first string of the list. */
  function Tail(raw: seq<byte>): (t: seq<byte>)
    requires raw != []
    ensures |t| < |raw|
  {
    var c := CString(raw);
    if |c| < |raw| then raw[|c| + 1..] else []
  }

  function Names(raw: seq<byte>): (ns: seq<seq<byte>>)
    ensures |ns| <= |raw|
    decreases |raw|
  {
    if raw == [] then [] else [CString(raw)] + Names(Tail(raw))
  }

  /** The list as the kernel writes it. */
  function PutNames(ns: seq<seq<byte>>): seq<byte> {
    if ns == [] then [] else ns[0] + [0] + PutNames(ns[1..])
  }

  /** Reading the list gives back the names that the kernel wrote, empty ones included. */
  lemma {:induction false} NamesOfPut(ns: seq<seq<byte>>)
    requires forall n :: n in ns ==> 0 !in n
    ensures Names(PutNames(ns)) == ns
  {
    if ns != [] {
      var n, rest := ns[0], PutNames(ns[1..]);
      NamesOfPut(ns[1..]);
      Concat(n, [0], rest);
      CStringOf(n, [0] + rest);
      Drop(n + [0], rest);
      assert ns == [n] + ns[1..];
    }
  }

  /** lgetxattr succeeds with a value that is not too large, for every name listed. */
  predicate AllReadable(f: KernelFile) {
    f.Lists? ==> forall n :: n in Names(f.raw) ==> n in f.values && |f.values[n]| <= XATTR_SIZE_MAX
  }

  function AttrsOf(f: KernelFile, names: seq<seq<byte>>): (attrs: seq<Attr>)
    requires f.Lists? && forall n :: n in names ==> n in f.values
    ensures |attrs| == |names|
  {
    seq(|names|, i requires 0 <= i < |names| => Attr(names[i], f.values[names[i]]))
  }

  function ListingOf(f: KernelFile): Listing
    requires AllReadable(f)
  {
    match f
    case Fails => Unreadable
    case Lists(raw, values) => Readable(AttrsOf(f, Names(raw)))
  }

  function ListingsOf(fs: seq<KernelFile>): (ls: seq<Listing>)
    requires forall f :: f in fs ==> AllReadable(f)
    ensures |ls| == |fs|
  {
    seq(|fs|, i requires 0 <= i < |fs| => ListingOf(fs[i]))
  }

  lemma {:induction false} DigitsLength(n: nat, k: nat, bound: nat)
    requires n < bound && k >= 1
    requires k == 1 ==> bound <= 10
    requires k > 1 ==>
               && bound <= 100_000
               && (k == 5 || (k == 4 && bound <= 10_000) || (k == 3 && bound <= 1000) || (k == 2 && bound <= 100))
    ensures |Digits(n)| <= k
    decreases k
  {
    if n >= 10 {
      DigitsLength(n / 10, k - 1, (bound + 9) / 10);
    }
  }

  /** First loop over the name list: count the strings.  `b` is the list from &buf[i] on. */
  method CountNames(raw: seq<byte>) returns (nr: nat)
    ensures nr == |Names(raw)|
  {
    nr := 0;
    var b := raw;
    while b != []
      invariant nr + |Names(b)| == |Names(raw)|
      decreases |b|
    {
      b := Tail(b);
      nr := nr + 1;
    }
  }

  /** The value loop has fetched the first j names; those of b remain. */
  ghost predicate Fetched(f: KernelFile, entry: seq<Attr>, j: nat, b: seq<byte>) {
    && f.Lists? && j <= |entry| == |Names(f.raw)|
    && Names(f.raw)[j..] == Names(b)
    && forall k :: 0 <= k < j ==>
         && Names(f.raw)[k] in f.values && |f.values[Names(f.raw)[k]]| <= XATTR_SIZE_MAX
         && entry[k] == Attr(Names(f.raw)[k], f.values[Names(f.raw)[k]])
  }

  lemma {:induction false} FetchedFront(f: KernelFile, entry: seq<Attr>, j: nat, b: seq<byte>)
    requires Fetched(f, entry, j, b) && b != []
    ensures j < |entry| && Names(f.raw)[j] == CString(b) && CString(b) in Names(f.raw)
    ensures Names(f.raw)[j + 1..] == Names(Tail(b))
  {
    assert Names(f.raw)[j..][0] == CString(b);
    assert Names(f.raw)[j..][1..] == Names(f.raw)[j + 1..];
  }

  lemma {:induction false} FetchOne(f: KernelFile, entry: seq<Attr>, j: nat, b: seq<byte>)
    requires Fetched(f, entry, j, b) && b != [] && j < |entry|
    requires CString(b) in f.values && |f.values[CString(b)]| <= XATTR_SIZE_MAX
    ensures Fetched(f, entry[j := Attr(CString(b), f.values[CString(b)])], j + 1, Tail(b))
  {
    FetchedFront(f, entry, j, b);
  }

  lemma {:induction false} FetchedAll(f: KernelFile, entry: seq<Attr>, j: nat)
    requires Fetched(f, entry, j, [])
    ensures AllReadable(f) && entry == AttrsOf(f, Names(f.raw))
  {
    assert j == |entry|;
  }

  /** Second loop: fetch each value into entry[1..]; any failure aborts the whole call. */
  method FetchValues(f: KernelFile, nr: nat) returns (ok: bool, entry: seq<Attr>)
    requires f.Lists? && nr == |Names(f.raw)|
    ensures ok <==> AllReadable(f)
    ensures ok ==> entry == AttrsOf(f, Names(f.raw))
  {
    var b, j := f.raw, 0;
    entry := seq(nr, _ => Attr([], []));
    while b != []
      invariant 0 <= j && |entry| == nr
      invariant Fetched(f, entry, j, b)
      decreases |b|
    {
      FetchedFront(f, entry, j, b);
      var c := CString(b);
      if c !in f.values || |f.values[c]| > XATTR_SIZE_MAX {
        return false, entry;
      }
      FetchOne(f, entry, j, b);
      entry := entry[j := Attr(c, f.values[c])];
      b, j := Tail(b), j + 1;
    }
    FetchedAll(f, entry, j);
    return true, entry;
  }

  /** snprintf into a buffer of `size` bytes. */
  function Snprintf(s: seq<byte>, size: nat): seq<byte>
    requires size > 0
  {
    if |s| >= size then s[..size - 1] else s
  }

  /**
   * do_internal_lxattrlist: fails iff some attribute of some file cannot be fetched;
   * otherwise a file that cannot even be listed leaves its bare entry, and the list is
   * the flattened encoding of all files.
   */
  method DoInternalLxattrlist(files: seq<KernelFile>) returns (ok: bool, ret: seq<Attr>)
    requires forall f :: f in files && f.Lists? ==> |f.raw| <= XATTR_LIST_MAX
    ensures ok <==> forall f :: f in files ==> AllReadable(f)
    ensures ok ==> ret == Encode(ListingsOf(files))
  {
    ret := [];
    for k := 0 to |files|
      invariant forall f :: f in files[..k] ==> AllReadable(f)
      invariant ret == Encode(ListingsOf(files[..k]))
    {
      var f := files[k];
      assert f in files && files[..k + 1] == files[..k] + [f];
      var entry := Attr([], []);
      if f.Fails? {
        ret := ret + [entry];
      } else {
        var nr := CountNames(f.raw);
        var got, attrs := FetchValues(f, nr);
        if !got {
          return false, ret;
        }
        DigitsLength(nr, 5, 100_000);
        entry := Attr([], Snprintf(Digits(nr), 16) + [0]);
        ret := ret + ([entry] + SortAttrs(attrs));
      }
      OneMore(files[..k], f);
    }
    assert files[..|files|] == files;
    return true, ret;
  }

  lemma {:induction false} OneMore(fs: seq<KernelFile>, f: KernelFile)
    requires AllReadable(f) && forall g :: g in fs ==> AllReadable(g)
    ensures Encode(ListingsOf(fs + [f])) == Encode(ListingsOf(fs)) + EntryOf(ListingOf(f))
  {
    var ls, l := ListingsOf(fs), ListingOf(f);
    assert ListingsOf(fs + [f]) == ls + [l];
    assert Entries(ls + [l]) == Entries(ls) + [EntryOf(l)];
    FlattenSnoc(Entries(ls), EntryOf(l));
  }
}
