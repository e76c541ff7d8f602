/** Growable string lists and `split_lines`. */
module SplitLines {
  import opened Bytes
  import opened Seqs
  import opened Faults

  const NEWLINE: byte := 10

  // ---------- struct stringsbuf

  /** argv[..size] is the list; argv grows by 64 slots at a time and is NULL before that. */
  class StringsBuf {
    var argv: array?<seq<byte>>
    var size: nat
    var alloc: nat

    ghost predicate Valid()
      reads this
    {
      size <= alloc && if argv == null then alloc == 0 else alloc == argv.Length
    }

    ghost function Contents(): seq<seq<byte>>
      requires Valid()
      reads this, argv
    {
      if argv == null then [] else argv[..size]
    }

    constructor ()
      ensures Valid() && Contents() == [] && argv == null
    {
      argv, size, alloc := null, 0, 0;
    }

    /**
     * add_string: copy the string, make room if the array is full, append.  When either allocation
     * fails the whole list is dropped.
     */
    method Add(sys: System, s: seq<byte>) returns (r: int)
      requires Valid()
      modifies sys, this, argv
      ensures r == 0 || r == -1
      ensures r == 0 <==> sys.failed == old(sys.failed)
      ensures r == 0 ==> Valid() && Contents() == old(Contents()) + [s]
      ensures argv == old(argv) || argv == null || fresh(argv)
      ensures r == -1 ==> argv == null
    {
      var failed := sys.Fails();           // strdup
      if failed {
        argv := null;
        return -1;
      }
      r := AddNoDup(sys, s);
    }

    /** add_string_nodup */
    method AddNoDup(sys: System, s: seq<byte>) returns (r: int)
      requires Valid()
      modifies sys, this, argv
      ensures r == 0 || r == -1
      ensures r == 0 <==> sys.failed == old(sys.failed)
      ensures r == 0 ==> Valid() && Contents() == old(Contents()) + [s]
      ensures argv == old(argv) || argv == null || fresh(argv)
      ensures r == -1 ==> argv == null && size == old(size) == old(alloc)
    {
      if size >= alloc {
        alloc := alloc + 64;
        var failed := sys.Fails();         // realloc
        if failed {
          argv := null;
          return -1;
        }
        Grow();
      }
      argv[size] := s;
      size := size + 1;
      return 0;
    }

    /** What realloc does to the array. */
    method Grow()
      requires alloc == size + 64 && if argv == null then size == 0 else argv.Length == size
      modifies this`argv
      ensures argv != null && fresh(argv) && argv.Length == alloc
      ensures argv[..size] == if old(argv) == null then [] else old(argv)[..size]
    {
      var bigger := new seq<byte>[alloc](_ => []);
      if argv != null {
        forall i | 0 <= i < size {
          bigger[i] := argv[i];
        }
        assert bigger[..size] == argv[..size];
      }
      argv := bigger;
    }
  }

  // ---------- lines

  predicate NoNewline(s: seq<byte>) { NEWLINE !in s }

  /** Each line followed by a newline. */
  function Join(lines: seq<seq<byte>>): seq<byte> {
    if lines == [] then [] else lines[0] + [NEWLINE] + Join(lines[1..])
  }

  /** The first newline, or the length. */
  function Find(s: seq<byte>): (n: nat)
    ensures n <= |s| && NoNewline(s[..n]) && (n < |s| ==> s[n] == NEWLINE)
  {
    if s == [] || s[0] == NEWLINE then 0
    else
      var n := 1 + Find(s[1..]);
      assert s[..n] == [s[0]] + s[1..][..n - 1];
      n
  }

  function First(s: seq<byte>): seq<byte> { s[..Find(s)] }

  /** What follows the first newline, if there is one. */
  function After(s: seq<byte>): (r: seq<byte>)
    ensures s != [] ==> |r| < |s|
  {
    if Find(s) < |s| then s[Find(s) + 1..] else []
  }

  /** The lines of a string, with or without a final newline. */
  function Lines(s: seq<byte>): seq<seq<byte>>
    decreases |s|
  {
    if s == [] then [] else [First(s)] + Lines(After(s))
  }

  lemma {:induction false} FindAt(a: seq<byte>, b: seq<byte>)
    requires NoNewline(a) && (b == [] || b[0] == NEWLINE)
    ensures Find(a + b) == |a|
  {
    if a == [] {
      assert a + b == b;
    } else {
      assert (a + b)[1..] == a[1..] + b;
      FindAt(a[1..], b);
    }
  }

  lemma {:induction false} FrontLine(l: seq<byte>, tail: seq<byte>)
    requires NoNewline(l)
    ensures var s := l + [NEWLINE] + tail; First(s) == l && After(s) == tail && Lines(s) == [l] + Lines(tail)
  {
    Concat(l, [NEWLINE], tail);
    FindAt(l, [NEWLINE] + tail);
    Drop(l + [NEWLINE], tail);
  }

  /** Splitting inverts joining, for every list of newline-free strings. */
  lemma {:induction false} SplitJoin(lines: seq<seq<byte>>)
    requires forall l :: l in lines ==> NoNewline(l)
    ensures Lines(Join(lines)) == lines
  {
    if lines != [] {
      var l, ls := lines[0], lines[1..];
      SplitJoin(ls);
      FrontLine(l, Join(ls));
      assert lines == [l] + ls;
    }
  }

  /** The string with a newline added at the end unless it is empty or ends with one. */
  function Terminated(s: seq<byte>): seq<byte> {
    if s == [] || s[|s| - 1] == NEWLINE then s else s + [NEWLINE]
  }

  lemma {:induction false} TerminatedStep(s: seq<byte>)
    requires s != []
    ensures Terminated(s) == First(s) + [NEWLINE] + Terminated(After(s))
  {
    var n := Find(s);
    if n == |s| {
      TakeAll(s);
      assert s[|s| - 1] in s[..n];
      assert s + [NEWLINE] + [] == s + [NEWLINE];
    } else {
      SplitAt(s, n);
      if After(s) != [] {
        assert After(s)[|After(s)| - 1] == s[|s| - 1];
        Concat(First(s) + [NEWLINE], After(s), [NEWLINE]);
      }
    }
  }

  /** Joining inverts splitting up to one final newline. */
  lemma {:induction false} JoinSplit(s: seq<byte>)
    ensures Join(Lines(s)) == Terminated(s)
    ensures forall l :: l in Lines(s) ==> NoNewline(l)
    decreases |s|
  {
    if s != [] {
      JoinSplit(After(s));
      TerminatedStep(s);
      assert ([First(s)] + Lines(After(s)))[1..] == Lines(After(s));
    }
  }

  // ---------- in place

  /** The buffer after the newlines before p have become NULs. */
  function Blanked(s: seq<byte>, p: nat): (r: seq<byte>)
    ensures |r| == |s|
  {
    seq(|s|, k requires 0 <= k < |s| => if k < p && s[k] == NEWLINE then 0 else s[k])
  }

  /** The buffer when the scan stands at p. */
  ghost predicate Scanned(buf: seq<byte>, s: seq<byte>, p: nat) {
    p <= |s| && buf == Blanked(s, p) + [0]
  }

  lemma {:induction false} BlankedStep(s: seq<byte>, p: nat, n: nat)
    requires p + n <= |s| && NoNewline(s[p..][..n])
    ensures Blanked(s, p + n) == Blanked(s, p)
    ensures p + n < |s| && s[p + n] == NEWLINE ==> Blanked(s, p + n + 1) == Blanked(s, p)[p + n := 0]
  {
    forall k | p <= k < p + n ensures s[k] != NEWLINE {
      assert s[k] == s[p..][..n][k - p];
    }
  }

  lemma {:induction false} ScannedStep(buf: seq<byte>, s: seq<byte>, p: nat)
    requires Scanned(buf, s, p) && p < |s|
    ensures var n := Find(s[p..]);
            if p + n == |s| then Scanned(buf, s, |s|) && After(s[p..]) == []
            else Scanned(buf[p + n := 0], s, p + n + 1) && After(s[p..]) == s[p + n + 1..]
  {
    var n := Find(s[p..]);
    BlankedStep(s, p, n);
    if p + n < |s| {
      assert (Blanked(s, p) + [0])[p + n := 0] == Blanked(s, p)[p + n := 0] + [0];
    }
  }

  /** One turn of the loop: end the line at p with a NUL, add it, and step over it. */
  method TakeLine(sys: System, str: array<byte>, p: nat, lines: StringsBuf, ghost s: seq<byte>)
    returns (r: int, more: bool, p': nat)
    requires Scanned(str[..], s, p) && p < |s| && 0 !in s && lines.Valid()
    modifies sys, str, lines, lines.argv
    ensures r == 0 || r == -1
    ensures r == 0 <==> sys.failed == old(sys.failed)
    ensures r == 0 ==> lines.Valid() && lines.Contents() == old(lines.Contents()) + [First(s[p..])]
    ensures lines.argv == old(lines.argv) || lines.argv == null || fresh(lines.argv)
    ensures r == -1 ==> lines.argv == null
    ensures p' > p && Scanned(str[..], s, p') && After(s[p..]) == s[p'..] && (!more ==> p' == |s|)
  {
    ScannedStep(str[..], s, p);
    var pend, line := FindNewline(str, p, s);
    more, p' := str[pend] != 0, pend;
    if more {
      ghost var was := str[..];
      str[pend] := 0;
      assert str[..] == was[pend := 0];
      p' := pend + 1;
    }
    r := lines.Add(sys, line);
  }

  /**
   * split_lines on a NUL-terminated buffer: newlines are overwritten with NULs in place and
   * each line is added to a fresh list.  Only newlines change, up to where memory ran out if it
   * did and there is no result.
   */
  method SplitLines(sys: System, str: array<byte>, ghost s: seq<byte>)
    returns (ok: bool, lines: StringsBuf, ghost upto: nat)
    requires str[..] == s + [0] && 0 !in s
    modifies sys, str
    ensures ok <==> sys.failed == old(sys.failed)
    ensures fresh(lines) && (lines.argv == null || fresh(lines.argv))
    ensures ok ==> lines.Valid() && lines.Contents() == Lines(s) && upto == |s|
    ensures !ok ==> lines.argv == null && upto <= |s|
    ensures str[..] == Blanked(s, upto) + [0]
  {
    lines := new StringsBuf();
    var p := 0;
    assert [] + Lines(s) == Lines(s) && Blanked(s, 0) == s && s[0..] == s;
    while true
      invariant Scanned(str[..], s, p) && sys.failed == old(sys.failed)
      invariant lines.Valid() && fresh(lines) && (lines.argv == null || fresh(lines.argv))
      invariant lines.Contents() + Lines(s[p..]) == Lines(s)
      decreases |s| - p
    {
      AtEnd(str[..], s, p);
      if str[p] == 0 {
        break;                             // empty last line
      }
      Concat(lines.Contents(), [First(s[p..])], Lines(After(s[p..])));
      var r, more;
      r, more, p := TakeLine(sys, str, p, lines, s);
      if r == -1 {
        return false, lines, p;
      }
      if !more {
        break;
      }
    }
    assert lines.Contents() + [] == lines.Contents();
    var failed := sys.Fails();             // end_stringsbuf adds the final NULL
    if failed {
      lines.argv := null;
    }
    return !failed, lines, p;
  }

  lemma {:induction false} AtEnd(buf: seq<byte>, s: seq<byte>, p: nat)
    requires Scanned(buf, s, p) && 0 !in s
    ensures p < |buf| && (buf[p] == 0 <==> p == |s|)
  {
    assert buf[p] == (Blanked(s, p) + [0])[p];
    if p < |s| {
      assert s[p] in s;
    }
  }

  /** strchr (p, newline), and the line that strdup then copies. */
  method FindNewline(str: array<byte>, p: nat, ghost s: seq<byte>) returns (pend: nat, line: seq<byte>)
    requires p < |s| && str[..] == Blanked(s, p) + [0] && 0 !in s
    ensures pend == p + Find(s[p..]) && pend <= |s| && line == First(s[p..])
    ensures str[pend] == 0 <==> pend == |s|
  {
    pend := p;
    InBuffer(str[..], s, p, p);
    while str[pend] != 0 && str[pend] != NEWLINE
      invariant p <= pend <= |s| && NoNewline(s[p..pend])
      invariant pend < |s| ==> str[pend] == s[pend] && s[pend] != 0
      invariant pend == |s| ==> str[pend] == 0
      decreases |s| - pend
    {
      assert s[p..pend + 1] == s[p..pend] + [s[pend]];
      pend := pend + 1;
      InBuffer(str[..], s, p, pend);
    }
    Found(s, p, pend);
    line := str[p..pend];
    forall k | p <= k < pend ensures str[k] == s[k] {
      InBuffer(str[..], s, p, k);
    }
    assert line == s[p..pend];
  }

  /** What is behind the scan is as it was, up to the final NUL. */
  lemma {:induction false} InBuffer(buf: seq<byte>, s: seq<byte>, p: nat, k: nat)
    requires p <= k <= |s| && buf == Blanked(s, p) + [0] && 0 !in s
    ensures k < |s| ==> buf[k] == s[k] && s[k] != 0
    ensures k == |s| ==> buf[k] == 0
  {
    assert buf[k] == (Blanked(s, p) + [0])[k];
    if k < |s| {
      assert s[k] in s;
    }
  }

  lemma {:induction false} Found(s: seq<byte>, p: nat, pend: nat)
    requires p <= pend <= |s| && NoNewline(s[p..pend]) && (pend < |s| ==> s[pend] == NEWLINE)
    ensures Find(s[p..]) == pend - p && First(s[p..]) == s[p..pend]
  {
    assert s[p..] == s[p..pend] + s[pend..];
    FindAt(s[p..pend], s[pend..]);
    Take(s[p..pend], s[pend..]);
  }
}
