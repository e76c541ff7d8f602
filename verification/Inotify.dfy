/**
 * The streaming inotify reader: a static buffer carries an incomplete event from
 * one read, and one call, to the next.  It must agree with parsing all the bytes
 * ever read in one go.
 */
module Inotify {
  import opened Bytes
  import opened Seqs
  import opened Wire
  import opened Faults

  const CAPACITY: nat := 64 * 1024 * 1024
  const HEADER: nat := 16
  const PATH_MAX: nat := 4096
  const REPLY_HEADER: nat := 40

  datatype Event = Event(wd: int, mask: int, cookie: int, name: seq<byte>)

  /** A 32-bit field of struct inotify_event, in the byte order of the appliance (x86). */
  function Field(b: seq<byte>, at: nat): nat
    requires at + 4 <= |b|
  {
    (b[at] as int) + (b[at + 1] as int) * 0x100 + (b[at + 2] as int) * 0x1_0000 + (b[at + 3] as int) * 0x100_0000
  }

  function Len(b: seq<byte>): nat
    requires |b| >= HEADER
  {
    Field(b, 12)
  }

  predicate Complete(b: seq<byte>) {
    |b| >= HEADER && |b| >= HEADER + Len(b)
  }

  function Signed(n: nat): int { if n < 0x8000_0000 then n else n - 0x1_0000_0000 }

  function First(b: seq<byte>): Event
    requires Complete(b)
  {
    Event(Signed(Field(b, 0)), Field(b, 4), Field(b, 8), CString(b[HEADER..HEADER + Len(b)]))
  }

  function Rest(b: seq<byte>): (r: seq<byte>)
    requires Complete(b)
    ensures |r| < |b|
  {
    b[HEADER + Len(b)..]
  }

  // ---------- the one-shot parser

  function Events(b: seq<byte>): seq<Event>
    decreases |b|
  {
    if Complete(b) then [First(b)] + Events(Rest(b)) else []
  }

  function Leftover(b: seq<byte>): seq<byte>
    decreases |b|
  {
    if Complete(b) then Leftover(Rest(b)) else b
  }

  /** No event that starts in b claims a name longer than PATH_MAX. */
  predicate LensOk(b: seq<byte>)
    decreases |b|
  {
    |b| >= HEADER ==> Len(b) <= PATH_MAX && (Complete(b) ==> LensOk(Rest(b)))
  }

  lemma {:induction false} FirstOfAppend(a: seq<byte>, b: seq<byte>)
    requires Complete(a)
    ensures Complete(a + b) && First(a + b) == First(a) && Rest(a + b) == Rest(a) + b
  {
    assert Len(a + b) == Len(a);
    assert (a + b)[HEADER..HEADER + Len(a)] == a[HEADER..HEADER + Len(a)];
  }

  /** Parsing may stop anywhere and go on with the leftover and the bytes that follow. */
  lemma {:induction false} ParseAppend(a: seq<byte>, b: seq<byte>)
    ensures Events(a + b) == Events(a) + Events(Leftover(a) + b)
    ensures Leftover(a + b) == Leftover(Leftover(a) + b)
    decreases |a|
  {
    if Complete(a) {
      FirstOfAppend(a, b);
      ParseAppend(Rest(a), b);
      Concat([First(a)], Events(Rest(a)), Events(Leftover(a) + b));
    } else {
      assert Events(a) + Events(a + b) == Events(a + b);
    }
  }

  /** What is left over is always a strict prefix of a single event. */
  lemma {:induction false} LeftoverIsPartial(b: seq<byte>)
    ensures !Complete(Leftover(b)) && Events(Leftover(b)) == []
    ensures LensOk(b) ==> |Leftover(b)| < HEADER + PATH_MAX
    decreases |b|
  {
    if Complete(b) {
      LeftoverIsPartial(Rest(b));
    }
  }

  lemma {:induction false} LensOkPrefix(a: seq<byte>, b: seq<byte>)
    requires LensOk(a + b)
    ensures LensOk(a)
    decreases |a|
  {
    if |a| >= HEADER {
      assert Len(a + b) == Len(a);
      if Complete(a) {
        FirstOfAppend(a, b);
        LensOkPrefix(Rest(a), b);
      }
    }
  }

  /** Some complete event claims a name longer than PATH_MAX. */
  predicate Bad(b: seq<byte>)
    decreases |b|
  {
    Complete(b) && (Len(b) > PATH_MAX || Bad(Rest(b)))
  }

  lemma {:induction false} BadAppend(a: seq<byte>, b: seq<byte>)
    requires Bad(a)
    ensures Bad(a + b)
    decreases |a|
  {
    FirstOfAppend(a, b);
    assert Len(a + b) == Len(a);
    if Len(a) <= PATH_MAX {
      BadAppend(Rest(a), b);
    }
  }

  lemma {:induction false} BadLens(b: seq<byte>)
    requires Bad(b)
    ensures !LensOk(b)
    decreases |b|
  {
    if Len(b) <= PATH_MAX {
      BadLens(Rest(b));
    }
  }

  lemma {:induction false} LensOkLeftover(a: seq<byte>, b: seq<byte>)
    requires LensOk(a + b)
    ensures LensOk(Leftover(a) + b)
    decreases |a|
  {
    if Complete(a) {
      FirstOfAppend(a, b);
      LensOkLeftover(Rest(a), b);
    }
  }

  // ---------- what the kernel writes

  /** A 32-bit word of struct inotify_event, low byte first. */
  function PutWord(n: u32): (s: seq<byte>)
    ensures |s| == 4
  {
    [n % 0x100, n / 0x100 % 0x100, n / 0x1_0000 % 0x100, n / 0x100_0000]
  }

  predicate Recordable(e: Event) {
    && -0x8000_0000 <= e.wd < 0x8000_0000
    && 0 <= e.mask < 0x1_0000_0000 && 0 <= e.cookie < 0x1_0000_0000
    && 0 !in e.name
  }

  /** The name is followed by at least one NUL; an event without a name need have none. */
  predicate Paddable(e: Event, pad: nat) { (pad >= 1 || e.name == []) && |e.name| + pad < 0x1_0000_0000 }

  /** struct inotify_event: wd, mask, cookie, len, and len bytes of name and padding. */
  function Record(e: Event, pad: nat): seq<byte>
    requires Recordable(e) && Paddable(e, pad)
  {
    PutWord(if e.wd < 0 then e.wd + 0x1_0000_0000 else e.wd) + PutWord(e.mask) + PutWord(e.cookie)
    + PutWord(|e.name| + pad) + (e.name + Zeros(pad))
  }

  function Records(es: seq<Event>, pads: seq<nat>): seq<byte>
    requires |pads| == |es| && forall k :: 0 <= k < |es| ==> Recordable(es[k]) && Paddable(es[k], pads[k])
  {
    if es == [] then [] else Record(es[0], pads[0]) + Records(es[1..], pads[1..])
  }

  lemma {:induction false} FieldIsWord(b: seq<byte>, at: nat, n: u32)
    requires at + 4 <= |b| && b[at..at + 4] == PutWord(n)
    ensures Field(b, at) == n
  {
    var s := b[at..at + 4];
    assert b[at] == s[0] && b[at + 1] == s[1] && b[at + 2] == s[2] && b[at + 3] == s[3];
    Digits(n);
  }

  lemma {:induction false} HeaderSlices(w: seq<byte>, m: seq<byte>, c: seq<byte>, l: seq<byte>, rest: seq<byte>)
    requires |w| == |m| == |c| == |l| == 4
    ensures var b := w + m + c + l + rest;
            && b[0..4] == w && b[4..8] == m && b[8..12] == c && b[12..16] == l && b[16..] == rest
  {
  }

  lemma {:induction false} FrontRecord(e: Event, pad: nat, rest: seq<byte>)
    requires Recordable(e) && Paddable(e, pad)
    ensures var b := Record(e, pad) + rest; Complete(b) && First(b) == e && Rest(b) == rest
  {
    var wd := if e.wd < 0 then e.wd + 0x1_0000_0000 else e.wd;
    var name := e.name + Zeros(pad);
    var w, m, c, l := PutWord(wd), PutWord(e.mask), PutWord(e.cookie), PutWord(|name|);
    var b := Record(e, pad) + rest;
    Concat(w + m + c + l, name, rest);
    HeaderSlices(w, m, c, l, name + rest);
    FieldIsWord(b, 0, wd);
    FieldIsWord(b, 4, e.mask);
    FieldIsWord(b, 8, e.cookie);
    FieldIsWord(b, 12, |name|);
    NameSlice(b, name, rest);
    CStringOf(e.name, Zeros(pad));
  }

  lemma {:induction false} NameSlice(b: seq<byte>, name: seq<byte>, rest: seq<byte>)
    requires |b| >= HEADER && b[HEADER..] == name + rest
    ensures |b| == HEADER + |name| + |rest|
    ensures b[HEADER..HEADER + |name|] == name && b[HEADER + |name|..] == rest
  {
    assert b[HEADER..HEADER + |name|] == b[HEADER..][..|name|];
    assert b[HEADER + |name|..] == b[HEADER..][|name|..];
  }

  /** Parsing what the kernel wrote gives back every event with all its fields, and nothing is left over. */
  lemma {:induction false} RecordsParse(es: seq<Event>, pads: seq<nat>)
    requires |pads| == |es| && forall k :: 0 <= k < |es| ==> Recordable(es[k]) && Paddable(es[k], pads[k])
    ensures Events(Records(es, pads)) == es && Leftover(Records(es, pads)) == []
  {
    if es != [] {
      RecordsParse(es[1..], pads[1..]);
      FrontRecord(es[0], pads[0], Records(es[1..], pads[1..]));
      assert es == [es[0]] + es[1..];
    }
  }

  // ---------- the size of the reply

  /** What do_inotify_read subtracts from its estimate of the space left. */
  function Cost(es: seq<Event>): nat {
    if es == [] then 0 else Cost(es[..|es| - 1]) + (16 + 4 + |es[|es| - 1].name| + 4)
  }

  /** The XDR encoding: a count, and for each event a hyper, two words and a string. */
  function EncodedSize(es: seq<Event>): nat {
    if es == [] then 4
    else
      var n := |es[|es| - 1].name|;
      EncodedSize(es[..|es| - 1]) + (8 + 4 + 4 + 4 + n + Padding(n))
  }

  /** The reply body itself. */
  function PutReply(es: seq<Event>): seq<byte>
    requires |es| < 0x1_0000_0000
    requires forall e :: e in es ==> Recordable(e) && |e.name| < 0x1_0000_0000
  {
    PutU32(|es|) + PutReplyEvents(es)
  }

  function PutReplyEvents(es: seq<Event>): seq<byte>
    requires forall e :: e in es ==> Recordable(e) && |e.name| < 0x1_0000_0000
  {
    if es == [] then []
    else
      assert es[|es| - 1] in es;
      PutReplyEvents(es[..|es| - 1]) + PutReplyEvent(es[|es| - 1])
  }

  function PutReplyEvent(e: Event): seq<byte>
    requires Recordable(e) && |e.name| < 0x1_0000_0000
  {
    PutU64(if e.wd < 0 then e.wd + 0x1_0000_0000_0000_0000 else e.wd) + PutU32(e.mask) + PutU32(e.cookie)
    + PutU32(|e.name|) + e.name + Zeros(Padding(|e.name|))
  }

  lemma {:induction false} ReplySize(es: seq<Event>)
    requires forall e :: e in es ==> Recordable(e) && |e.name| < 0x1_0000_0000
    ensures 4 + |PutReplyEvents(es)| == EncodedSize(es)
  {
    if es != [] {
      assert es[|es| - 1] in es;
      ReplySize(es[..|es| - 1]);
    }
  }

  lemma {:induction false} EstimateIsSafe(es: seq<Event>)
    ensures EncodedSize(es) <= 4 + Cost(es)
  {
    if es != [] {
      EstimateIsSafe(es[..|es| - 1]);
    }
  }

  lemma {:induction false} CostSnoc(es: seq<Event>, e: Event)
    ensures Cost(es + [e]) == Cost(es) + (16 + 4 + |e.name| + 4)
  {
    assert (es + [e])[..|es|] == es;
  }

  lemma {:induction false} CostAppend(a: seq<Event>, b: seq<Event>)
    ensures Cost(a + b) == Cost(a) + Cost(b)
  {
    if b == [] {
      assert a + b == a;
    } else {
      CostAppend(a, b[..|b| - 1]);
      assert (a + b)[..|a + b| - 1] == a + b[..|b| - 1];
    }
  }

  /** An event takes at most half as much again in the estimate as it took in the buffer. */
  lemma {:induction false} CostOfBytes(b: seq<byte>)
    ensures 2 * Cost(Events(b)) <= 3 * |b|
    decreases |b|
  {
    if Complete(b) {
      CostOfBytes(Rest(b));
      CostAppend([First(b)], Events(Rest(b)));
      CostSnoc([], First(b));
      assert [] + [First(b)] == [First(b)];
    }
  }

  /** The reply is within the message size, its header included. */
  predicate Fits(es: seq<Event>) { REPLY_HEADER + EncodedSize(es) <= MESSAGE_MAX }

  /** The reply to a call that had `last` bytes in its buffer when it parsed for the last time. */
  lemma {:induction false} ReplyFits(es: seq<Event>, last: nat)
    requires 2 * Cost(es) <= MESSAGE_MAX + 3 * last && 3 * last <= MESSAGE_MAX - 88
    ensures Fits(es)
  {
    EstimateIsSafe(es);
  }

  lemma {:induction false} EncodedAppend(a: seq<Event>, b: seq<Event>)
    ensures EncodedSize(a + b) + 4 == EncodedSize(a) + EncodedSize(b)
  {
    if b == [] {
      assert a + b == a;
    } else {
      EncodedAppend(a, b[..|b| - 1]);
      assert (a + b)[..|a + b| - 1] == a + b[..|b| - 1];
    }
  }

  lemma {:induction false} SizeAtLeast(es: seq<Event>)
    ensures EncodedSize(es) >= 4
  {
    if es != [] {
      SizeAtLeast(es[..|es| - 1]);
    }
  }

  /**
   * A call that has taken some bytes: the events taken are the first of those that were waiting, in
   * the buffer and in the kernel's queue, and all of them if nothing is left in the queue.
   */
  lemma {:induction false} TakenOfWaiting(got0: seq<byte>, pending0: seq<byte>, got: seq<byte>, pending: seq<byte>,
                                          taken: seq<Event>)
    requires got + pending == got0 + pending0 && Events(got) == Events(got0) + taken
    ensures var waiting := Events(Leftover(got0) + pending0);
            && taken <= waiting && (pending == [] ==> taken == waiting)
            && (Fits(waiting) ==> Fits(taken))
  {
    var waiting, later := Events(Leftover(got0) + pending0), Events(Leftover(got) + pending);
    ParseAppend(got0, pending0);
    ParseAppend(got, pending);
    CancelFront(Events(got0), taken, later, waiting);
    EncodedAppend(taken, later);
    SizeAtLeast(later);
    if pending == [] {
      LeftoverIsPartial(got);
      assert Leftover(got) + [] == Leftover(got);
      assert taken + [] == taken;
    }
  }

  lemma {:induction false} CancelFront<T>(x: seq<T>, a: seq<T>, b: seq<T>, c: seq<T>)
    requires x + a + b == x + c
    ensures a + b == c
  {
    Concat(x, a, b);
    Drop(x, a + b);
    Drop(x, c);
  }

  // ---------- a queue that does not fit one reply

  const IN_ACCESS: byte := 0x01
  const IN_OPEN: byte := 0x20

  /** The mask of event i when a watched file is opened and read in turn. */
  function TurnMask(i: nat): byte { if i % 2 == 0 then IN_OPEN else IN_ACCESS }

  /** n events without names on watch 1, the first with the mask of event i. */
  function OpensAndReads(i: nat, n: nat): (b: seq<byte>)
    ensures |b| == 16 * n
  {
    seq(16 * n, k requires 0 <= k => if k % 16 == 0 then 1 else if k % 16 == 4 then TurnMask(i + k / 16) else 0)
  }

  function OpenAndReadEvents(i: nat, n: nat): (es: seq<Event>)
    ensures |es| == n
  {
    seq(n, k requires 0 <= k => Event(1, TurnMask(i + k), 0, []))
  }

  lemma {:induction false} OpensAndReadsFront(i: nat, n: nat)
    requires n > 0
    ensures var b := OpensAndReads(i, n);
            && Complete(b) && Len(b) == 0 && First(b) == Event(1, TurnMask(i), 0, [])
            && Rest(b) == OpensAndReads(i + 1, n - 1)
  {
    var b := OpensAndReads(i, n);
    assert b[HEADER..HEADER + 0] == [];
    var r := OpensAndReads(i + 1, n - 1);
    forall k | 0 <= k < |r| ensures b[16..][k] == r[k] {
      assert (k + 16) % 16 == k % 16 && (k + 16) / 16 == k / 16 + 1;
    }
  }

  lemma {:induction false} OpensAndReadsParse(i: nat, n: nat)
    ensures Events(OpensAndReads(i, n)) == OpenAndReadEvents(i, n)
    decreases n
  {
    if n > 0 {
      OpensAndReadsFront(i, n);
      OpensAndReadsParse(i + 1, n - 1);
      OpenAndReadEventsFront(i, n);
    }
  }

  lemma {:induction false} OpenAndReadEventsFront(i: nat, n: nat)
    requires n > 0
    ensures OpenAndReadEvents(i, n) == [Event(1, TurnMask(i), 0, [])] + OpenAndReadEvents(i + 1, n - 1)
  {
  }

  lemma {:induction false} OpensAndReadsLens(i: nat, n: nat)
    ensures LensOk(OpensAndReads(i, n))
    decreases n
  {
    if n > 0 {
      OpensAndReadsFront(i, n);
      OpensAndReadsLens(i + 1, n - 1);
    }
  }

  lemma {:induction false} NeighboursDiffer(i: nat, n: nat)
    ensures var es := OpenAndReadEvents(i, n); forall k :: 0 <= k < n - 1 ==> es[k] != es[k + 1]
  {
    var es := OpenAndReadEvents(i, n);
    forall k | 0 <= k < n - 1 ensures es[k] != es[k + 1] {
      assert es[k].mask == TurnMask(i + k) && es[k + 1].mask == TurnMask(i + k + 1);
    }
  }

  lemma {:induction false} OpensAndReadsSize(i: nat, n: nat)
    ensures EncodedSize(OpenAndReadEvents(i, n)) == 4 + 20 * n
  {
    if n > 0 {
      assert OpenAndReadEvents(i, n)[..n - 1] == OpenAndReadEvents(i, n - 1);
      OpensAndReadsSize(i, n - 1);
    }
  }

  /**
   * A file that is opened and read in turn: no two neighbouring events are the same, so the kernel
   * merges none.  A queue of 209713 of them fits the reply and one of 209714 does not, while both
   * fit the buffer many times over; do_inotify_init lets the caller ask for a queue of that length.
   */
  lemma {:induction false} QueueCanExceed(n: nat)
    ensures var es := Events(OpensAndReads(0, n));
            && (Fits(es) <==> n <= 209_713)
            && |es| == n && forall k :: 0 <= k < n - 1 ==> es[k] != es[k + 1]
    ensures LensOk(OpensAndReads(0, n)) && (n <= 209_714 ==> 10 * |OpensAndReads(0, n)| < CAPACITY)
  {
    OpensAndReadsParse(0, n);
    OpensAndReadsSize(0, n);
    OpensAndReadsLens(0, n);
    NeighboursDiffer(0, n);
  }

  // ---------- the reader

  datatype Result = Ok(events: seq<Event>) | NotOpen | ReadError | UnexpectedEof | BadLength(len: nat)

  /** The inner loop: `n` moves over the complete events in the valid part of the buffer. */
  method ParseBuffer(data: seq<byte>, space0: int)
    returns (ok: bool, bad: nat, out: seq<Event>, n: nat, space: int)
    ensures ok <==> !Bad(data)
    ensures ok ==> n <= |data| && data[n..] == Leftover(data) && out == Events(data)
    ensures !ok ==> bad > PATH_MAX
    ensures space == space0 - Cost(out)
  {
    out, n, space, bad := [], 0, space0, 0;
    var b := data;
    while n < |data|
      invariant n <= |data| && space == space0 - Cost(out) && b == data[n..]
      invariant Remaining(data, out, b)
    {
      if |b| < HEADER || |b| < HEADER + Len(b) {
        break;
      }
      var len := Len(b);
      if len > PATH_MAX {
        return false, len, out, n, space;
      }
      var e := First(b);
      Advance(data, out, b);
      CostSnoc(out, e);
      DropTwice(data, n, HEADER + len);
      out := out + [e];
      space := space - (16 + 4 + |e.name| + 4);
      n := n + (HEADER + len);
      b := b[HEADER + len..];
    }
    NothingRemains(data, out, b);
    return true, 0, out, n, space;
  }

  class Reader {
    const buf: array<byte>       // inotify_buf: buf[..posn] is valid
    var posn: nat
    var open: bool               // inotify_fd >= 0
    var pending: seq<byte>       // what the kernel has still to give
    ghost var got: seq<byte>     // all bytes read since the handle was opened
    const sys: System
    ghost var dried: nat         // how often read(2) said that nothing is there

    ghost predicate Shape()
      reads this
    {
      buf.Length == CAPACITY && posn <= CAPACITY
    }

    /** The buffer is what a one-shot parse of all bytes read leaves over. */
    ghost predicate Valid()
      reads this, buf
    {
      Shape() && buf[..posn] == Leftover(got)
    }

    /** The events that are complete when all that the kernel has is added to the buffer. */
    ghost function Waiting(): seq<Event>
      requires Shape()
      reads this, buf
    {
      Events(buf[..posn] + pending)
    }

    /** An overlong event was found, and stays in the buffer. */
    ghost predicate Stuck()
      reads this, buf
    {
      Shape() && Bad(buf[..posn])
    }

    constructor (sys: System)
      ensures Valid() && !open && got == [] && fresh(buf) && this.sys == sys
    {
      buf := new byte[CAPACITY](_ => 0);
      this.sys := sys;
      posn, open, pending, got, dried := 0, false, [], [], 0;
    }

    /** do_inotify_close: a failing close(2) keeps the handle and the partial event. */
    method Close() returns (r: int)
      requires Shape()
      modifies this, sys
      ensures r == 0 <==> old(open) && sys.failed == old(sys.failed)
      ensures r == 0 || (r == -1 && posn == old(posn) && got == old(got) && pending == old(pending))
      ensures r == 0 ==> old(open) && !open && posn == 0 && got == []
      ensures r == -1 ==> open == old(open)
    {
      if !open {
        return -1;
      }
      var failed := sys.Fails();
      if failed {
        return -1;
      }
      open, posn, pending, got := false, 0, [], [];
      return 0;
    }

    /** do_inotify_init: a new queue, and the partial event is dropped with the old one. */
    method Init(maxEvents: int, stream: seq<byte>) returns (r: int)
      requires Shape() && (!open ==> posn == 0 && got == [])
      modifies this, sys
      ensures r == 0 || r == -1
      ensures r == 0 <==> maxEvents >= 0 && sys.failed == old(sys.failed)
      ensures r == 0 ==> maxEvents >= 0 && open && Valid() && got == [] && pending == stream
      ensures r == -1 ==> if open then posn == old(posn) && got == old(got) && pending == old(pending)
                          else posn == 0 && got == []
    {
      if maxEvents < 0 {
        return -1;
      }
      if maxEvents > 0 {
        var failed := sys.Fails();         // max_queued_events
        if failed {
          return -1;
        }
      }
      if open {
        r := Close();
        if r == -1 {
          return;
        }
      }
      var failed := sys.Fails();           // inotify_init
      if failed {
        return -1;
      }
      open, pending := true, stream;
      return 0;
    }

    /** read(2) into the free part of the buffer: -1 with EAGAIN or not, 0, or some bytes. */
    method Read() returns (r: int, again: bool, ghost chunk: seq<byte>)
      requires Shape()
      modifies buf, this`pending, this`dried, sys
      ensures sys.failed == old(sys.failed) + if r == -1 && !again then 1 else 0
      ensures dried == old(dried) + if r == -1 && again then 1 else 0
      ensures -1 <= r && (r > 0 ==> posn + r <= CAPACITY && chunk + pending == old(pending) && |chunk| == r)
      ensures r > 0 ==> buf[..posn + r] == old(buf[..posn]) + chunk
      ensures r <= 0 ==> buf[..] == old(buf[..]) && pending == old(pending)
      ensures r == 0 && posn < CAPACITY ==> old(pending) == []
    {
      chunk := [];
      var failed := sys.Fails();
      if failed {
        return -1, false, chunk;
      }
      if * {
        dried := dried + 1;
        return -1, true, chunk;
      }
      if posn == CAPACITY || pending == [] {
        return 0, false, chunk;
      }
      var n: nat :| 1 <= n <= |pending| && posn + n <= CAPACITY;
      chunk := pending[..n];
      forall k | 0 <= k < n {
        buf[posn + k] := pending[k];
      }
      assert buf[..posn + n] == old(buf[..posn]) + chunk;
      pending := pending[n..];
      return n, false, chunk;
    }

    /** memmove the unprocessed tail to the front. */
    method Shift(n: nat)
      requires Shape() && n <= posn
      modifies buf, this`posn
      ensures Shape() && buf[..posn] == old(buf[n..posn])
    {
      forall k | 0 <= k < posn - n {
        buf[k] := buf[n + k];
      }
      posn := posn - n;
    }

    /** Take every complete event out of buf[..posn]; n is where the incomplete one starts. */
    method TakeEvents(space0: int) returns (ok: bool, bad: nat, out: seq<Event>, n: nat, space: int)
      requires Shape()
      ensures ok <==> !Bad(buf[..posn])
      ensures ok ==> n <= posn && buf[n..posn] == Leftover(buf[..posn]) && out == Events(buf[..posn])
      ensures !ok ==> bad > PATH_MAX
      ensures space == space0 - Cost(out)
    {
      ok, bad, out, n, space := ParseBuffer(buf[..posn], space0);
      assert ok ==> buf[..posn][n..] == buf[n..posn];
    }

    /** n more bytes are in the buffer: take the complete events and move the rest to the front. */
    method Absorb(n: nat, space0: int, ghost all: seq<byte>)
      returns (ok: bool, bad: nat, out: seq<Event>, space: int)
      requires Shape() && posn + n <= CAPACITY && buf[..posn + n] == all
      modifies this`posn, buf
      ensures ok <==> !Bad(all)
      ensures !ok ==> Stuck() && bad > PATH_MAX
      ensures ok ==> Shape() && buf[..posn] == Leftover(all) && out == Events(all) && posn <= old(posn) + n
      ensures ok ==> space == space0 - Cost(out) && 2 * Cost(out) <= 3 * |all|
    {
      posn := posn + n;
      var k;
      ok, bad, out, k, space := TakeEvents(space0);
      if ok {
        CostOfBytes(all);
        Shift(k);
      }
    }

    /** One read and what it completes: -1 nothing to read, 0 failed, 1 go on. */
    method Pass(space0: int, ghost sync: bool)
      returns (go: int, r: Result, out: seq<Event>, space: int, ghost last: nat)
      requires if sync then Valid() else Stuck()
      modifies this, buf, sys
      ensures open == old(open)
      ensures sys.failed == old(sys.failed) + if r.ReadError? then 1 else 0
      ensures go == -1 ==> dried > old(dried)
      ensures dried >= old(dried) && (r.UnexpectedEof? ==> pending == [] || posn == CAPACITY)
      ensures go == 1 || go == 0 || go == -1
      ensures !sync ==> Stuck() && go != 1
      ensures go == 0 <==> r.ReadError? || r.UnexpectedEof? || r.BadLength?
      ensures !r.NotOpen? && (go != 1 ==> out == [])
      ensures sync && r.BadLength? ==> Stuck() && !LensOk(old(got + pending))
      ensures sync && !r.BadLength? ==> Valid() && got + pending == old(got + pending)
      ensures sync && !r.BadLength? ==> Events(got) == old(Events(got)) + out
      ensures sync && r.UnexpectedEof? && LensOk(old(got + pending)) ==> pending == []
      ensures go == 1 ==> |pending| < |old(pending)| && posn + |pending| <= old(posn + |pending|)
      ensures go == 1 ==> last <= old(posn + |pending|)
      ensures go == 1 ==> space == space0 - Cost(out) && 2 * Cost(out) <= 3 * last && last <= CAPACITY
    {
      r, out, space, last := Ok([]), [], space0, 0;
      assert Events(got) + [] == Events(got);
      ghost var base := buf[..posn];
      var n, again, chunk := Read();
      if n <= 0 {
        assert buf[..posn] == old(buf[..])[..posn];
        RoomLeft(got, pending);
        if n == -1 && again {
          return -1, r, out, space, 0;
        }
        return 0, if n == 0 then UnexpectedEof else ReadError, out, space, 0;
      }
      if sync {
        Arrived(got, chunk, pending);
      } else {
        BadAppend(base, chunk);
      }
      last := posn + n;
      var ok, bad;
      ok, bad, out, space := Absorb(n, space0, base + chunk);
      if !ok {
        return 0, BadLength(bad), [], space, 0;
      }
      got := got + chunk;
      return 1, r, out, space, last;
    }

    /**
     * Whatever the kernel's split of the stream: on success the events returned extend the one-shot
     * parse of the bytes read before to that of the bytes read now, and the buffer holds its
     * leftover.  A failed read loses exactly the events taken in this call.  After an overlong name,
     * which is the only cause of a length error, no call returns an event until the handle is closed.
     * A call succeeds only when the kernel has said that nothing is left, or when the reply is large.
     *
     * The size of the reply: the events returned are the first of those waiting at the call, in the
     * buffer and in the kernel, so it is within the message size if all of them are; a call that
     * empties the queue returns all of them, so it is within the message size only if they are.
     * Otherwise it is bounded by `last`, the number of bytes in the buffer at the last parse.
     */
    method DoInotifyRead() returns (r: Result, ghost taken: seq<Event>, ghost last: nat)
      requires Valid() || Stuck()
      modifies this, buf, sys
      ensures open == old(open) && (r.NotOpen? <==> !open)
      ensures sys.failed == old(sys.failed) + if r.ReadError? then 1 else 0
      ensures r.Ok? ==> dried > old(dried) || 2 * Cost(r.events) >= MESSAGE_MAX
      ensures r.UnexpectedEof? ==> pending == [] || posn == CAPACITY
      ensures !open ==> unchanged(this) && unchanged(buf)
      ensures old(Valid()) && !r.BadLength? ==> Valid() && got + pending == old(got + pending)
      ensures old(Valid()) && !r.BadLength? ==> Events(got) == old(Events(got)) + taken
      ensures old(Valid()) && r.Ok? ==> r.events == taken
      ensures old(Valid()) && r.BadLength? ==> Stuck() && !LensOk(old(got + pending))
      ensures old(Valid()) && r.UnexpectedEof? && LensOk(old(got + pending)) ==> pending == []
      ensures old(Stuck()) ==> Stuck() && (r.Ok? ==> r.events == [])
      ensures old(Valid()) && r.Ok? ==> r.events <= old(Waiting())
      ensures old(Valid()) && r.Ok? && Fits(old(Waiting())) ==> Fits(r.events)
      ensures old(Valid()) && r.Ok? && pending == [] ==> r.events == old(Waiting())
      ensures old(Valid()) && r.Ok? && pending == [] ==> (Fits(r.events) <==> Fits(old(Waiting())))
      ensures r.Ok? ==> 2 * Cost(r.events) <= MESSAGE_MAX + 3 * last
      ensures r.Ok? ==> last <= CAPACITY && last <= old(posn) + |old(pending)|
      ensures r.Ok? && 3 * last <= MESSAGE_MAX - 88 ==> Fits(r.events)
    {
      ghost var sync := Valid();
      taken, last := [], 0;
      assert Events(got) + [] == Events(got);
      if sync {
        LeftoverIsPartial(got);            // so it is not stuck
      }
      if !open {
        return NotOpen, [], 0;
      }
      r, taken, last := CollectEvents(sync);
      if r.Ok? && 3 * last <= MESSAGE_MAX - 88 {
        ReplyFits(r.events, last);
      }
      if sync && r.Ok? {
        TakenOfWaiting(old(got), old(pending), got, pending, taken);
      }
    }

    /** The loop: read and parse until nothing is left, the reply is large, or something fails. */
    method CollectEvents(ghost sync: bool) returns (r: Result, ghost taken: seq<Event>, ghost last: nat)
      requires if sync then Valid() else Stuck()
      modifies this, buf, sys
      ensures open == old(open) && !r.NotOpen?
      ensures sys.failed == old(sys.failed) + if r.ReadError? then 1 else 0
      ensures r.Ok? ==> dried > old(dried) || 2 * Cost(r.events) >= MESSAGE_MAX
      ensures r.UnexpectedEof? ==> pending == [] || posn == CAPACITY
      ensures sync && !r.BadLength? ==> Valid() && got + pending == old(got + pending)
      ensures sync && !r.BadLength? ==> Events(got) == old(Events(got)) + taken
      ensures r.Ok? ==> r.events == taken
      ensures sync && r.BadLength? ==> Stuck() && !LensOk(old(got + pending))
      ensures sync && r.UnexpectedEof? && LensOk(old(got + pending)) ==> pending == []
      ensures !sync ==> Stuck() && (r.Ok? ==> r.events == [])
      ensures r.Ok? ==> 2 * Cost(r.events) <= MESSAGE_MAX + 3 * last
      ensures r.Ok? ==> last <= CAPACITY && last <= old(posn + |pending|)
    {
      var ret: seq<Event>, space := [], MESSAGE_MAX / 2;
      taken, last := [], 0;
      assert Events(got) + [] == Events(got);
      while space > 0
        invariant sys.failed == old(sys.failed) && dried >= old(dried)
        invariant open == old(open) && taken == ret && (!sync ==> Stuck() && ret == [])
        invariant sync ==> Valid() && got + pending == old(got + pending)
        invariant sync ==> Events(got) == old(Events(got)) + ret
        invariant space == MESSAGE_MAX / 2 - Cost(ret)
        invariant 2 * Cost(ret) <= MESSAGE_MAX + 3 * last && last <= CAPACITY
        invariant last <= old(posn + |pending|) && (sync ==> posn + |pending| <= old(posn + |pending|))
        decreases |pending|
      {
        var go, out;
        ghost var size;
        ghost var before := Events(got);
        go, r, out, space, size := Pass(space, sync);
        assert before + [] == before;
        if go == 0 {
          return;
        }
        if go == -1 {
          return Ok(ret), ret, last;
        }
        Concat(old(Events(got)), ret, out);
        CostAppend(ret, out);
        ret := ret + out;
        taken, last := ret, size;
      }
      return Ok(ret), taken, last;
    }

    /** Any number of calls: the lists returned, end to end, are the one-shot parse of the bytes read. */
    method ReadRepeatedly(calls: nat) returns (ok: bool, all: seq<Event>)
      requires Valid()
      modifies this, buf, sys
      ensures ok ==> Valid() && Events(got) == old(Events(got)) + all && got + pending == old(got + pending)
      ensures ok ==> !Complete(buf[..posn])
    {
      all := [];
      LeftoverIsPartial(got);
      assert Events(got) + [] == Events(got);
      for i := 0 to calls
        invariant Valid() && Events(got) == old(Events(got)) + all && got + pending == old(got + pending)
        invariant !Complete(buf[..posn])
      {
        var r, taken, last := DoInotifyRead();
        if !r.Ok? {
          return false, all;
        }
        Concat(old(Events(got)), all, r.events);
        all := all + r.events;
        LeftoverIsPartial(got);
      }
      return true, all;
    }
  }

  lemma {:induction false} RoomLeft(got: seq<byte>, pending: seq<byte>)
    ensures LensOk(got + pending) ==> |Leftover(got)| < HEADER + PATH_MAX
  {
    if LensOk(got + pending) {
      LensOkPrefix(got, pending);
      LeftoverIsPartial(got);
    }
  }

  lemma {:induction false} Arrived(got: seq<byte>, chunk: seq<byte>, pending: seq<byte>)
    ensures Events(got + chunk) == Events(got) + Events(Leftover(got) + chunk)
    ensures Leftover(got + chunk) == Leftover(Leftover(got) + chunk)
    ensures got + chunk + pending == got + (chunk + pending)
    ensures Bad(Leftover(got) + chunk) ==> !LensOk(got + (chunk + pending))
  {
    ParseAppend(got, chunk);
    Concat(got, chunk, pending);
    if Bad(Leftover(got) + chunk) && LensOk(got + chunk + pending) {
      BadLens(Leftover(got) + chunk);
      LensOkPrefix(got + chunk, pending);
      LensOkLeftover(got, chunk);
    }
  }

  /** The inner loop has moved `out` off the front of `all`; `b` is still to do. */
  ghost predicate Remaining(all: seq<byte>, out: seq<Event>, b: seq<byte>) {
    && out + Events(b) == Events(all) && Leftover(b) == Leftover(all)
    && (Bad(all) <==> Bad(b))
  }

  lemma {:induction false} NothingRemains(all: seq<byte>, out: seq<Event>, b: seq<byte>)
    requires Remaining(all, out, b) && !Complete(b)
    ensures out == Events(all) && b == Leftover(all) && !Bad(all)
  {
    assert out + [] == out;
  }

  lemma {:induction false} DropTwice<T>(s: seq<T>, n: nat, k: nat)
    requires n + k <= |s|
    ensures s[n..][k..] == s[n + k..]
  {
  }

  lemma {:induction false} Advance(all: seq<byte>, out: seq<Event>, b: seq<byte>)
    requires Remaining(all, out, b) && Complete(b) && Len(b) <= PATH_MAX
    ensures Remaining(all, out + [First(b)], Rest(b))
  {
    Concat(out, [First(b)], Events(Rest(b)));
  }
}
