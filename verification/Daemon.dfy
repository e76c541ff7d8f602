/**
 * The daemon's end of a connection: progress messages, and FileIn transfers with the
 * chunk receiver, cancellation by either side and `upload`.
 */
module Daemon {
  import opened Bytes
  import opened Seqs
  import opened Wire
  import opened Sockets
  import opened Files
  import P = Progress

  // ---------- what the library sends during a transfer

  /** Stale cancel words between frames, data chunks, one terminator. */
  datatype In = StaleWord | Data(d: seq<byte>) | EndOfFile | LibraryCancel

  predicate LegalIn(i: In) { i.Data? ==> 1 <= |i.d| <= MAX_CHUNK_SIZE }

  predicate Terminator(i: In) { i.EndOfFile? || i.LibraryCancel? }

  function ChunkOf(i: In): (c: Chunk)
    requires LegalIn(i) && !i.StaleWord?
    ensures |c.data| <= MAX_CHUNK_SIZE
  {
    match i
    case Data(d) => Chunk(0, d)
    case EndOfFile => Chunk(0, [])
    case LibraryCancel => Chunk(1, [])
  }

  function EventOf(i: In): Event
    requires LegalIn(i)
  {
    if i.StaleWord? then Stale else Frame(PutChunk(ChunkOf(i)))
  }

  function Events(items: seq<In>): seq<Event>
    requires forall i :: i in items ==> LegalIn(i)
  {
    if items == [] then [] else [EventOf(items[0])] + Events(items[1..])
  }

  /** A well-formed transfer: exactly one terminator, at the end. */
  predicate Transfer(items: seq<In>) {
    && items != []
    && (forall i :: i in items ==> LegalIn(i))
    && (forall k :: 0 <= k < |items| ==> (Terminator(items[k]) <==> k == |items| - 1))
  }

  /** The file that a transfer carries. */
  function DataOf(items: seq<In>): seq<byte> {
    if items == [] then []
    else (if items[0].Data? then items[0].d else []) + DataOf(items[1..])
  }

  lemma {:induction false} TransferTail(items: seq<In>)
    requires Transfer(items) && !Terminator(items[0])
    ensures |items| > 1 && Transfer(items[1..])
  {
    var t := items[1..];
    forall k | 0 <= k < |t| ensures Terminator(t[k]) <==> k == |t| - 1 {
      assert t[k] == items[k + 1];
    }
  }

  lemma {:induction false} FrontItem(items: seq<In>, rest: seq<Event>)
    requires items != [] && forall i :: i in items ==> LegalIn(i)
    ensures LegalIn(items[0])
    ensures var es := Events(items) + rest;
            es != [] && es[0] == EventOf(items[0]) && es[1..] == Events(items[1..]) + rest
  {
    assert items[0] in items;
    Cons(EventOf(items[0]), Events(items[1..]), rest);
  }

  /** The chunk that ends the receive loop is the last item; anything else is not. */
  lemma {:induction false} AtTerminator(items: seq<In>)
    requires Transfer(items)
    ensures LegalIn(items[0])
    ensures items[0].StaleWord? ==> DataOf(items) == DataOf(items[1..])
    ensures !items[0].StaleWord? ==>
              var c := ChunkOf(items[0]);
              if c.cancel != 0 then items == [LibraryCancel] && DataOf(items) == []
              else if c.data == [] then items == [EndOfFile] && DataOf(items) == []
              else items[0] == Data(c.data) && DataOf(items) == c.data + DataOf(items[1..])
  {
    assert items[0] in items;
    if Terminator(items[0]) {
      assert items == [items[0]];
    }
  }

  predicate OnlyProgress(os: seq<Out>) {
    forall o :: o in os ==> o.ProgressMsg?
  }

  // ---------- progress messages among all that is sent

  /** A count as a 64-bit number. */
  function Wrapped(n: nat): u64 { n % 0x1_0000_0000_0000_0000 }

  function Messages(os: seq<Out>): nat {
    if os == [] then 0 else Messages(os[..|os| - 1]) + if os[|os| - 1].ProgressMsg? then 1 else 0
  }

  predicate Partial(o: Out) { o.ProgressMsg? && o.p.position != o.p.total }

  /** Those that report less than 100%. */
  function Partials(os: seq<Out>): nat {
    if os == [] then 0 else Partials(os[..|os| - 1]) + if Partial(os[|os| - 1]) then 1 else 0
  }

  lemma {:induction false} CountSnoc(os: seq<Out>, o: Out)
    ensures Messages(os + [o]) == Messages(os) + if o.ProgressMsg? then 1 else 0
    ensures Partials(os + [o]) == Partials(os) + if Partial(o) then 1 else 0
  {
    assert (os + [o])[..|os|] == os;
  }

  // ---------- the daemon

  class Daemon {
    const sock: Socket
    const fd: File
    var sent: seq<Out>          // everything written to the socket
    var procNr: u32
    var serial: u32
    var progressHint: u64
    var limiter: P.Limiter
    var clock: int              // never goes back
    var written: nat

    ghost var start: int        // when this request began, and what had been sent by then
    ghost var messages: nat
    ghost var partials: nat
    ghost var scheduled: nat    // sent on schedule since

    /** The limiter keeps the schedule, and what was sent is what it let through. */
    ghost predicate Timed()
      reads this
    {
      && P.OnSchedule(limiter, start, scheduled, clock)
      && Messages(sent) == messages + limiter.count
      && partials <= Partials(sent) <= partials + scheduled
    }

    ghost predicate Ready()
      reads this, sock
    {
      sock.Valid() && Timed()
    }

    constructor (sock: Socket, fd: File)
      requires sock.Valid()
      ensures this.sock == sock && this.fd == fd && sent == [] && Ready()
    {
      this.sock, this.fd := sock, fd;
      sent, procNr, serial, progressHint, limiter, clock, written := [], 0, 0, 0, P.NewRequest(0), 0, 0;
      start, messages, partials, scheduled := 0, 0, 0, 0;
    }

    /** What main_loop resets when a message has arrived. */
    method BeginRequest()
      requires Timed()
      modifies this`limiter, this`clock, this`start, this`messages, this`partials, this`scheduled
      ensures Timed() && start == clock >= old(clock)
      ensures messages == Messages(sent) && partials == Partials(sent)
    {
      var now :| now >= clock;
      clock := now;
      limiter := P.NewRequest(clock);
      start, messages, partials, scheduled := clock, Messages(sent), Partials(sent), 0;
    }

    /** A request sends no message at all before the delay, and a bounded number short of 100% after it. */
    ghost predicate WithinRate()
      reads this
    {
      && partials <= Partials(sent)
      && P.WithinRate(Partials(sent) - partials, clock - start)
      && (clock - start < P.NOTIFICATION_INITIAL_DELAY ==> Messages(sent) == messages)
    }

    lemma {:induction false} RateIsKept()
      requires Timed()
      ensures WithinRate()
    {
      P.ScheduleIsWithinRate(limiter, start, scheduled, clock);
    }

    /** notify_progress at some later moment: the message, unless the limiter holds it back. */
    method NotifyProgress(position: u64, total: u64) returns (ghost out: seq<Out>)
      requires Timed()
      modifies this`limiter, this`clock, this`scheduled, this`sent
      ensures Timed() && clock >= old(clock)
      ensures sent == old(sent) + out
      ensures out == if P.Decide(old(limiter), clock, position, total) == P.HeldBack then []
                     else [ProgressMsg(Progress(procNr, serial, position, total))]
      ensures limiter == P.Notify(old(limiter), clock, position, total)
    {
      var now :| now >= clock;
      P.NotifyKeepsSchedule(limiter, start, scheduled, clock, now, position, total);
      clock := now;
      var verdict := P.Decide(limiter, now, position, total);
      limiter := P.Notify(limiter, now, position, total);
      if verdict == P.HeldBack {
        return [];
      }
      if verdict == P.Scheduled {
        scheduled := scheduled + 1;
      }
      var msg := ProgressMsg(Progress(procNr, serial, position, total));
      CountSnoc(sent, msg);
      sent := sent + [msg];
      return [msg];
    }

    /** Write anything but a progress message to the socket. */
    method Send(o: Out)
      requires Timed() && !o.ProgressMsg? && Legal(o)
      modifies this`sent
      ensures Timed() && sent == old(sent) + [o]
    {
      CountSnoc(sent, o);
      sent := sent + [o];
    }

    method WriteCb(buf: seq<byte>, ghost f0: seq<byte>, ghost p0: nat, ghost stored: seq<byte>)
      returns (ok: bool, ghost done: nat, ghost out: seq<Out>)
      requires fd.Holds(f0, p0, stored) && Timed()
      modifies this`written, this`limiter, this`clock, this`scheduled, this`sent, fd, fd.sys
      ensures Timed() && fd.sys.failed == old(fd.sys.failed) + if ok then 0 else 1
      ensures done <= |buf| && (ok ==> done == |buf| && written == old(written) + |buf|)
      ensures fd.Holds(f0, p0, stored + buf[..done])
      ensures sent == old(sent) + out && OnlyProgress(out)
      ensures out == [] || out == [ProgressMsg(Progress(procNr, serial, Wrapped(written), progressHint))]
    {
      out := [];
      ok, done := fd.Append(buf, f0, p0, stored);
      if !ok {
        return;
      }
      written := written + |buf|;
      if progressHint > 0 {
        out := NotifyProgress(Wrapped(written), progressHint);
      }
    }

    /** Read and decode the next item of a transfer. */
    method ReadChunk(ghost items: seq<In>, ghost rest: seq<Event>) returns (stale: bool, chunk: Chunk)
      requires items != [] && (forall i :: i in items ==> LegalIn(i))
      requires Ready() && sock.events == Events(items) + rest
      modifies sock
      ensures Ready() && sock.events == Events(items[1..]) + rest
      ensures LegalIn(items[0]) && (stale <==> items[0].StaleWord?)
      ensures !stale ==> chunk == ChunkOf(items[0])
    {
      FrontItem(items, rest);
      ghost var item := items[0];
      var ok, payload;
      ok, stale, payload := sock.ReadItem();
      chunk := Chunk(0, []);
      if !stale {
        ChunkRoundTrip(ChunkOf(item));
        chunk := GetChunk(payload).value;
      }
    }

    /** One turn of the receive loop; 1 means go on. */
    method ReceiveOne(callback: bool, ghost left: seq<In>, ghost rest: seq<Event>,
                      ghost f0: seq<byte>, ghost p0: nat, ghost stored: seq<byte>)
      returns (r: int, ghost done: seq<byte>, ghost out: seq<Out>)
      requires Ready() && Transfer(left) && sock.events == Events(left) + rest
      requires fd.Holds(f0, p0, stored)
      modifies this`written, this`limiter, this`clock, this`scheduled, this`sent, fd, fd.sys, sock
      ensures r == 1 || r == 0 || r == -1 || r == -2
      ensures fd.sys.failed == old(fd.sys.failed) + if r == -1 then 1 else 0
      ensures Ready() && sock.events == Events(left[1..]) + rest
      ensures fd.Holds(f0, p0, stored + done)
      ensures sent == old(sent) + out && OnlyProgress(out)
      ensures r == 0 ==> left == [EndOfFile]
      ensures r == -2 ==> left == [LibraryCancel]
      ensures r == 1 || r == -1 ==> Transfer(left[1..])
      ensures r == -1 ==> callback && done <= DataOf(left)
      ensures r != -1 && callback ==> done + DataOf(left[1..]) == DataOf(left)
      ensures !callback ==> r != -1 && done == [] && out == []
    {
      done, out := [], [];
      AtTerminator(left);
      var stale, chunk := ReadChunk(left, rest);
      assert stored + [] == stored;
      assert [] + DataOf(left[1..]) == DataOf(left[1..]);
      if stale {
        TransferTail(left);
        return 1, done, out;
      }
      if chunk.cancel != 0 {
        return -2, done, out;
      }
      if |chunk.data| == 0 {
        return 0, done, out;
      }
      TransferTail(left);
      r := 1;
      if callback {
        var wrote;
        ghost var n;
        wrote, n, out := WriteCb(chunk.data, f0, p0, stored);
        done := chunk.data[..n];
        if !wrote {
          return -1, done, out;
        }
        assert done == chunk.data;
      }
    }

    /**
     * Receive chunks up to the terminator (0 or -2), or up to the chunk that could
     * not be stored (-1).  `stored` is what reached the file; without a callback
     * the data is discarded and the terminator is always reached.
     */
    method ReceiveFile(callback: bool, ghost items: seq<In>, ghost rest: seq<Event>)
      returns (r: int, ghost left: seq<In>, ghost stored: seq<byte>, ghost out: seq<Out>)
      requires Ready() && Transfer(items) && sock.events == Events(items) + rest
      modifies this`written, this`limiter, this`clock, this`scheduled, this`sent, fd, fd.sys, sock
      ensures fd.sys.failed == old(fd.sys.failed) + if r == -1 then 1 else 0
      ensures Stopped(items, left, callback, stored, r)
      ensures Ready() && sock.events == Events(left) + rest
      ensures fd.Holds(old(fd.contents), old(fd.pos), stored)
      ensures sent == old(sent) + out && OnlyProgress(out) && (!callback ==> out == [])
    {
      left, stored, out := items, [], [];
      while true
        invariant Received(items, left, callback, stored)
        invariant Ready() && sock.events == Events(left) + rest
        invariant fd.Holds(old(fd.contents), old(fd.pos), stored) && fd.sys.failed == old(fd.sys.failed)
        invariant sent == old(sent) + out && OnlyProgress(out) && (!callback ==> out == [])
        decreases |left|
      {
        ghost var done, msgs;
        r, done, msgs := ReceiveOne(callback, left, rest, old(fd.contents), old(fd.pos), stored);
        ReceivedMore(items, left, callback, stored, done, r);
        ProgressAppend(old(sent), out, msgs);
        stored, out, left := stored + done, out + msgs, left[1..];
        if r != 1 {
          return;
        }
      }
    }

    /** Send a reply to the request being processed. */
    method Reply(reply: Out)
      requires Timed() && reply.Message? && Legal(reply)
      modifies this`sent
      ensures Timed() && sent == old(sent) + [reply]
    {
      Send(reply);
    }

    /** Ask the library to stop, then discard chunks until it has. */
    method CancelReceive(ghost items: seq<In>, ghost rest: seq<Event>)
      requires Ready() && Transfer(items) && sock.events == Events(items) + rest
      modifies this`written, this`limiter, this`clock, this`scheduled, this`sent, fd, fd.sys, sock
      ensures Ready() && sock.events == rest
      ensures sent == old(sent) + [CancelWord]
      ensures fd.contents == old(fd.contents) && fd.sys.failed == old(fd.sys.failed)
    {
      Send(CancelWord);
      ghost var was := sent;
      var r, left, stored, out := ReceiveFile(false, items, rest);
      assert was + [] == was && [] + rest == rest;
    }

    method GiveUp(error: Out, ghost items: seq<In>, ghost rest: seq<Event>)
      requires Ready() && Transfer(items) && sock.events == Events(items) + rest
      requires error.Message? && Legal(error)
      modifies this`written, this`limiter, this`clock, this`scheduled, this`sent, fd, fd.sys, sock
      ensures Ready() && sock.events == rest
      ensures sent == old(sent) + [CancelWord, error]
      ensures fd.contents == old(fd.contents) && fd.sys.failed == old(fd.sys.failed)
    {
      CancelReceive(items, rest);
      Reply(error);
    }

    /** open(2) with O_TRUNC or not; lseek(2); close(2): each may fail. */
    method Open(trunc: bool) returns (ok: bool)
      modifies fd, fd.sys
      ensures fd.sys.failed == old(fd.sys.failed) + if ok then 0 else 1
      ensures ok ==> fd.contents == (if trunc then [] else old(fd.contents)) && fd.pos == 0
      ensures !ok ==> fd.contents == old(fd.contents)
    {
      var failed := fd.sys.Fails();
      if failed {
        return false;
      }
      if trunc { fd.contents := []; }
      fd.pos := 0;
      return true;
    }

    method Seek(offset: nat) returns (ok: bool)
      modifies fd`pos, fd.sys
      ensures fd.sys.failed == old(fd.sys.failed) + if ok then 0 else 1
      ensures ok ==> fd.pos == offset
    {
      var failed := fd.sys.Fails();
      if failed {
        return false;
      }
      fd.pos := offset;
      return true;
    }

    method OpenAt(trunc: bool, offset: nat) returns (ok: bool)
      modifies fd, fd.sys
      ensures fd.sys.failed == old(fd.sys.failed) + if ok then 0 else 1
      ensures ok ==> fd.contents == (if trunc then [] else old(fd.contents)) && fd.pos == offset
      ensures !ok ==> fd.contents == old(fd.contents) || fd.contents == WriteAt([], offset, [])
      ensures !ok && !trunc ==> fd.contents == old(fd.contents)
    {
      ok := Open(trunc);
      if ok && offset != 0 {
        ok := Seek(offset);
      }
    }

    method Close() returns (ok: bool)
      modifies fd.sys
      ensures fd.sys.failed == old(fd.sys.failed) + if ok then 0 else 1
    {
      var failed := fd.sys.Fails();
      ok := !failed;
    }

    /** The messages of an upload: progress, and if it failed an error reply, perhaps after a cancel word. */
    ghost predicate UploadSent(before: seq<Out>, progress: seq<Out>, error: Out, r: int)
      reads this`sent
    {
      && OnlyProgress(progress)
      && (r == 0 ==> sent == before + progress)
      && (r == -1 ==> sent == before + progress + [error] || sent == before + progress + [CancelWord, error])
    }

    /** `upload` once the file is open: receive it, and close it or give up. */
    method Store(error: Out, ghost items: seq<In>, ghost rest: seq<Event>)
      returns (r: int, ghost progress: seq<Out>, ghost stored: seq<byte>)
      requires Ready() && Transfer(items) && sock.events == Events(items) + rest
      requires error.Message? && Legal(error)
      modifies this`written, this`limiter, this`clock, this`scheduled, this`sent, fd, fd.sys, sock
      ensures Ready() && sock.events == rest
      ensures r == 0 || r == -1
      ensures fd.sys.failed >= old(fd.sys.failed)
      ensures r == 0 <==> items[|items| - 1].EndOfFile? && fd.sys.failed == old(fd.sys.failed)
      ensures UploadSent(old(sent), progress, error, r)
      ensures stored <= DataOf(items) && (r == 0 ==> stored == DataOf(items))
      ensures fd.contents == WriteAt(old(fd.contents), old(fd.pos), stored)
    {
      ghost var left: seq<In>;
      r, left, stored, progress := ReceiveFile(true, items, rest);
      if r == -1 {
        GiveUp(error, left, rest);
        return -1, progress, stored;
      }
      assert [] + rest == rest;
      var ok := false;
      if r == 0 {
        ok := Close();
      }
      if !ok {
        Reply(error);
        r := -1;
      }
    }

    /**
     * Whatever fails and whoever cancels, `upload` consumes the stream exactly through
     * the transfer's terminator, and sends the error reply once iff it returns -1.  It returns 0
     * iff the library sent the whole file and no call failed.
     */
    method Upload(trunc: bool, offset: nat, error: Out, ghost items: seq<In>, ghost rest: seq<Event>)
      returns (r: int, ghost progress: seq<Out>, ghost stored: seq<byte>)
      requires Ready() && Transfer(items) && sock.events == Events(items) + rest
      requires error.Message? && Legal(error)
      modifies this`written, this`limiter, this`clock, this`scheduled, this`sent, fd, fd.sys, sock
      ensures Ready() && sock.events == rest
      ensures r == 0 || r == -1
      ensures fd.sys.failed >= old(fd.sys.failed)
      ensures r == 0 <==> items[|items| - 1].EndOfFile? && fd.sys.failed == old(fd.sys.failed)
      ensures UploadSent(old(sent), progress, error, r)
      ensures stored <= DataOf(items) && (r == 0 ==> stored == DataOf(items))
      ensures fd.contents == WriteAt(if trunc then [] else old(fd.contents), offset, stored)
           || (r == -1 && fd.contents == old(fd.contents))
    {
      progress, stored := [], [];
      written := 0;
      var ok := OpenAt(trunc, offset);
      if !ok {
        GiveUp(error, items, rest);
        assert old(sent) + [] == old(sent);
        return -1, [], [];
      }
      r, progress, stored := Store(error, items, rest);
    }
  }

  /** `left` is still to come, and what came before it is stored. */
  ghost predicate Received(items: seq<In>, left: seq<In>, callback: bool, stored: seq<byte>) {
    && Transfer(items) && Transfer(left) && left[|left| - 1] == items[|items| - 1]
    && if callback then stored + DataOf(left) == DataOf(items) else stored == []
  }

  /** Why the receive loop ended, what of the transfer is left, and what reached the file. */
  ghost predicate Stopped(items: seq<In>, left: seq<In>, callback: bool, stored: seq<byte>, r: int) {
    && items != [] && (forall i :: i in left ==> LegalIn(i))
    && (r == 0 || r == -1 || r == -2)
    && (r == 0 ==> items[|items| - 1].EndOfFile?)
    && (r == -2 ==> items[|items| - 1].LibraryCancel?)
    && (r != -1 ==> left == [])
    && (r == -1 ==> callback && Transfer(left) && left[|left| - 1] == items[|items| - 1])
    && stored <= DataOf(items) && (callback && r != -1 ==> stored == DataOf(items))
    && (!callback ==> stored == [])
  }

  lemma {:induction false} ReceivedMore(items: seq<In>, left: seq<In>, callback: bool, stored: seq<byte>,
                                        done: seq<byte>, r: int)
    requires Received(items, left, callback, stored)
    requires r == 0 || r == -2 ==> left == [if r == 0 then EndOfFile else LibraryCancel]
    requires r == 1 || r == -1 ==> Transfer(left[1..])
    requires callback && r != -1 ==> done + DataOf(left[1..]) == DataOf(left)
    requires callback ==> done <= DataOf(left)
    requires !callback ==> done == []
    requires r == -1 ==> callback
    ensures r == 1 ==> Received(items, left[1..], callback, stored + done)
    ensures r == 0 || r == -1 || r == -2 ==> Stopped(items, left[1..], callback, stored + done, r)
  {
    Accumulate(stored, done, DataOf(left[1..]), DataOf(left), DataOf(items), callback, r);
    assert forall i :: i in left[1..] ==> i in left;
  }

  lemma {:induction false} ProgressAppend(sent: seq<Out>, out: seq<Out>, msgs: seq<Out>)
    requires OnlyProgress(out) && OnlyProgress(msgs)
    ensures sent + out + msgs == sent + (out + msgs) && OnlyProgress(out + msgs)
  {
  }

  lemma {:induction false} Accumulate(stored: seq<byte>, done: seq<byte>, after: seq<byte>, data: seq<byte>,
                                      all: seq<byte>,
                                      callback: bool, r: int)
    requires if callback then stored + data == all else stored == [] && done == []
    requires callback && r != -1 ==> done + after == data
    requires callback ==> done <= data
    ensures stored + done <= all
    ensures callback && r != -1 ==> stored + done + after == all
    ensures !callback ==> stored + done == []
  {
  }
}
