/** One request: check its header, run its procedure, answer it once. */
module Serving {
  import opened Wrappers
  import opened Bytes
  import opened Seqs
  import opened Wire
  import opened Sockets
  import opened Daemon
  import opened Download
  import opened Replies

  // ---------- what a request should lead to

  /** A request as the main loop takes it: its header, and the transfer behind it if the daemon reads one. */
  datatype Call = Call(h: Header, items: seq<In>)

  /** What was sent for a request. */
  datatype Effect =
    | Refused(reply: Out)
    | Uploaded(progress: seq<Out>, cancel: bool, reply: Out, stored: seq<byte>)
    | Downloaded(reply: Out, tail: seq<Out>, chunks: seq<Chunk>, r: int)
    | Did(progress: seq<Out>, reply: Out)

  function Sent(e: Effect): seq<Out> {
    match e
    case Refused(reply) => [reply]
    case Uploaded(progress, cancel, reply, _) => progress + if cancel then [CancelWord, reply] else [reply]
    case Downloaded(reply, tail, _, _) => [reply] + tail
    case Did(progress, reply) => progress + [reply]
  }

  /**
   * A request that has been served: the file before and after it, how many calls of the kernel
   * failed meanwhile, whether a cancel word was taken off the stream, what was sent, and the answer in it.
   */
  datatype Served = Served(c: Call, before: seq<byte>, after: seq<byte>, faults: nat, cancelled: bool,
                           e: Effect, a: Answer)

  /**
   * A refused request gets an error and nothing else.  An upload succeeds iff the library sent the
   * whole file and no call failed; then the file holds exactly that, and otherwise it is a prefix of it
   * or what it was.  A download sends an error, or the OK reply and a transfer of the file as it is, whole
   * iff no call failed and nobody cancelled.  Any other procedure sends progress messages and a reply.
   */
  ghost predicate Right(s: Served) {
    && AnswerOf(s.e.reply) == Some(s.a) && s.a.status <= 1
    && if !GoodCall(s.c.h) then
         s.e.Refused? && s.a.status == 1 && s.after == s.before
       else if s.c.h.proc == PROC_UPLOAD then
         s.e.Uploaded? && RightUpload(s.c.items, s.before, s.after, s.faults, s.e, s.a.status)
       else if s.c.h.proc == PROC_DOWNLOAD then
         s.e.Downloaded? && RightDownload(s.before, s.after, s.faults, s.cancelled, s.e, s.a)
       else
         s.e.Did? && OnlyProgress(s.e.progress) && s.after == s.before
  }

  ghost predicate RightUpload(items: seq<In>, before: seq<byte>, after: seq<byte>, faults: nat, e: Effect, status: u32)
    requires e.Uploaded?
  {
    && Transfer(items) && OnlyProgress(e.progress) && e.stored <= DataOf(items)
    && (status == 0 <==> items[|items| - 1].EndOfFile? && faults == 0)
    && (status == 0 ==> !e.cancel && after == DataOf(items))
    && (after == e.stored || (status == 1 && after == before))
  }

  ghost predicate RightDownload(before: seq<byte>, after: seq<byte>, faults: nat, cancelled: bool, e: Effect, a: Answer)
    requires e.Downloaded?
  {
    && after == before
    && if a.status == 1 then e.tail == [] && faults > 0
       else
         && Ended(e.tail, e.chunks, before, e.r) && (e.r == 0 <==> faults == 0 && !cancelled)
         && Reports(e.tail, Stamp(a.proc, a.serial, Wrapped(|before|)))
  }

  /** Whatever was sent for a request, exactly one message in it is an answer. */
  lemma {:induction false} SentAnswers(s: Served)
    requires Right(s)
    ensures Answers(Sent(s.e)) == [s.a]
  {
    match s.e
    case Refused(reply) => OneAnswer(reply);
    case Uploaded(progress, cancel, reply, _) => ProgressThenAnswer(progress, reply);
    case Downloaded(reply, tail, chunks, _) => AnswerThenTransfer(reply, tail, chunks);
    case Did(progress, reply) => ProgressThenAnswer(progress, reply);
  }

  lemma {:induction false} OneAnswer(reply: Out)
    requires AnswerOf(reply).Some?
    ensures Answers([reply]) == [AnswerOf(reply).value]
  {
    AnswersSnoc([], reply);
    assert [] + [reply] == [reply];
  }

  lemma {:induction false} AnswerThenTransfer(reply: Out, tail: seq<Out>, chunks: seq<Chunk>)
    requires AnswerOf(reply).Some? && (tail == [] || (ChunksOf(tail) == Some(chunks) && WellFormed(chunks)))
    ensures Answers([reply] + tail) == [AnswerOf(reply).value]
  {
    OneAnswer(reply);
    AnswersAppend([reply], tail);
    if tail != [] {
      TransferIsNoAnswer(tail, chunks);
    }
  }

  lemma {:induction false} TransferIsNoAnswer(tail: seq<Out>, chunks: seq<Chunk>)
    requires ChunksOf(tail) == Some(chunks) && WellFormed(chunks)
    ensures Answers(tail) == []
  {
    CancelIsZeroOrOne(chunks);
    ChunksAreNoAnswer(tail, chunks);
  }

  lemma {:induction false} CancelIsZeroOrOne(chunks: seq<Chunk>)
    requires WellFormed(chunks)
    ensures forall c :: c in chunks ==> c.cancel <= 1
  {
  }

  lemma {:induction false} ProgressThenAnswer(progress: seq<Out>, reply: Out)
    requires OnlyProgress(progress) && AnswerOf(reply).Some?
    ensures Answers(progress + [reply]) == [AnswerOf(reply).value]
    ensures Answers(progress + [CancelWord, reply]) == [AnswerOf(reply).value]
  {
    ProgressIsNoAnswer(progress);
    AnswersSnoc(progress, reply);
  }

  // ---------- the stubs

  /** The two replies that a stub may send. */
  method MakeReplies(proc: u32, serial: u32, errno: seq<byte>, msg: seq<byte>) returns (error: Out, ok: Out)
    requires |errno| <= 32
    ensures error.Message? && Legal(error) && AnswerOf(error) == Some(Answer(proc, serial, 1))
    ensures ok.Message? && Legal(ok) && AnswerOf(ok) == Some(Answer(proc, serial, 0))
  {
    error, ok := ErrorReply(proc, serial, errno, msg), OkReply(proc, serial);
    ErrorAnswers(proc, serial, errno, msg);
    OkAnswers(proc, serial);
  }

  method ReportProgress(d: Daemon) returns (ghost progress: seq<Out>)
    requires d.Timed()
    modifies d`sent, d`limiter, d`clock, d`scheduled
    ensures d.Timed() && d.sent == old(d.sent) + progress && OnlyProgress(progress)
  {
    progress := [];
    var n: nat :| true;
    while n > 0
      invariant d.Timed() && d.sent == old(d.sent) + progress && OnlyProgress(progress)
    {
      var position: u64, total: u64 := *, *;
      var out := d.NotifyProgress(position, total);
      ProgressAppend(old(d.sent), progress, out);
      progress := progress + out;
      n := n - 1;
    }
  }

  /** Any procedure without file parameters: progress messages and then one reply. */
  method Ordinary(d: Daemon, errno: seq<byte>, msg: seq<byte>) returns (status: u32, ghost e: Effect)
    requires d.Timed() && |errno| <= 32
    modifies d`sent, d`limiter, d`clock, d`scheduled
    ensures d.Timed() && status <= 1 && d.sent == old(d.sent) + Sent(e)
    ensures e.Did? && OnlyProgress(e.progress) && AnswerOf(e.reply) == Some(Answer(d.procNr, d.serial, status))
  {
    var progress := ReportProgress(d);
    var error, ok := MakeReplies(d.procNr, d.serial, errno, msg);
    var reply := ok;
    status := 0;
    if * {
      reply, status := error, 1;
    }
    d.Reply(reply);
    Concat(old(d.sent), progress, [reply]);
    e := Did(progress, reply);
  }

  /** do_upload and its stub: one reply whatever happens. */
  method UploadCall(d: Daemon, errno: seq<byte>, msg: seq<byte>, ghost items: seq<In>, ghost rest: seq<Event>)
    returns (status: u32, ghost e: Effect)
    requires d.Ready() && Transfer(items) && d.sock.events == Events(items) + rest && |errno| <= 32
    modifies d`written, d`limiter, d`clock, d`scheduled, d`sent, d.fd, d.fd.sys, d.sock
    ensures d.Ready() && d.sock.events == rest && d.fd.sys.failed >= old(d.fd.sys.failed)
    ensures status <= 1 && d.sent == old(d.sent) + Sent(e)
    ensures e.Uploaded? && AnswerOf(e.reply) == Some(Answer(d.procNr, d.serial, status))
    ensures RightUpload(items, old(d.fd.contents), d.fd.contents, d.fd.sys.failed - old(d.fd.sys.failed), e, status)
  {
    var error, ok := MakeReplies(d.procNr, d.serial, errno, msg);
    var r, progress, stored := d.Upload(true, 0, error, items, rest);
    status := if r == 0 then 0 else 1;
    if r == 0 {
      d.Reply(ok);
    }
    e := UploadEffect(old(d.sent), d.sent, progress, r, if r == 0 then ok else error, stored);
    UploadIsRight(items, old(d.fd.contents), d.fd.contents, d.fd.sys.failed - old(d.fd.sys.failed), e, status);
  }

  lemma {:induction false} UploadIsRight(items: seq<In>, before: seq<byte>, after: seq<byte>, faults: nat, e: Effect,
                                         status: u32)
    requires e.Uploaded? && status <= 1 && Transfer(items) && OnlyProgress(e.progress) && e.stored <= DataOf(items)
    requires status == 0 <==> items[|items| - 1].EndOfFile? && faults == 0
    requires status == 0 ==> !e.cancel && e.stored == DataOf(items)
    requires after == WriteAt([], 0, e.stored) || (status == 1 && after == before)
    ensures RightUpload(items, before, after, faults, e, status)
  {
    WriteToEmpty(e.stored);
  }

  lemma {:induction false} UploadEffect(s0: seq<Out>, sent: seq<Out>, progress: seq<Out>, r: int, reply: Out,
                                        stored: seq<byte>)
    returns (e: Effect)
    requires sent == s0 + progress + [reply] || (r != 0 && sent == s0 + progress + [CancelWord, reply])
    ensures sent == s0 + Sent(e) && (r == 0 ==> e.Uploaded? && !e.cancel)
    ensures e.Uploaded? && e.progress == progress && e.reply == reply && e.stored == stored
  {
    Concat(s0, progress, [reply]);
    Concat(s0, progress, [CancelWord, reply]);
    e := Uploaded(progress, sent != s0 + progress + [reply], reply, stored);
  }

  lemma {:induction false} WriteToEmpty(d: seq<byte>)
    ensures WriteAt([], 0, d) == d
  {
    WriteAtBytes([], 0, d);
  }

  /** do_download of the file as it is: one reply, and perhaps a cancel word taken off the stream. */
  method DownloadCall(d: Daemon, errno: seq<byte>, msg: seq<byte>) returns (status: u32, ghost e: Effect)
    requires d.Ready() && |errno| <= 32
    modifies d`sent, d`limiter, d`clock, d`scheduled, d.sock, d.fd.sys
    ensures d.Ready() && d.fd.sys.failed >= old(d.fd.sys.failed)
    ensures d.sock.events == old(d.sock.events) || TookCancel(old(d.sock.events), d.sock.events)
    ensures status <= 1 && d.sent == old(d.sent) + Sent(e)
    ensures e.Downloaded? && AnswerOf(e.reply) == Some(Answer(d.procNr, d.serial, status))
    ensures RightDownload(d.fd.contents, d.fd.contents, d.fd.sys.failed - old(d.fd.sys.failed),
                          d.sock.events != old(d.sock.events), e, Answer(d.procNr, d.serial, status))
  {
    var error, ok := MakeReplies(d.procNr, d.serial, errno, msg);
    var r, replied, out, chunks := DoDownload(d, d.fd.contents, error, ok);
    if replied {
      Concat(old(d.sent), [ok], out);
      return 0, Downloaded(ok, out, chunks, r);
    }
    assert [error] + [] == [error];
    return 1, Downloaded(error, [], [], r);
  }

  /** A wrong program, version, direction or status gets an error reply, addressed to the previous call. */
  method Refuse(d: Daemon, h: Header, msg: seq<byte>, ghost items: seq<In>) returns (ghost s: Served)
    requires d.Timed() && !GoodCall(h)
    modifies d`sent
    ensures d.Timed() && d.sent == old(d.sent) + Sent(s.e) && s.a == Answer(d.procNr, d.serial, 1)
    ensures s.c == Call(h, items) && Right(s) && s.before == s.after == d.fd.contents
    ensures s.faults == 0 && !s.cancelled
  {
    var error, ok := MakeReplies(d.procNr, d.serial, [], msg);
    d.Reply(error);
    s := Served(Call(h, items), d.fd.contents, d.fd.contents, 0, false, Refused(error), Answer(d.procNr, d.serial, 1));
  }

  // ---------- serving one request

  /** The answer that a request should get, when the call before it had this procedure and serial number. */
  predicate Fitting(h: Header, a: Answer, proc: u32, serial: u32) {
    if GoodCall(h) then a.proc == h.proc && a.serial == h.serial && a.status <= 1
    else a == Answer(proc, serial, 1)
  }

  /** What stands behind the header that is being served. */
  predicate Behind(h: Header, es: seq<Event>, items: seq<In>, rest: seq<Event>) {
    if GoodCall(h) && h.proc == PROC_UPLOAD then Transfer(items) && es == Events(items) + rest else es == rest
  }

  /**
   * One request: check the header, remember whom to answer, dispatch.  What is sent and what becomes of
   * the file is right for its procedure, and its progress messages keep to the rate.
   */
  method Serve(d: Daemon, h: Header, errno: seq<byte>, msg: seq<byte>, ghost items: seq<In>, ghost rest: seq<Event>)
    returns (ghost s: Served)
    requires d.Ready() && |errno| <= 32
    requires Behind(h, d.sock.events, items, rest)
    modifies d, d.fd, d.fd.sys, d.sock
    ensures d.Ready() && (d.sock.events == rest || TookCancel(rest, d.sock.events))
    ensures s.c == Call(h, items) && Right(s) && Fitting(h, s.a, old(d.procNr), old(d.serial))
    ensures d.sent == old(d.sent) + Sent(s.e) && s.before == old(d.fd.contents) && s.after == d.fd.contents
    ensures s.faults == d.fd.sys.failed - old(d.fd.sys.failed) && s.cancelled == (d.sock.events != rest)
    ensures d.procNr == s.a.proc && d.serial == s.a.serial
    ensures old(d.clock) <= d.start <= d.clock
    ensures d.WithinRate() && d.messages == Messages(old(d.sent)) && d.partials == Partials(old(d.sent))
  {
    d.BeginRequest();
    s := Respond(d, h, errno, msg, items, rest);
    d.RateIsKept();
  }

  method Respond(d: Daemon, h: Header, errno: seq<byte>, msg: seq<byte>, ghost items: seq<In>, ghost rest: seq<Event>)
    returns (ghost s: Served)
    requires d.Ready() && |errno| <= 32 && Behind(h, d.sock.events, items, rest)
    modifies d`procNr, d`serial, d`progressHint, d`written, d`limiter, d`clock, d`scheduled, d`sent
    modifies d.fd, d.fd.sys, d.sock
    ensures d.Ready() && (d.sock.events == rest || TookCancel(rest, d.sock.events))
    ensures s.c == Call(h, items) && Right(s) && Fitting(h, s.a, old(d.procNr), old(d.serial))
    ensures d.sent == old(d.sent) + Sent(s.e) && s.before == old(d.fd.contents) && s.after == d.fd.contents
    ensures s.faults == d.fd.sys.failed - old(d.fd.sys.failed) && s.cancelled == (d.sock.events != rest)
    ensures d.procNr == s.a.proc && d.serial == s.a.serial
  {
    if h.prog != PROGRAM || h.vers != PROTOCOL_VERSION || h.direction != 0 || h.status != 0 {
      s := Refuse(d, h, msg, items);
      return;
    }
    d.procNr, d.serial, d.progressHint := h.proc, h.serial, h.progressHint;
    s := Dispatch(d, h, errno, msg, items, rest);
  }

  /** dispatch_incoming_message */
  method Dispatch(d: Daemon, h: Header, errno: seq<byte>, msg: seq<byte>, ghost items: seq<In>, ghost rest: seq<Event>)
    returns (ghost s: Served)
    requires d.Ready() && |errno| <= 32 && GoodCall(h) && Behind(h, d.sock.events, items, rest)
    requires d.procNr == h.proc && d.serial == h.serial
    modifies d`written, d`limiter, d`clock, d`scheduled, d`sent, d.fd, d.fd.sys, d.sock
    ensures d.Ready() && (d.sock.events == rest || TookCancel(rest, d.sock.events))
    ensures s.c == Call(h, items) && Right(s) && Fitting(h, s.a, h.proc, h.serial)
    ensures d.sent == old(d.sent) + Sent(s.e) && s.before == old(d.fd.contents) && s.after == d.fd.contents
    ensures s.faults == d.fd.sys.failed - old(d.fd.sys.failed) && s.cancelled == (d.sock.events != rest)
  {
    var status;
    ghost var e;
    if h.proc == PROC_UPLOAD {
      status, e := UploadCall(d, errno, msg, items, rest);
    } else if h.proc == PROC_DOWNLOAD {
      status, e := DownloadCall(d, errno, msg);
    } else {
      status, e := Ordinary(d, errno, msg);
    }
    s := Served(Call(h, items), old(d.fd.contents), d.fd.contents, d.fd.sys.failed - old(d.fd.sys.failed),
                d.sock.events != rest, e, Answer(h.proc, h.serial, status));
  }
}
