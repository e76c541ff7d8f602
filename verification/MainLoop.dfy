/**
 * Whole sessions: the main loop reads requests one after another from the byte
 * stream, with uploads in between that may fail or be cancelled at any chunk, and
 * serves each of them.
 */
module MainLoop {
  import opened Bytes
  import opened Seqs
  import opened Wire
  import opened Sockets
  import opened Daemon
  import opened Download
  import opened Replies
  import opened Serving

  // ---------- sessions

  /** A cancel word that arrived too late, or a request with the transfer that follows it. */
  datatype Turn = LateCancel | Request(h: Header, args: seq<byte>, items: seq<In>)

  /** An upload is followed by its transfer; so may be a request that the daemon refuses. */
  predicate GoodTurn(t: Turn) {
    t.Request? ==>
      && HEADER_SIZE + |t.args| <= MESSAGE_MAX
      && if GoodCall(t.h) then (if t.h.proc == PROC_UPLOAD then Transfer(t.items) else t.items == [])
         else t.items == [] || Transfer(t.items)
  }

  /** The daemon reads no chunks after a header that it refuses. */
  predicate Drained(t: Turn) { t.Request? && !GoodCall(t.h) ==> t.items == [] }

  function TurnEvents(t: Turn): seq<Event>
    requires GoodTurn(t)
  {
    if t.LateCancel? then [Stale] else [Frame(PutMessage(t.h, t.args))] + Events(t.items)
  }

  function SessionEvents(ts: seq<Turn>): seq<Event>
    requires forall t :: t in ts ==> GoodTurn(t)
  {
    if ts == [] then [] else TurnEvents(ts[0]) + SessionEvents(ts[1..])
  }

  function CallOf(t: Turn): Call
    requires t.Request?
  {
    Call(t.h, if GoodCall(t.h) then t.items else [])
  }

  /** A session's requests, in order. */
  function Calls(ts: seq<Turn>): seq<Call> {
    if ts == [] then []
    else
      var t := ts[|ts| - 1];
      Calls(ts[..|ts| - 1]) + if t.Request? then [CallOf(t)] else []
  }

  lemma {:induction false} FrontTurn(ts: seq<Turn>)
    requires ts != [] && forall t :: t in ts ==> GoodTurn(t)
    ensures GoodTurn(ts[0])
    ensures forall t :: t in ts[1..] ==> GoodTurn(t)
    ensures SessionEvents(ts) != [] && SessionEvents(ts)[0].Stale? == ts[0].LateCancel?
    ensures ts[0].LateCancel? ==> SessionEvents(ts)[1..] == SessionEvents(ts[1..])
    ensures ts[0].Request? ==>
              && SessionEvents(ts)[0].payload == PutMessage(ts[0].h, ts[0].args)
              && SessionEvents(ts)[1..] == Events(ts[0].items) + SessionEvents(ts[1..])
  {
    var t := ts[0];
    assert t in ts;
    if t.LateCancel? {
      Cons(Stale, [], SessionEvents(ts[1..]));
      assert [Stale] + [] == [Stale];
    } else {
      Cons(Frame(PutMessage(t.h, t.args)), Events(t.items), SessionEvents(ts[1..]));
    }
  }

  lemma {:induction false} CallsNext(ts: seq<Turn>, n: nat)
    requires n < |ts|
    ensures Calls(ts[..n + 1]) == Calls(ts[..n]) + if ts[n].Request? then [CallOf(ts[n])] else []
  {
    assert ts[..n + 1][..n] == ts[..n];
  }

  predicate AllDrained(ts: seq<Turn>, n: nat)
    requires n <= |ts|
  {
    forall j :: 0 <= j < n ==> Drained(ts[j])
  }

  /** The session's requests, and then chunks taken for requests. */
  predicate ThenChunks(seen: seq<Call>, found: seq<Call>) {
    found <= seen && forall j :: |found| <= j < |seen| ==> seen[j].h.prog == 0
  }

  /** Turn n is the first that was refused with a transfer behind it, and no request after it was found. */
  ghost predicate LostIn(ts: seq<Turn>, n: nat, seen: seq<Call>) {
    n < |ts| && !Drained(ts[n]) && AllDrained(ts, n) && ThenChunks(seen, Calls(ts[..n + 1]))
  }

  /** The main loop stands behind n complete turns. */
  ghost predicate Between(es: seq<Event>, ts: seq<Turn>, n: nat, seen: seq<Call>) {
    && n <= |ts| && (forall t :: t in ts[n..] ==> GoodTurn(t)) && es == SessionEvents(ts[n..])
    && seen == Calls(ts[..n]) && AllDrained(ts, n)
  }

  /** It stands inside the transfer of the last of n turns, which was refused; `junk` is left of it. */
  ghost predicate Inside(es: seq<Event>, ts: seq<Turn>, n: nat, junk: seq<In>, seen: seq<Call>) {
    && n <= |ts| && (forall t :: t in ts[n..] ==> GoodTurn(t)) && Transfer(junk)
    && es == Events(junk) + SessionEvents(ts[n..])
    && n > 0 && LostIn(ts, n - 1, seen)
  }

  ghost predicate StandsAt(es: seq<Event>, ts: seq<Turn>, n: nat, junk: seq<In>, seen: seq<Call>) {
    if junk == [] then Between(es, ts, n, seen) else Inside(es, ts, n, junk, seen)
  }

  lemma {:induction false} AtStart(ts: seq<Turn>)
    requires forall t :: t in ts ==> GoodTurn(t)
    ensures StandsAt(SessionEvents(ts), ts, 0, [], [])
  {
    assert ts[0..] == ts;
  }

  lemma {:induction false} AtEnd(ts: seq<Turn>, n: nat, junk: seq<In>, seen: seq<Call>)
    requires StandsAt([], ts, n, junk, seen)
    ensures AllDrained(ts, |ts|) && seen == Calls(ts)
  {
    if junk == [] && n < |ts| {
      FrontTurn(ts[n..]);
    }
    assert ts[..|ts|] == ts;
  }

  lemma {:induction false} NextTail(ts: seq<Turn>, n: nat)
    requires n < |ts|
    ensures ts[n..][1..] == ts[n + 1..] && ts[n..][0] == ts[n]
  {
  }

  /** A cancel word is skipped, wherever it stands. */
  lemma {:induction false} SkipStale(es: seq<Event>, ts: seq<Turn>, n: nat, junk: seq<In>, seen: seq<Call>)
    returns (n': nat, junk': seq<In>)
    requires StandsAt(es, ts, n, junk, seen) && es != [] && es[0].Stale?
    ensures StandsAt(es[1..], ts, n', junk', seen)
    ensures n <= n' && (n' == n ==> |junk'| < |junk|)
  {
    if junk == [] {
      assert n < |ts|;
      FrontTurn(ts[n..]);
      NextTail(ts, n);
      CallsNext(ts, n);
      return n + 1, [];
    }
    FrontItem(junk, SessionEvents(ts[n..]));
    TransferTail(junk);
    return n, junk[1..];
  }

  /** The first word of a chunk stands where the program number of a header would be. */
  lemma {:induction false} ChunkAsHeader(c: Chunk)
    requires |c.data| <= MAX_CHUNK_SIZE
    ensures c.data == [] ==> |PutChunk(c)| < HEADER_SIZE
    ensures |PutChunk(c)| >= HEADER_SIZE ==> GetHeader(PutChunk(c)).prog == c.cancel
  {
    var rest := PutU32(|c.data|) + c.data + Zeros(Padding(|c.data|));
    assert PutChunk(c) == PutU32(c.cancel) + rest;
    U32RoundTrip(c.cancel, rest);
  }

  /** A frame inside a refused request's transfer: too short for a header, or with program number 0. */
  lemma {:induction false} TakeChunk(es: seq<Event>, ts: seq<Turn>, n: nat, junk: seq<In>, seen: seq<Call>)
    requires Inside(es, ts, n, junk, seen) && es != [] && es[0].Frame? && |es[0].payload| >= HEADER_SIZE
    ensures junk[1..] != [] && Inside(es[1..], ts, n, junk[1..], seen + [Call(GetHeader(es[0].payload), [])])
    ensures !GoodCall(GetHeader(es[0].payload))
  {
    FrontItem(junk, SessionEvents(ts[n..]));
    ChunkAsHeader(ChunkOf(junk[0]));
    TransferTail(junk);
  }

  /** A frame behind complete turns is the next request. */
  lemma {:induction false} FrontRequest(es: seq<Event>, ts: seq<Turn>, n: nat, seen: seq<Call>)
    requires Between(es, ts, n, seen) && es != [] && es[0].Frame?
    ensures n < |ts| && ts[n].Request? && GoodTurn(ts[n])
    ensures |es[0].payload| >= HEADER_SIZE && GetHeader(es[0].payload) == ts[n].h
    ensures forall t :: t in ts[n + 1..] ==> GoodTurn(t)
    ensures es[1..] == Events(ts[n].items) + SessionEvents(ts[n + 1..])
  {
    assert n < |ts|;
    FrontTurn(ts[n..]);
    NextTail(ts, n);
    HeaderRoundTrip(ts[n].h, ts[n].args);
  }

  lemma {:induction false} AfterRequest(ts: seq<Turn>, n: nat, seen: seq<Call>)
    requires n < |ts| && ts[n].Request? && (forall t :: t in ts[n + 1..] ==> GoodTurn(t))
    requires GoodTurn(ts[n]) && seen == Calls(ts[..n]) && AllDrained(ts, n)
    ensures Drained(ts[n]) ==> Between(SessionEvents(ts[n + 1..]), ts, n + 1, seen + [CallOf(ts[n])])
    ensures !Drained(ts[n]) ==>
              var items := ts[n].items;
              Inside(Events(items) + SessionEvents(ts[n + 1..]), ts, n + 1, items, seen + [CallOf(ts[n])])
  {
    CallsNext(ts, n);
  }

  lemma {:induction false} TakeRequest(es: seq<Event>, ts: seq<Turn>, n: nat, seen: seq<Call>, h: Header)
    returns (items: seq<In>, rest: seq<Event>, junk: seq<In>)
    requires Between(es, ts, n, seen) && es != [] && es[0].Frame?
    requires |es[0].payload| >= HEADER_SIZE && h == GetHeader(es[0].payload)
    ensures Behind(h, es[1..], items, rest) && StandsAt(rest, ts, n + 1, junk, seen + [Call(h, items)])
  {
    FrontRequest(es, ts, n, seen);
    AfterRequest(ts, n, seen);
    items, rest, junk := ts[n].items, SessionEvents(ts[n + 1..]), [];
    if Drained(ts[n]) {
      assert [] + rest == rest;
    } else {
      items, rest, junk := [], es[1..], items;
    }
  }

  /** Where serving a frame leaves the main loop. */
  lemma {:induction false} TakeFrame(es: seq<Event>, ts: seq<Turn>, n: nat, junk: seq<In>, seen: seq<Call>, h: Header)
    returns (items: seq<In>, rest: seq<Event>, n': nat, junk': seq<In>)
    requires StandsAt(es, ts, n, junk, seen) && es != [] && es[0].Frame?
    requires |es[0].payload| >= HEADER_SIZE && h == GetHeader(es[0].payload)
    ensures Behind(h, es[1..], items, rest) && StandsAt(rest, ts, n', junk', seen + [Call(h, items)])
    ensures n <= n' && (n' == n ==> |junk'| < |junk|)
  {
    if junk == [] {
      items, rest, junk' := TakeRequest(es, ts, n, seen, h);
      n' := n + 1;
    } else {
      TakeChunk(es, ts, n, junk, seen);
      items, rest, n', junk' := [], es[1..], n, junk[1..];
    }
  }

  /** A frame too short for a header stands in a refused request's transfer. */
  lemma {:induction false} LostInTransfer(es: seq<Event>, ts: seq<Turn>, n: nat, junk: seq<In>, seen: seq<Call>)
    requires StandsAt(es, ts, n, junk, seen) && es != [] && es[0].Frame? && |es[0].payload| < HEADER_SIZE
    ensures n > 0 && LostIn(ts, n - 1, seen)
  {
    if junk == [] {
      FrontRequest(es, ts, n, seen);
    }
  }

  // ---------- what has been done so far

  /** What had been sent, what the file held and which call was answered last, when the main loop began. */
  datatype Begin = Begin(sent: seq<Out>, file: seq<byte>, proc: u32, serial: u32)

  function SentFor(trace: seq<Served>): seq<Out> {
    if trace == [] then [] else SentFor(trace[..|trace| - 1]) + Sent(trace[|trace| - 1].e)
  }

  function CallsOf(trace: seq<Served>): (cs: seq<Call>)
    ensures |cs| == |trace|
  {
    seq(|trace|, k requires 0 <= k < |trace| => trace[k].c)
  }

  function AnswersOf(trace: seq<Served>): (answers: seq<Answer>)
    ensures |answers| == |trace|
  {
    if trace == [] then [] else AnswersOf(trace[..|trace| - 1]) + [trace[|trace| - 1].a]
  }

  function ProcBefore(trace: seq<Served>, k: nat, begin: Begin): u32
    requires k <= |trace|
  {
    if k == 0 then begin.proc else trace[k - 1].a.proc
  }

  function SerialBefore(trace: seq<Served>, k: nat, begin: Begin): u32
    requires k <= |trace|
  {
    if k == 0 then begin.serial else trace[k - 1].a.serial
  }

  function FileBefore(trace: seq<Served>, k: nat, begin: Begin): seq<byte>
    requires k <= |trace|
  {
    if k == 0 then begin.file else trace[k - 1].after
  }

  /** Request k was served rightly, on the file that the one before left, and its answer is its own. */
  ghost predicate RightAt(trace: seq<Served>, k: nat, begin: Begin)
    requires k < |trace|
  {
    && Right(trace[k]) && trace[k].before == FileBefore(trace, k, begin)
    && Fitting(trace[k].c.h, trace[k].a, ProcBefore(trace, k, begin), SerialBefore(trace, k, begin))
  }

  ghost predicate AllRight(trace: seq<Served>, begin: Begin) {
    forall k :: 0 <= k < |trace| ==> RightAt(trace, k, begin)
  }

  lemma {:induction false} OneMoreRight(trace: seq<Served>, begin: Begin, s: Served)
    requires AllRight(trace, begin) && Right(s) && s.before == FileBefore(trace, |trace|, begin)
    requires Fitting(s.c.h, s.a, ProcBefore(trace, |trace|, begin), SerialBefore(trace, |trace|, begin))
    ensures AllRight(trace + [s], begin)
    ensures CallsOf(trace + [s]) == CallsOf(trace) + [s.c] && SentFor(trace + [s]) == SentFor(trace) + Sent(s.e)
  {
    var trace' := trace + [s];
    assert trace'[..|trace|] == trace;
    forall k | 0 <= k < |trace'| ensures RightAt(trace', k, begin) {
      if k < |trace| {
        assert RightAt(trace, k, begin);
      }
    }
  }

  lemma {:induction false} AllRightPrefix(trace: seq<Served>, begin: Begin, n: nat)
    requires AllRight(trace, begin) && n <= |trace|
    ensures AllRight(trace[..n], begin)
  {
    forall k | 0 <= k < n ensures RightAt(trace[..n], k, begin) {
      assert RightAt(trace, k, begin);
    }
  }

  /** Each request has exactly one answer among all that was sent, in order. */
  lemma {:induction false} OneAnswerEach(trace: seq<Served>, begin: Begin)
    requires AllRight(trace, begin)
    ensures Answers(SentFor(trace)) == AnswersOf(trace)
  {
    if trace != [] {
      var n := |trace| - 1;
      AllRightPrefix(trace, begin, n);
      OneAnswerEach(trace[..n], begin);
      assert RightAt(trace, n, begin);
      OneAnswerMore(SentFor(trace[..n]), trace[n]);
    }
  }

  lemma {:induction false} OneAnswerMore(sent: seq<Out>, s: Served)
    requires Right(s)
    ensures Answers(sent + Sent(s.e)) == Answers(sent) + [s.a]
  {
    SentAnswers(s);
    AnswersAppend(sent, Sent(s.e));
  }

  /** All that was sent is what was sent for the requests so far; the daemon remembers the last of them. */
  ghost predicate SoFar(begin: Begin, trace: seq<Served>, sent: seq<Out>, file: seq<byte>, proc: u32, serial: u32) {
    && AllRight(trace, begin) && sent == begin.sent + SentFor(trace)
    && file == FileBefore(trace, |trace|, begin)
    && proc == ProcBefore(trace, |trace|, begin) && serial == SerialBefore(trace, |trace|, begin)
  }

  lemma {:induction false} SoFarNext(begin: Begin, trace: seq<Served>, sent: seq<Out>, file: seq<byte>,
                                     proc: u32, serial: u32, s: Served)
    requires SoFar(begin, trace, sent, file, proc, serial)
    requires Right(s) && s.before == file && Fitting(s.c.h, s.a, proc, serial)
    ensures SoFar(begin, trace + [s], sent + Sent(s.e), s.after, s.a.proc, s.a.serial)
    ensures CallsOf(trace + [s]) == CallsOf(trace) + [s.c]
  {
    OneMoreRight(trace, begin, s);
    Concat(begin.sent, SentFor(trace), Sent(s.e));
  }

  ghost predicate ServedSoFar(d: Daemon, begin: Begin, trace: seq<Served>)
    reads d, d.fd
  {
    SoFar(begin, trace, d.sent, d.fd.contents, d.procNr, d.serial)
  }

  /** The main loop is about to read the next length word. */
  ghost predicate Running(d: Daemon, begin: Begin, session: seq<Turn>, n: nat, junk: seq<In>, trace: seq<Served>)
    reads d, d.sock, d.fd
  {
    d.Ready() && StandsAt(d.sock.events, session, n, junk, CallsOf(trace)) && ServedSoFar(d, begin, trace)
  }

  /** Serve what has just been read: a request, or a chunk that is long enough to pass for one. */
  method ServeNext(d: Daemon, payload: seq<byte>, errno: seq<byte>, msg: seq<byte>, ghost es: seq<Event>,
                   ghost session: seq<Turn>, ghost n: nat, ghost junk: seq<In>, ghost seen: seq<Call>)
    returns (h: Header, ghost s: Served, ghost n': nat, ghost junk': seq<In>)
    requires d.Ready() && |errno| <= 32 && StandsAt(es, session, n, junk, seen)
    requires es != [] && es[0] == Frame(payload) && |payload| >= HEADER_SIZE && d.sock.events == es[1..]
    modifies d, d.fd, d.fd.sys, d.sock
    ensures d.Ready() && StandsAt(d.sock.events, session, n', junk', seen + [s.c])
    ensures n <= n' && (n' == n ==> |junk'| < |junk|)
    ensures s.c.h == h && Right(s) && Fitting(h, s.a, old(d.procNr), old(d.serial))
    ensures d.sent == old(d.sent) + Sent(s.e) && s.before == old(d.fd.contents) && s.after == d.fd.contents
    ensures d.procNr == s.a.proc && d.serial == s.a.serial
  {
    h := GetHeader(payload);
    ghost var items, rest;
    items, rest, n', junk' := TakeFrame(es, session, n, junk, seen, h);
    s := Serve(d, h, errno, msg, items, rest);
    if d.sock.events != rest {
      n', junk' := SkipStale(rest, session, n', junk', seen + [s.c]);   // a download took the late cancel word
    }
  }

  datatype Outcome = GoOn | Closed | Undecodable

  /** One turn of the loop: end of input, a cancel word, a frame too short for a header, or a request. */
  method OneTurn(d: Daemon, errno: seq<byte>, msg: seq<byte>, ghost begin: Begin,
                 ghost session: seq<Turn>, ghost n: nat, ghost junk: seq<In>, ghost trace: seq<Served>)
    returns (o: Outcome, ghost n': nat, ghost junk': seq<In>, ghost trace': seq<Served>)
    requires |errno| <= 32 && Running(d, begin, session, n, junk, trace)
    modifies d, d.fd, d.fd.sys, d.sock
    ensures ServedSoFar(d, begin, trace')
    ensures o.GoOn? ==> Running(d, begin, session, n', junk', trace')
    ensures o.GoOn? ==> n <= n' <= |session| && (n' == n ==> |junk'| < |junk|)
    ensures o.Closed? ==> AllDrained(session, |session|) && CallsOf(trace') == Calls(session)
    ensures o.Undecodable? ==> LostIn(session, n', CallsOf(trace'))
  {
    trace' := trace;
    ghost var es := d.sock.events;
    var ok, stale, payload := d.sock.ReadItem();
    if ok && !stale && |payload| >= HEADER_SIZE {
      n', junk', trace' := ServeTurn(d, payload, errno, msg, begin, es, session, n, junk, trace);
      return GoOn, n', junk', trace';
    }
    o := if !ok then Closed else if stale then GoOn else Undecodable;
    n', junk' := Unserved(es, session, n, junk, CallsOf(trace), o);
  }

  /** What the main loop does with anything but a request. */
  lemma {:induction false} Unserved(es: seq<Event>, ts: seq<Turn>, n: nat, junk: seq<In>, seen: seq<Call>, o: Outcome)
    returns (n': nat, junk': seq<In>)
    requires StandsAt(es, ts, n, junk, seen)
    requires match o
             case Closed => es == []
             case GoOn => es != [] && es[0].Stale?
             case Undecodable => es != [] && es[0].Frame? && |es[0].payload| < HEADER_SIZE
    ensures match o
            case Closed => AllDrained(ts, |ts|) && seen == Calls(ts)
            case GoOn => StandsAt(es[1..], ts, n', junk', seen) && n <= n' <= |ts| && (n' == n ==> |junk'| < |junk|)
            case Undecodable => LostIn(ts, n', seen)
  {
    n', junk' := n, junk;
    match o
    case Closed => AtEnd(ts, n, junk, seen);
    case GoOn => n', junk' := SkipStale(es, ts, n, junk, seen);
    case Undecodable => LostInTransfer(es, ts, n, junk, seen); n' := n - 1;
  }

  method ServeTurn(d: Daemon, payload: seq<byte>, errno: seq<byte>, msg: seq<byte>, ghost begin: Begin,
                   ghost es: seq<Event>, ghost session: seq<Turn>, ghost n: nat, ghost junk: seq<In>,
                   ghost trace: seq<Served>)
    returns (ghost n': nat, ghost junk': seq<In>, ghost trace': seq<Served>)
    requires |errno| <= 32 && d.Ready() && ServedSoFar(d, begin, trace)
    requires StandsAt(es, session, n, junk, CallsOf(trace))
    requires es != [] && es[0] == Frame(payload) && |payload| >= HEADER_SIZE && d.sock.events == es[1..]
    modifies d, d.fd, d.fd.sys, d.sock
    ensures Running(d, begin, session, n', junk', trace')
    ensures n <= n' && (n' == n ==> |junk'| < |junk|)
  {
    ghost var sent, file, proc, serial := d.sent, d.fd.contents, d.procNr, d.serial;
    var h;
    ghost var s;
    h, s, n', junk' := ServeNext(d, payload, errno, msg, es, session, n, junk, CallsOf(trace));
    SoFarNext(begin, trace, sent, file, proc, serial, s);
    trace' := trace + [s];
  }

  /**
   * The main loop over a whole session, behind any number of transfers in either direction (each of
   * which may fail or be cancelled anywhere) and late cancel words.  `trace` is what it did: all that was
   * sent is what was sent for its requests, each of them was served rightly for its procedure, on the file
   * that the one before left, and is answered exactly once and in order, with its own procedure and serial
   * number, or with those of the call before if it was refused.  Its requests are exactly the session's,
   * with their transfers, unless a refused one was followed by a transfer: then the loop takes chunks for
   * requests and exits in that transfer.
   */
  method MainLoop(d: Daemon, errno: seq<byte>, msg: seq<byte>, ghost session: seq<Turn>)
    returns (lost: bool, ghost trace: seq<Served>, ghost begin: Begin, ghost n: nat)
    requires d.Ready() && |errno| <= 32
    requires (forall t :: t in session ==> GoodTurn(t)) && d.sock.events == SessionEvents(session)
    modifies d, d.fd, d.fd.sys, d.sock
    ensures begin == Begin(old(d.sent), old(d.fd.contents), old(d.procNr), old(d.serial))
    ensures AllRight(trace, begin) && d.sent == old(d.sent) + SentFor(trace)
    ensures d.fd.contents == FileBefore(trace, |trace|, begin)
    ensures Answers(d.sent) == Answers(old(d.sent)) + AnswersOf(trace)
    ensures if lost then LostIn(session, n, CallsOf(trace))
            else AllDrained(session, |session|) && CallsOf(trace) == Calls(session)
  {
    trace, n, lost := [], 0, false;
    ghost var junk: seq<In> := [];
    begin := Begin(d.sent, d.fd.contents, d.procNr, d.serial);
    AtStart(session);
    assert CallsOf(trace) == [];
    assert d.sent + [] == d.sent;
    var o := GoOn;
    while o.GoOn?
      invariant ServedSoFar(d, begin, trace)
      invariant o.GoOn? ==> Running(d, begin, session, n, junk, trace) && n <= |session|
      invariant o.Closed? ==> AllDrained(session, |session|) && CallsOf(trace) == Calls(session)
      invariant o.Undecodable? ==> LostIn(session, n, CallsOf(trace))
      decreases o.GoOn?, |session| - n, |junk|
    {
      o, n, junk, trace := OneTurn(d, errno, msg, begin, session, n, junk, trace);
    }
    lost := o.Undecodable?;
    OneAnswerEach(trace, begin);
    AnswersAppend(begin.sent, SentFor(trace));
  }

  /** A file uploaded without failure is what a later download sends, if nothing comes between them. */
  lemma {:induction false} DownloadGivesUploaded(trace: seq<Served>, begin: Begin, k: nat)
    requires AllRight(trace, begin) && k + 1 < |trace|
    requires GoodCall(trace[k].c.h) && trace[k].c.h.proc == PROC_UPLOAD && trace[k].a.status == 0
    requires GoodCall(trace[k + 1].c.h) && trace[k + 1].c.h.proc == PROC_DOWNLOAD
    requires trace[k + 1].faults == 0 && !trace[k + 1].cancelled
    ensures trace[k + 1].e.Downloaded? && Payload(trace[k + 1].e.chunks) == DataOf(trace[k].c.items)
  {
    assert RightAt(trace, k, begin) && RightAt(trace, k + 1, begin);
  }

  /** An upload in another protocol version, with its transfer. */
  lemma {:induction false} RefusedUploadExample()
    ensures var t := Request(Header(PROGRAM, PROTOCOL_VERSION + 1, PROC_UPLOAD, 0, 1, 0, 0, 0), [], [EndOfFile]);
            GoodTurn(t) && !Drained(t)
  {
  }
}
