/** FileOut transfers: `do_download` and `do_download_offset`. */
module Download {
  import opened Wrappers
  import opened Bytes
  import opened Seqs
  import opened Wire
  import opened Sockets
  import opened Daemon
  import opened Files

  /** A sequence of chunks as the protocol allows it: data chunks, then one terminator. */
  predicate WellFormed(chunks: seq<Chunk>) {
    && chunks != []
    && (forall k :: 0 <= k < |chunks| - 1 ==> chunks[k].cancel == 0 && chunks[k].data != [])
    && chunks[|chunks| - 1].data == [] && chunks[|chunks| - 1].cancel <= 1
  }

  predicate AllData(chunks: seq<Chunk>) {
    forall k :: 0 <= k < |chunks| ==> chunks[k].cancel == 0 && chunks[k].data != []
  }

  function Payload(chunks: seq<Chunk>): seq<byte> {
    if chunks == [] then [] else Payload(chunks[..|chunks| - 1]) + chunks[|chunks| - 1].data
  }

  lemma {:induction false} PayloadSnoc(chunks: seq<Chunk>, c: Chunk)
    ensures Payload(chunks + [c]) == Payload(chunks) + c.data
  {
    assert (chunks + [c])[..|chunks|] == chunks;
  }

  /** The library sees one more chunk after a chunk message. */
  lemma {:induction false} ChunksSnoc(os: seq<Out>, chunks: seq<Chunk>, c: Chunk)
    requires ChunksOf(os) == Some(chunks) && |c.data| <= MAX_CHUNK_SIZE
    ensures ChunksOf(os + [Message(PutChunk(c))]) == Some(chunks + [c])
  {
    ChunkRoundTrip(c);
    assert (os + [Message(PutChunk(c))])[..|os|] == os;
  }

  /** ... and no more after progress messages. */
  lemma {:induction false} ChunksProgress(os: seq<Out>, chunks: seq<Chunk>, ps: seq<Out>)
    requires ChunksOf(os) == Some(chunks) && OnlyProgress(ps)
    ensures ChunksOf(os + ps) == Some(chunks)
  {
    if ps == [] {
      assert os + ps == os;
    } else {
      var n := |ps| - 1;
      assert ps[n] in ps;
      ChunksProgress(os, chunks, ps[..n]);
      assert (os + ps)[..|os + ps| - 1] == os + ps[..n];
    }
  }

  /** send_chunk: the encoded chunk always fits. */
  method SendChunk(d: Daemon, c: Chunk)
    requires d.Timed() && |c.data| <= MAX_CHUNK_SIZE
    modifies d`sent
    ensures d.Timed() && d.sent == old(d.sent) + [Message(PutChunk(c))]
  {
    ChunkRoundTrip(c);
    d.Send(Message(PutChunk(c)));
  }

  /** A cancel word from the library, if one has been seen, turns this chunk into the cancel chunk. */
  method SendFileWrite(d: Daemon, buf: seq<byte>) returns (r: int, ghost c: Chunk)
    requires d.Ready()
    modifies d`sent, d.sock
    ensures d.Ready()
    ensures r == -1 <==> |buf| > MAX_CHUNK_SIZE
    ensures r == -1 ==> d.sent == old(d.sent)
    ensures r != -1 ==> |c.data| <= MAX_CHUNK_SIZE && d.sent == old(d.sent) + [Message(PutChunk(c))]
    ensures r == 0 || r == -1 ==> d.sock.events == old(d.sock.events)
    ensures r == 0 ==> c == Chunk(0, buf)
    ensures r == -2 ==> c == Chunk(1, []) && TookCancel(old(d.sock.events), d.sock.events)
    ensures r == 0 || r == -1 || r == -2
  {
    c := Chunk(1, []);
    if |buf| > MAX_CHUNK_SIZE {
      return -1, c;
    }
    var cancel := d.sock.PollCancel(true);
    if cancel {
      SendChunk(d, Chunk(1, []));
      return -2, c;
    }
    SendChunk(d, Chunk(0, buf));
    return 0, Chunk(0, buf);
  }

  predicate TookCancel(before: seq<Event>, after: seq<Event>) {
    before != [] && before[0].Stale? && after == before[1..]
  }

  /** The messages so far decode to data chunks that carry src[from..from + n]. */
  ghost predicate Carries(out: seq<Out>, chunks: seq<Chunk>, src: seq<byte>, from: nat, n: nat) {
    && ChunksOf(out) == Some(chunks) && AllData(chunks)
    && (n == 0 || from + n <= |src|)
    && Payload(chunks) == Taken(src, from, n)
  }

  // ---------- progress of a transfer

  /** What all progress messages of a request have in common. */
  datatype Stamp = Stamp(proc: u32, serial: u32, total: u64)

  /** A progress message tells how many bytes were in the chunks before it. */
  ghost predicate ReportAt(out: seq<Out>, k: nat, st: Stamp)
    requires k < |out|
  {
    out[k].ProgressMsg? ==>
      && ChunksOf(out[..k]).Some?
      && out[k].p == Progress(st.proc, st.serial, Wrapped(|Payload(ChunksOf(out[..k]).value)|), st.total)
  }

  ghost predicate Reports(out: seq<Out>, st: Stamp) {
    forall k :: 0 <= k < |out| ==> ReportAt(out, k, st)
  }

  lemma {:induction false} ReportsSnoc(out: seq<Out>, st: Stamp, o: Out)
    requires Reports(out, st)
    requires o.ProgressMsg? ==>
               && ChunksOf(out).Some?
               && o.p == Progress(st.proc, st.serial, Wrapped(|Payload(ChunksOf(out).value)|), st.total)
    ensures Reports(out + [o], st)
  {
    var out' := out + [o];
    forall k | 0 <= k < |out'| ensures ReportAt(out', k, st) {
      if k < |out| {
        assert ReportAt(out, k, st) && out'[..k] == out[..k];
      } else {
        assert out'[..k] == out;
      }
    }
  }

  /** A chunk of n bytes more, and the progress message that may follow it. */
  lemma {:induction false} ReportsBlock(out: seq<Out>, chunks: seq<Chunk>, st: Stamp, c: Chunk, n: nat, ps: seq<Out>)
    requires Reports(out, st) && ChunksOf(out) == Some(chunks) && |c.data| <= MAX_CHUNK_SIZE
    requires |Payload(chunks)| == n
    requires ps == [] || ps == [ProgressMsg(Progress(st.proc, st.serial, Wrapped(n + |c.data|), st.total))]
    ensures Reports(out + [Message(PutChunk(c))], st) && Reports(out + [Message(PutChunk(c))] + ps, st)
  {
    var m := Message(PutChunk(c));
    ReportsSnoc(out, st, m);
    if ps == [] {
      assert out + [m] + ps == out + [m];
    } else {
      ChunksSnoc(out, chunks, c);
      PayloadSnoc(chunks, c);
      ReportsSnoc(out + [m], st, ps[0]);
    }
  }

  /** The bytes asked for, up to end of file. */
  function Range(src: seq<byte>, from: nat, size: nat): seq<byte> {
    if from >= |src| then [] else if from + size <= |src| then src[from..from + size] else src[from..]
  }

  /** A finished transfer: data chunks with a prefix of the range, one terminator, and all of it if r is 0. */
  ghost predicate Ended(out: seq<Out>, chunks: seq<Chunk>, range: seq<byte>, r: int) {
    && ChunksOf(out) == Some(chunks) && WellFormed(chunks)
    && Payload(chunks) <= range
    && (r == 0 <==> chunks[|chunks| - 1].cancel == 0)
    && (r == 0 ==> Payload(chunks) == range)
  }

  lemma {:induction false} SentIsPrefix(src: seq<byte>, from: nat, n: nat, size: nat)
    requires n <= size && (n == 0 || from + n <= |src|)
    ensures Taken(src, from, n) <= Range(src, from, size)
    ensures n == |Range(src, from, size)| ==> Taken(src, from, n) == Range(src, from, size)
  {
  }

  lemma {:induction false} CarriesMore(out: seq<Out>, chunks: seq<Chunk>, src: seq<byte>, from: nat, n: nat,
                                       buf: seq<byte>, ps: seq<Out>)
    requires Carries(out, chunks, src, from, n) && OnlyProgress(ps)
    requires 1 <= |buf| <= MAX_CHUNK_SIZE && from + n + |buf| <= |src| && buf == src[from + n..from + n + |buf|]
    ensures Carries(out + [Message(PutChunk(Chunk(0, buf)))] + ps, chunks + [Chunk(0, buf)], src, from, n + |buf|)
  {
    var c := Chunk(0, buf);
    ChunksSnoc(out, chunks, c);
    ChunksProgress(out + [Message(PutChunk(c))], chunks + [c], ps);
    PayloadSnoc(chunks, c);
    TakenNext(src, from, n, buf);
    AllDataSnoc(chunks, c);
  }

  lemma {:induction false} AllDataSnoc(chunks: seq<Chunk>, c: Chunk)
    requires AllData(chunks) && c.cancel == 0 && c.data != []
    ensures AllData(chunks + [c])
  {
  }

  lemma {:induction false} WholeRange(src: seq<byte>, from: nat, n: nat, size: nat)
    requires n <= size && (n == 0 || from + n <= |src|) && (n == size || from + n >= |src|)
    ensures n == |Range(src, from, size)|
  {
  }

  lemma {:induction false} Ends(out: seq<Out>, chunks: seq<Chunk>, src: seq<byte>, from: nat, n: nat, size: nat,
                                cancel: bool)
    requires Carries(out, chunks, src, from, n) && n <= size
    requires !cancel ==> n == |Range(src, from, size)|
    ensures var c := Chunk(if cancel then 1 else 0, []);
            Ended(out + [Message(PutChunk(c))], chunks + [c], Range(src, from, size), if cancel then -1 else 0)
  {
    var c := Chunk(if cancel then 1 else 0, []);
    ChunksSnoc(out, chunks, c);
    PayloadSnoc(chunks, c);
    assert Payload(chunks) + [] == Payload(chunks);
    SentIsPrefix(src, from, n, size);
    Terminated(chunks, c);
  }

  lemma {:induction false} Terminated(chunks: seq<Chunk>, c: Chunk)
    requires AllData(chunks) && c.data == [] && c.cancel <= 1
    ensures WellFormed(chunks + [c]) && (chunks + [c])[|chunks|] == c
  {
  }

  /** One block: a data chunk and perhaps progress (0), or the cancel chunk (-2). */
  method SendBlock(d: Daemon, buf: seq<byte>, total: u64,
                   ghost s0: seq<Out>, ghost out: seq<Out>, ghost chunks: seq<Chunk>,
                   ghost src: seq<byte>, ghost from: nat, n: nat, ghost size: nat)
    returns (r: int, ghost out': seq<Out>, ghost chunks': seq<Chunk>)
    requires d.Ready() && d.sent == s0 + out && Carries(out, chunks, src, from, n) && n <= size
    requires 1 <= |buf| <= MAX_CHUNK_SIZE && from + n + |buf| <= |src| && buf == src[from + n..from + n + |buf|]
    requires Reports(out, Stamp(d.procNr, d.serial, total))
    modifies d`sent, d`limiter, d`clock, d`scheduled, d.sock
    ensures d.Ready() && d.sent == s0 + out' && (r == 0 || r == -2)
    ensures r == -2 ==> TookCancel(old(d.sock.events), d.sock.events)
    ensures Reports(out', Stamp(d.procNr, d.serial, total))
    ensures r == 0 ==> d.sock.events == old(d.sock.events) && Carries(out', chunks', src, from, n + |buf|)
    ensures r == -2 ==> Ended(out', chunks', Range(src, from, size), -1)
    ensures r == -2 ==> CancelAccounted(old(d.sock.events), d.sock.events, chunks')
  {
    ghost var c;
    r, c := SendFileWrite(d, buf);
    ghost var msg := [Message(PutChunk(c))];
    Concat(s0, out, msg);
    out', chunks' := out + msg, chunks + [c];
    ghost var st := Stamp(d.procNr, d.serial, total);
    ReportsBlock(out, chunks, st, c, n, []);
    if r == 0 {
      ghost var ps := d.NotifyProgress(Wrapped(n + |buf|), total);
      ReportsBlock(out, chunks, st, c, n, ps);
      CarriesMore(out, chunks, src, from, n, buf, ps);
      Concat(s0, out', ps);
      out' := out' + ps;
    } else {
      Ends(out, chunks, src, from, n, size, true);
    }
  }

  /** Close the transfer with a terminator of our own. */
  method SendFileEnd(d: Daemon, cancel: bool, ghost s0: seq<Out>, ghost out: seq<Out>, ghost chunks: seq<Chunk>,
                     ghost src: seq<byte>, ghost from: nat, ghost n: nat, ghost size: nat, ghost st: Stamp)
    returns (r: int, ghost out': seq<Out>, ghost chunks': seq<Chunk>)
    requires Reports(out, st)
    requires d.Timed() && d.sent == s0 + out && Carries(out, chunks, src, from, n) && n <= size
    requires !cancel ==> n == |Range(src, from, size)|
    modifies d`sent
    ensures d.Timed() && d.sent == s0 + out' && Ended(out', chunks', Range(src, from, size), r)
    ensures r == if cancel then -1 else 0
    ensures Reports(out', st)
  {
    var c := Chunk(if cancel then 1 else 0, []);
    SendChunk(d, c);
    Ends(out, chunks, src, from, n, size, cancel);
    ReportsSnoc(out, st, Message(PutChunk(c)));
    Concat(s0, out, [Message(PutChunk(c))]);
    out', chunks' := out + [Message(PutChunk(c))], chunks + [c];
    r := if cancel then -1 else 0;
  }

  /** The socket after a transfer: a cancel word is either still unread or was answered by the cancel chunk. */
  ghost predicate CancelAccounted(before: seq<Event>, after: seq<Event>, chunks: seq<Chunk>) {
    after == before || (TookCancel(before, after) && chunks != [] && chunks[|chunks| - 1].cancel == 1)
  }

  /**
   * One turn of either loop, after n bytes: a block was sent (1), nothing is left to read (0), or
   * the transfer has ended (-1).
   */
  method SendNext(d: Daemon, src: seq<byte>, from: nat, n: nat, want: nat, total: u64, ghost size: nat,
                  ghost s0: seq<Out>, ghost out: seq<Out>, ghost chunks: seq<Chunk>)
    returns (go: int, got: nat, ghost out': seq<Out>, ghost chunks': seq<Chunk>)
    requires d.Ready() && d.sent == s0 + out && Carries(out, chunks, src, from, n)
    requires Reports(out, Stamp(d.procNr, d.serial, total))
    requires n <= size && 1 <= want <= MAX_CHUNK_SIZE && (n + want <= size || from + size == |src|)
    modifies d`sent, d`limiter, d`clock, d`scheduled, d.sock, d.fd.sys
    ensures d.Ready() && d.sent == s0 + out' && (go == 1 || go == 0 || go == -1)
    ensures go == 1 ==> 1 <= got <= want && n + got <= size && Carries(out', chunks', src, from, n + got)
    ensures go == 0 ==> from + n >= |src| && out' == out && chunks' == chunks
    ensures go >= 0 ==> d.sock.events == old(d.sock.events)
    ensures Reports(out', Stamp(d.procNr, d.serial, total))
    ensures go == -1 ==> Ended(out', chunks', Range(src, from, size), -1)
    ensures go == -1 ==> CancelAccounted(old(d.sock.events), d.sock.events, chunks')
    ensures d.fd.sys.failed >= old(d.fd.sys.failed)
    ensures go == -1 <==> d.fd.sys.failed > old(d.fd.sys.failed) || d.sock.events != old(d.sock.events)
  {
    out', chunks', got := out, chunks, 0;
    var k, buf := ReadFrom(d.fd.sys, src, from + n, want);
    var r;
    if k == -1 {
      r, out', chunks' := SendFileEnd(d, true, s0, out, chunks, src, from, n, size,
                                      Stamp(d.procNr, d.serial, total));
      return -1, 0, out', chunks';
    }
    if k == 0 {
      return 0, 0, out, chunks;
    }
    r, out', chunks' := SendBlock(d, buf, total, s0, out, chunks, src, from, n, size);
    return if r < 0 then -1 else 1, k, out', chunks';
  }

  /** The loop of do_download_offset, after the OK reply. */
  method SendRange(d: Daemon, src: seq<byte>, offset: nat, size: nat)
    returns (r: int, ghost out: seq<Out>, ghost chunks: seq<Chunk>)
    requires d.Ready()
    modifies d`sent, d`limiter, d`clock, d`scheduled, d.sock, d.fd.sys
    ensures d.Ready() && (r == 0 || r == -1)
    ensures d.sent == old(d.sent) + out && Ended(out, chunks, Range(src, offset, size), r)
    ensures Reports(out, Stamp(d.procNr, d.serial, Wrapped(size)))
    ensures CancelAccounted(old(d.sock.events), d.sock.events, chunks)
    ensures d.fd.sys.failed >= old(d.fd.sys.failed)
    ensures r == 0 <==> d.fd.sys.failed == old(d.fd.sys.failed) && d.sock.events == old(d.sock.events)
  {
    var usize, total, sent := size, Wrapped(size), 0;
    out, chunks := [], [];
    ghost var s0 := d.sent;
    assert s0 + [] == s0;
    while usize > 0
      invariant 0 <= usize && 0 <= sent && sent + usize == size
      invariant d.Ready() && d.sock.events == old(d.sock.events) && d.fd.sys.failed == old(d.fd.sys.failed)
      invariant d.sent == s0 + out && Carries(out, chunks, src, offset, sent)
      invariant Reports(out, Stamp(d.procNr, d.serial, total))
    {
      var want := if usize > MAX_CHUNK_SIZE then MAX_CHUNK_SIZE else usize;
      var go, n;
      go, n, out, chunks := SendNext(d, src, offset, sent, want, total, size, s0, out, chunks);
      if go == -1 {
        return -1, out, chunks;
      }
      if go == 0 {
        break;
      }
      sent, usize := sent + n, usize - n;
    }
    WholeRange(src, offset, sent, size);
    var failed := d.fd.sys.Fails();        // close
    r, out, chunks := SendFileEnd(d, failed, s0, out, chunks, src, offset, sent, size,
                                  Stamp(d.procNr, d.serial, total));
  }

  /** The loop of do_download: the file's size is only found by reading to the end. */
  method SendAll(d: Daemon, src: seq<byte>)
    returns (r: int, ghost out: seq<Out>, ghost chunks: seq<Chunk>)
    requires d.Ready()
    modifies d`sent, d`limiter, d`clock, d`scheduled, d.sock, d.fd.sys
    ensures d.Ready() && (r == 0 || r == -1)
    ensures d.sent == old(d.sent) + out && Ended(out, chunks, Range(src, 0, |src|), r)
    ensures Reports(out, Stamp(d.procNr, d.serial, Wrapped(|src|)))
    ensures CancelAccounted(old(d.sock.events), d.sock.events, chunks)
    ensures d.fd.sys.failed >= old(d.fd.sys.failed)
    ensures r == 0 <==> d.fd.sys.failed == old(d.fd.sys.failed) && d.sock.events == old(d.sock.events)
  {
    out, chunks := [], [];
    ghost var s0 := d.sent;
    assert s0 + [] == s0;
    var sent, total := 0, Wrapped(|src|);
    while true
      invariant 0 <= sent <= |src|
      invariant d.Ready() && d.sock.events == old(d.sock.events) && d.fd.sys.failed == old(d.fd.sys.failed)
      invariant d.sent == s0 + out && Carries(out, chunks, src, 0, sent)
      invariant Reports(out, Stamp(d.procNr, d.serial, total))
      decreases |src| - sent
    {
      var go, n;
      go, n, out, chunks := SendNext(d, src, 0, sent, MAX_CHUNK_SIZE, total, |src|, s0, out, chunks);
      if go == -1 {
        return -1, out, chunks;
      }
      if go == 0 {
        break;
      }
      sent := sent + n;
    }
    var failed := d.fd.sys.Fails();        // close
    r, out, chunks := SendFileEnd(d, failed, s0, out, chunks, src, 0, sent, |src|,
                                  Stamp(d.procNr, d.serial, total));
  }

  /**
   * After its OK reply every run sends data chunks that carry a prefix of the requested
   * range and then exactly one terminator; a normal terminator means the whole range.
   * Before it, a refusal is one error reply and no chunk.
   */
  method DoDownloadOffset(d: Daemon, src: seq<byte>, offset: int, size: int, error: Out, okReply: Out)
    returns (r: int, replied: bool, ghost out: seq<Out>, ghost chunks: seq<Chunk>)
    requires d.Ready() && error.Message? && Legal(error) && okReply.Message? && Legal(okReply)
    modifies d`sent, d`limiter, d`clock, d`scheduled, d.sock, d.fd.sys
    ensures d.Ready() && (r == 0 || r == -1)
    ensures !replied ==> r == -1 && d.sent == old(d.sent) + [error] && d.sock.events == old(d.sock.events)
    ensures offset < 0 || size < 0 ==> !replied
    ensures replied ==> d.sent == old(d.sent) + [okReply] + out && Ended(out, chunks, Range(src, offset, size), r)
    ensures replied ==> Reports(out, Stamp(d.procNr, d.serial, Wrapped(size)))
    ensures replied ==> CancelAccounted(old(d.sock.events), d.sock.events, chunks)
    ensures d.fd.sys.failed >= old(d.fd.sys.failed)
    ensures r == 0 <==> offset >= 0 && size >= 0 &&
                        d.fd.sys.failed == old(d.fd.sys.failed) && d.sock.events == old(d.sock.events)
  {
    var ready := offset >= 0 && size >= 0;
    if ready {
      var failed := d.fd.sys.Fails();  // open, fstat, lseek
      ready := !failed;
    }
    if !ready {
      d.Reply(error);
      return -1, false, [], [];
    }
    replied := true;
    d.Reply(okReply);
    r, out, chunks := SendRange(d, src, offset, size);
  }

  /** The same for a whole file. */
  method DoDownload(d: Daemon, src: seq<byte>, error: Out, okReply: Out)
    returns (r: int, replied: bool, ghost out: seq<Out>, ghost chunks: seq<Chunk>)
    requires d.Ready() && error.Message? && Legal(error) && okReply.Message? && Legal(okReply)
    modifies d`sent, d`limiter, d`clock, d`scheduled, d.sock, d.fd.sys
    ensures d.Ready() && (r == 0 || r == -1)
    ensures !replied ==> r == -1 && d.sent == old(d.sent) + [error] && d.sock.events == old(d.sock.events)
    ensures replied ==> d.sent == old(d.sent) + [okReply] + out && Ended(out, chunks, src, r)
    ensures replied ==> Reports(out, Stamp(d.procNr, d.serial, Wrapped(|src|)))
    ensures replied ==> CancelAccounted(old(d.sock.events), d.sock.events, chunks)
    ensures d.fd.sys.failed >= old(d.fd.sys.failed)
    ensures r == 0 <==> d.fd.sys.failed == old(d.fd.sys.failed) && d.sock.events == old(d.sock.events)
  {
    var failed := d.fd.sys.Fails();    // open, fstat, size of the device
    if failed {
      d.Reply(error);
      return -1, false, [], [];
    }
    replied := true;
    d.Reply(okReply);
    assert Range(src, 0, |src|) == src;
    r, out, chunks := SendAll(d, src);
  }
}
