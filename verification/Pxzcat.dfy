/**
 * The parallel xz decompressor: worker threads claim non-empty blocks from one
 * mutex-protected iterator, decode them, skip all-zero buffers and pwrite the
 * rest at the block's own offset.  A run is any interleaving of worker steps.
 * Nothing compares what a block decodes to with the size that the index gives.
 */
module Pxzcat {
  import opened Bytes
  import opened Seqs

  const BUFFER_SIZE: nat := 64 * 1024

  /** A block's uncompressed size according to the index, and what it decodes to. */
  datatype Block = Block(size: nat, data: seq<byte>)

  type Index = seq<Block>

  function Offset(idx: Index, i: nat): nat
    requires i <= |idx|
  {
    if i == 0 then 0 else Offset(idx, i - 1) + idx[i - 1].size
  }

  /** The first n blocks decoded one after another. */
  function Concatenation(idx: Index, n: nat): seq<byte>
    requires n <= |idx|
  {
    if n == 0 then [] else Concatenation(idx, n - 1) + idx[n - 1].data
  }

  /** Every block decodes to as many bytes as the index says. */
  predicate Matched(idx: Index) {
    forall i :: 0 <= i < |idx| ==> |idx[i].data| == idx[i].size
  }

  lemma {:induction false} OffsetMonotone(idx: Index, i: nat, j: nat)
    requires i <= j <= |idx|
    ensures Offset(idx, i) <= Offset(idx, j)
    ensures i < j ==> Offset(idx, i) + idx[i].size <= Offset(idx, j)
    decreases j - i
  {
    if i < j {
      OffsetMonotone(idx, i + 1, j);
    }
  }

  /** LZMA_INDEX_ITER_NONEMPTY_BLOCK: the next non-empty block, or the end. */
  function NextNonEmpty(idx: Index, from: nat): (j: nat)
    requires from <= |idx|
    ensures from <= j <= |idx|
    ensures j < |idx| ==> idx[j].size != 0
    ensures forall k :: from <= k < j ==> idx[k].size == 0
    decreases |idx| - from
  {
    if from == |idx| || idx[from].size != 0 then from else NextNonEmpty(idx, from + 1)
  }

  // ---------- the output file before the workers start

  /** `pxzcat` makes the file all zero whatever it held before. */
  method PrepareOutput(initial: seq<byte>, size: nat) returns (file: seq<byte>)
    ensures file == Zeros(size)
  {
    file := Truncate(initial, 1);
    file := WriteAt(file, 0, [0]);
    file := Truncate(file, size);
    assert forall i :: 0 <= i < size ==> file[i] == 0;
  }

  // ---------- the step system

  datatype LzmaRet = LzmaOk | LzmaStreamEnd | LzmaError

  /** `strm` is everything liblzma has produced for the block so far. */
  datatype Worker =
    | Ready
    | Header(i: nat)
    | Decoding(i: nat, oposition: nat, strm: seq<byte>, outbuf: seq<byte>)
    | Flushing(i: nat, oposition: nat, strm: seq<byte>, outbuf: seq<byte>, r: LzmaRet)
    | Exited(ok: bool)

  datatype State = State(next: nat, finished: bool, workers: seq<Worker>, file: seq<byte>)

  datatype Action =
    | Claim(w: nat, block: nat)
    | Finish(w: nat)
    | DecodeHeader(w: nat, good: bool)
    | Code(w: nat, produced: seq<byte>, ret: LzmaRet)
    | Flush(w: nat)
    | ShortWrite(w: nat, m: nat)

  predicate Init(idx: Index, threads: nat, s: State) {
    && s.next == 0 && !s.finished
    && |s.workers| == threads
    && (forall w :: 0 <= w < threads ==> s.workers[w] == Ready)
    && s.file == Zeros(Offset(idx, |idx|))
  }

  predicate Set(s: State, s': State, w: nat, v: Worker) {
    w < |s.workers| && s'.workers == s.workers[w := v]
  }

  /** Mutex section: fetch the iterator's next block and take a copy of it. */
  predicate StepClaim(idx: Index, s: State, w: nat, i: nat, s': State) {
    && s.next <= |idx|
    && w < |s.workers| && s.workers[w] == Ready
    && !s.finished && NextNonEmpty(idx, s.next) == i < |idx|
    && Set(s, s', w, Header(i))
    && s'.next == i + 1 && !s'.finished && s'.file == s.file
  }

  /** Mutex section: the iterator is (or has just become) exhausted; the thread exits with status 0. */
  predicate StepFinish(idx: Index, s: State, w: nat, s': State) {
    && s.next <= |idx|
    && w < |s.workers| && s.workers[w] == Ready
    && (s.finished || NextNonEmpty(idx, s.next) == |idx|)
    && Set(s, s', w, Exited(true))
    && s'.next == |idx| && s'.finished && s'.file == s.file
  }

  predicate StepHeader(idx: Index, s: State, w: nat, good: bool, s': State) {
    && w < |s.workers| && s.workers[w].Header? && s.workers[w].i < |idx|
    && var i := s.workers[w].i;
    && Set(s, s', w, if good then Decoding(i, Offset(idx, i), [], []) else Exited(false))
    && s'.next == s.next && s'.finished == s.finished && s'.file == s.file
  }

  /**
   * One lzma_code call.  Before LZMA_STREAM_END the decoder may produce any bytes and
   * any number of them (a corrupt block is noticed late); at LZMA_STREAM_END it has
   * produced exactly what the block decodes to.
   */
  predicate StepCode(idx: Index, s: State, w: nat, d: seq<byte>, r: LzmaRet, s': State) {
    && w < |s.workers| && s.workers[w].Decoding?
    && var Decoding(i, opos, strm, outbuf) := s.workers[w];
    && i < |idx|
    && |outbuf + d| <= BUFFER_SIZE
    && (r == LzmaStreamEnd ==> strm + d == idx[i].data)
    && Set(s, s', w,
           if |outbuf + d| == BUFFER_SIZE || r == LzmaStreamEnd then
             Flushing(i, opos, strm + d, outbuf + d, r)
           else if r == LzmaOk then
             Decoding(i, opos, strm + d, outbuf + d)
           else
             Exited(false))
    && s'.next == s.next && s'.finished == s.finished && s'.file == s.file
  }

  /** Skip an all-zero buffer, pwrite any other; then advance `oposition` past it. */
  predicate StepFlush(s: State, w: nat, s': State) {
    && w < |s.workers| && s.workers[w].Flushing?
    && var Flushing(i, opos, strm, outbuf, r) := s.workers[w];
    && s'.file == (if AllZero(outbuf) then s.file else WriteAt(s.file, opos, outbuf))
    && Set(s, s', w,
           match r
           case LzmaStreamEnd => Ready
           case LzmaOk => Decoding(i, opos + |outbuf|, strm, [])
           case LzmaError => Exited(false))
    && s'.next == s.next && s'.finished == s.finished
  }

  /** A failed or short pwrite: the thread gives up. */
  predicate StepShortWrite(s: State, w: nat, m: nat, s': State) {
    && w < |s.workers| && s.workers[w].Flushing?
    && var Flushing(i, opos, strm, outbuf, r) := s.workers[w];
    && !AllZero(outbuf) && m < |outbuf|
    && s'.file == WriteAt(s.file, opos, outbuf[..m])
    && Set(s, s', w, Exited(false))
    && s'.next == s.next && s'.finished == s.finished
  }

  predicate Step(idx: Index, s: State, a: Action, s': State) {
    match a
    case Claim(w, i) => StepClaim(idx, s, w, i, s')
    case Finish(w) => StepFinish(idx, s, w, s')
    case DecodeHeader(w, good) => StepHeader(idx, s, w, good, s')
    case Code(w, d, r) => StepCode(idx, s, w, d, r, s')
    case Flush(w) => StepFlush(s, w, s')
    case ShortWrite(w, m) => StepShortWrite(s, w, m, s')
  }

  /** Step k leads from state k to the next one. */
  predicate StepAt(idx: Index, states: seq<State>, acts: seq<Action>, k: nat)
    requires k < |acts| < |states|
  {
    Step(idx, states[k], acts[k], states[k + 1])
  }

  predicate Run(idx: Index, threads: nat, states: seq<State>, acts: seq<Action>) {
    && |states| == |acts| + 1
    && Init(idx, threads, states[0])
    && forall k :: 0 <= k < |acts| ==> StepAt(idx, states, acts, k)
  }

  /** `iter_blocks` returns normally: every thread was joined with status 0. */
  predicate ReturnsNormally(s: State) {
    forall w :: 0 <= w < |s.workers| ==> s.workers[w] == Exited(true)
  }

  // ---------- what holds of every run, whatever the decoder produces

  predicate Owns(v: Worker) { v.Header? || v.Decoding? || v.Flushing? }

  /** A worker's buffer follows what was flushed of its block; `oposition` follows it in the file. */
  predicate WorkerOk(idx: Index, next: nat, flushed: seq<seq<byte>>, v: Worker) {
    Owns(v) ==>
      && v.i < next <= |idx| && v.i < |flushed| && idx[v.i].size != 0
      && match v
         case Header(i) => flushed[i] == []
         case Decoding(i, opos, strm, outbuf) =>
           strm == flushed[i] + outbuf && opos == Offset(idx, i) + |flushed[i]|
         case Flushing(i, opos, strm, outbuf, r) =>
           && strm == flushed[i] + outbuf && opos == Offset(idx, i) + |flushed[i]|
           && (r == LzmaStreamEnd ==> strm == idx[i].data)
         case _ => true
  }

  /** Nothing is to be done for an empty block; any other has been flushed as a whole. */
  predicate Done(b: Block, flushed: seq<byte>) { if b.size == 0 then flushed == [] else flushed == b.data }

  /** A worker has failed, or still owns block i. */
  predicate Pending(s: State, i: nat) {
    exists w :: 0 <= w < |s.workers| && (s.workers[w] == Exited(false) || (Owns(s.workers[w]) && s.workers[w].i == i))
  }

  predicate Complete(idx: Index, s: State, flushed: seq<seq<byte>>) {
    forall i :: 0 <= i < s.next && i < |idx| && i < |flushed| ==> Done(idx[i], flushed[i]) || Pending(s, i)
  }

  predicate Inv(idx: Index, s: State, flushed: seq<seq<byte>>) {
    && |flushed| == |idx| && s.next <= |idx|
    && (forall i :: s.next <= i < |idx| ==> flushed[i] == [])
    && (forall w :: 0 <= w < |s.workers| ==> WorkerOk(idx, s.next, flushed, s.workers[w]))
    && (forall v, w :: 0 <= v < w < |s.workers| && Owns(s.workers[v]) && Owns(s.workers[w]) ==>
          s.workers[v].i != s.workers[w].i)
    && Complete(idx, s, flushed)
    && (s.finished ==> s.next == |idx|)
    && (forall w :: 0 <= w < |s.workers| && s.workers[w] == Exited(true) ==> s.finished)
  }

  function Nothing(idx: Index): (flushed: seq<seq<byte>>)
    ensures |flushed| == |idx| && forall i :: 0 <= i < |idx| ==> flushed[i] == []
  {
    seq(|idx|, _ => [])
  }

  /** What a step adds to the flushed part of the stepping worker's block. */
  function Flushed(s: State, a: Action, flushed: seq<seq<byte>>): seq<seq<byte>> {
    if (a.Flush? || a.ShortWrite?) && a.w < |s.workers| && s.workers[a.w].Flushing? && s.workers[a.w].i < |flushed| then
      var v := s.workers[a.w];
      flushed[v.i := flushed[v.i] + (if a.Flush? then v.outbuf else if a.m <= |v.outbuf| then v.outbuf[..a.m] else [])]
    else flushed
  }

  /** Every step of every worker keeps the invariant. */
  lemma {:induction false} StepInv(idx: Index, s: State, flushed: seq<seq<byte>>, a: Action, s': State)
    requires Inv(idx, s, flushed) && Step(idx, s, a, s')
    ensures Inv(idx, s', Flushed(s, a, flushed))
  {
    match a
    case Claim(w, i) => ClaimInv(idx, s, flushed, w, i, s');
    case Finish(w) => FinishInv(idx, s, flushed, w, s');
    case DecodeHeader(w, good) => HeaderInv(idx, s, flushed, w, good, s');
    case Code(w, d, r) => CodeInv(idx, s, flushed, w, d, r, s');
    case Flush(w) => FlushInv(idx, s, flushed, w, s');
    case ShortWrite(w, m) => ShortWriteInv(idx, s, flushed, w, m, s');
  }

  lemma {:induction false} CompleteStep(idx: Index, s: State, flushed: seq<seq<byte>>, w: nat, s': State,
                                        flushed': seq<seq<byte>>)
    requires Complete(idx, s, flushed) && |flushed| == |idx| == |flushed'|
    requires w < |s.workers| && |s'.workers| == |s.workers| && s'.workers == s.workers[w := s'.workers[w]]
    requires s.workers[w] != Exited(false)
    requires s.next <= s'.next <= |idx|
    requires forall i :: s.next <= i < s'.next ==>
               Done(idx[i], flushed'[i]) || (Owns(s'.workers[w]) && s'.workers[w].i == i)
    requires forall i :: 0 <= i < s.next && flushed[i] != flushed'[i] ==> Owns(s.workers[w]) && s.workers[w].i == i
    requires Owns(s.workers[w]) && s.workers[w].i < |idx| ==>
               || (Owns(s'.workers[w]) && s'.workers[w].i == s.workers[w].i)
               || s'.workers[w] == Exited(false)
               || Done(idx[s.workers[w].i], flushed'[s.workers[w].i])
    ensures Complete(idx, s', flushed')
  {
    forall i | 0 <= i < s'.next && !Done(idx[i], flushed'[i]) ensures Pending(s', i) {
      if i >= s.next || (Owns(s.workers[w]) && s.workers[w].i == i) {
        assert s'.workers[w] == Exited(false) || (Owns(s'.workers[w]) && s'.workers[w].i == i);
      } else {
        assert Pending(s, i);
        var v :| 0 <= v < |s.workers| && (s.workers[v] == Exited(false) || (Owns(s.workers[v]) && s.workers[v].i == i));
        assert v != w && s'.workers[v] == s.workers[v];
      }
    }
  }

  lemma {:induction false} ClaimInv(idx: Index, s: State, flushed: seq<seq<byte>>, w: nat, i: nat, s': State)
    requires Inv(idx, s, flushed) && StepClaim(idx, s, w, i, s')
    ensures Inv(idx, s', flushed)
  {
    CompleteStep(idx, s, flushed, w, s', flushed);
    forall v | 0 <= v < |s'.workers| ensures WorkerOk(idx, s'.next, flushed, s'.workers[v]) {
      assert WorkerOk(idx, s.next, flushed, s.workers[v]);
    }
  }

  lemma {:induction false} FinishInv(idx: Index, s: State, flushed: seq<seq<byte>>, w: nat, s': State)
    requires Inv(idx, s, flushed) && StepFinish(idx, s, w, s')
    ensures Inv(idx, s', flushed)
  {
    CompleteStep(idx, s, flushed, w, s', flushed);
    forall v | 0 <= v < |s'.workers| ensures WorkerOk(idx, s'.next, flushed, s'.workers[v]) {
      assert WorkerOk(idx, s.next, flushed, s.workers[v]);
    }
  }

  /** Steps that change only the worker's own buffers. */
  lemma {:induction false} LocalInv(idx: Index, s: State, flushed: seq<seq<byte>>, w: nat, s': State)
    requires Inv(idx, s, flushed)
    requires w < |s.workers| && |s'.workers| == |s.workers| && s'.workers == s.workers[w := s'.workers[w]]
    requires s' == s.(workers := s'.workers)
    requires Owns(s.workers[w]) && s'.workers[w] != Exited(true)
    requires s'.workers[w] == Exited(false) || (Owns(s'.workers[w]) && s'.workers[w].i == s.workers[w].i)
    requires WorkerOk(idx, s.next, flushed, s'.workers[w])
    ensures Inv(idx, s', flushed)
  {
    assert WorkerOk(idx, s.next, flushed, s.workers[w]);
    CompleteStep(idx, s, flushed, w, s', flushed);
  }

  lemma {:induction false} HeaderInv(idx: Index, s: State, flushed: seq<seq<byte>>, w: nat, good: bool, s': State)
    requires Inv(idx, s, flushed) && StepHeader(idx, s, w, good, s')
    ensures Inv(idx, s', flushed)
  {
    assert WorkerOk(idx, s.next, flushed, s.workers[w]);
    LocalInv(idx, s, flushed, w, s');
  }

  lemma {:induction false} CodeInv(idx: Index, s: State, flushed: seq<seq<byte>>, w: nat, d: seq<byte>, r: LzmaRet,
                                   s': State)
    requires Inv(idx, s, flushed) && StepCode(idx, s, w, d, r, s')
    ensures Inv(idx, s', flushed)
  {
    assert WorkerOk(idx, s.next, flushed, s.workers[w]);
    var Decoding(i, opos, strm, outbuf) := s.workers[w];
    assert strm + d == flushed[i] + (outbuf + d);
    LocalInv(idx, s, flushed, w, s');
  }

  lemma {:induction false} FlushInv(idx: Index, s: State, flushed: seq<seq<byte>>, w: nat, s': State)
    requires Inv(idx, s, flushed) && StepFlush(s, w, s')
    ensures Inv(idx, s', Flushed(s, Flush(w), flushed))
  {
    assert WorkerOk(idx, s.next, flushed, s.workers[w]);
    AfterWrite(idx, s, flushed, w, s.workers[w].strm, s');
  }

  lemma {:induction false} ShortWriteInv(idx: Index, s: State, flushed: seq<seq<byte>>, w: nat, m: nat, s': State)
    requires Inv(idx, s, flushed) && StepShortWrite(s, w, m, s')
    ensures Inv(idx, s', Flushed(s, ShortWrite(w, m), flushed))
  {
    var Flushing(i, opos, strm, outbuf, r) := s.workers[w];
    assert WorkerOk(idx, s.next, flushed, s.workers[w]);
    AfterWrite(idx, s, flushed, w, flushed[i] + outbuf[..m], s');
  }

  lemma {:induction false} AfterWrite(idx: Index, s: State, flushed: seq<seq<byte>>, w: nat, fl: seq<byte>, s': State)
    requires Inv(idx, s, flushed) && w < |s.workers| && s.workers[w].Flushing? && s.workers[w].i < |idx|
    requires s'.next == s.next && s'.finished == s.finished
    requires |s'.workers| == |s.workers| && s'.workers == s.workers[w := s'.workers[w]]
    requires WorkerOk(idx, s'.next, flushed[s.workers[w].i := fl], s'.workers[w])
    requires || (s'.workers[w].Decoding? && s'.workers[w].i == s.workers[w].i)
             || s'.workers[w] == Exited(false)
             || (s'.workers[w] == Ready && fl == idx[s.workers[w].i].data)
    ensures Inv(idx, s', flushed[s.workers[w].i := fl])
  {
    assert WorkerOk(idx, s.next, flushed, s.workers[w]);
    var flushed' := flushed[s.workers[w].i := fl];
    WorkersAfterFlush(idx, s, flushed, w, flushed', s');
    CompleteStep(idx, s, flushed, w, s', flushed');
  }

  /** Workers on other blocks do not notice a flush. */
  lemma {:induction false} WorkersAfterFlush(idx: Index, s: State, flushed: seq<seq<byte>>, w: nat,
                                             flushed': seq<seq<byte>>, s': State)
    requires Inv(idx, s, flushed) && w < |s.workers| && Owns(s.workers[w]) && s'.next == s.next
    requires |s'.workers| == |s.workers| && s'.workers == s.workers[w := s'.workers[w]]
    requires s.workers[w].i < |flushed| == |flushed'| && flushed' == flushed[s.workers[w].i := flushed'[s.workers[w].i]]
    requires WorkerOk(idx, s'.next, flushed', s'.workers[w])
    ensures forall v :: 0 <= v < |s'.workers| ==> WorkerOk(idx, s'.next, flushed', s'.workers[v])
  {
    forall v | 0 <= v < |s'.workers| ensures WorkerOk(idx, s'.next, flushed', s'.workers[v]) {
      assert WorkerOk(idx, s.next, flushed, s.workers[v]);
    }
  }

  // ---------- the file, as long as no worker produces more than the indexed size

  /** More was decoded than the index has room for. */
  predicate Overrun(idx: Index, v: Worker) {
    (v.Decoding? || v.Flushing?) && v.i < |idx| && |v.strm| > idx[v.i].size
  }

  predicate Within(idx: Index, s: State, a: Action) { a.w < |s.workers| && !Overrun(idx, s.workers[a.w]) }

  /** Where blocks match the index, a worker that overruns can only fail. */
  predicate Doomed(idx: Index, s: State) {
    exists w :: 0 <= w < |s.workers| && (s.workers[w] == Exited(false) || Overrun(idx, s.workers[w]))
  }

  lemma {:induction false} DoomedForGood(idx: Index, s: State, flushed: seq<seq<byte>>, a: Action, s': State)
    requires Matched(idx) && Inv(idx, s, flushed) && Step(idx, s, a, s') && Doomed(idx, s)
    ensures Doomed(idx, s')
  {
    var w :| 0 <= w < |s.workers| && (s.workers[w] == Exited(false) || Overrun(idx, s.workers[w]));
    if w == a.w {
      OverrunStays(idx, s, flushed, a, s');
    } else {
      assert s'.workers[w] == s.workers[w];
    }
  }

  /** A worker that overran takes no step but another decode, a flush, or giving up. */
  lemma {:induction false} OverrunStays(idx: Index, s: State, flushed: seq<seq<byte>>, a: Action, s': State)
    requires Matched(idx) && Inv(idx, s, flushed) && Step(idx, s, a, s')
    requires s.workers[a.w] == Exited(false) || Overrun(idx, s.workers[a.w])
    ensures s'.workers[a.w] == Exited(false) || Overrun(idx, s'.workers[a.w])
  {
    assert WorkerOk(idx, s.next, flushed, s.workers[a.w]);
  }

  /** Bytes of block i as they are in the file, given what was flushed for it. */
  predicate Region(idx: Index, file: seq<byte>, i: nat, flushed: seq<byte>) {
    && i < |idx| && |flushed| <= idx[i].size
    && Offset(idx, i) + idx[i].size <= |file|
    && file[Offset(idx, i)..Offset(idx, i) + idx[i].size] == flushed + Zeros(idx[i].size - |flushed|)
  }

  /** The first n blocks hold in the file exactly what was flushed for them. */
  predicate FileOk(idx: Index, file: seq<byte>, flushed: seq<seq<byte>>, n: nat) {
    && n <= |idx| == |flushed| && |file| == Offset(idx, |idx|)
    && (n == 0 || (FileOk(idx, file, flushed, n - 1) && Region(idx, file, n - 1, flushed[n - 1])))
  }

  lemma {:induction false} InitFile(idx: Index, file: seq<byte>, n: nat)
    requires n <= |idx| && file == Zeros(Offset(idx, |idx|))
    ensures FileOk(idx, file, Nothing(idx), n)
  {
    if n > 0 {
      InitFile(idx, file, n - 1);
      OffsetMonotone(idx, n - 1, |idx|);
      ZerosSlice(Offset(idx, |idx|), Offset(idx, n - 1), Offset(idx, n - 1) + idx[n - 1].size);
    }
  }

  lemma {:induction false} ZerosSlice(n: nat, lo: nat, hi: nat)
    requires lo <= hi <= n
    ensures Zeros(n)[lo..hi] == [] + Zeros(hi - lo)
  {
  }

  /** Writing d, or skipping it when it is all zero, fills the slice and leaves the rest of the file alone. */
  predicate Filled(file: seq<byte>, lo: nat, hi: nat, fl: seq<byte>, file': seq<byte>) {
    && SameOutside(file, lo, hi, file') && |fl| <= hi - lo
    && file'[lo..hi] == fl + Zeros(hi - lo - |fl|)
  }

  predicate SameOutside(file: seq<byte>, lo: nat, hi: nat, file': seq<byte>) {
    && lo <= hi <= |file| == |file'|
    && (forall a, b :: 0 <= a <= b <= lo ==> file'[a..b] == file[a..b])
    && (forall a, b :: hi <= a <= b <= |file| ==> file'[a..b] == file[a..b])
  }

  lemma {:induction false} WriteFills(file: seq<byte>, lo: nat, hi: nat, fl: seq<byte>, d: seq<byte>)
    requires lo <= hi <= |file| && |fl| + |d| <= hi - lo
    requires file[lo..hi] == fl + Zeros(hi - lo - |fl|)
    ensures Filled(file, lo, hi, fl + d, WriteAt(file, lo + |fl|, d))
  {
    var g := WriteAt(file, lo + |fl|, d);
    if d == [] {
      assert fl + d == fl;
    } else {
      WriteAtBytes(file, lo + |fl|, d);
      var want := fl + d + Zeros(hi - lo - |fl + d|);
      forall k | 0 <= k < hi - lo ensures g[lo + k] == want[k] {
        assert file[lo + k] == file[lo..hi][k] == (fl + Zeros(hi - lo - |fl|))[k];
      }
      assert g[lo..hi] == want;
      assert SameOutside(file, lo, hi, g);
    }
  }

  lemma {:induction false} SkipFills(file: seq<byte>, lo: nat, hi: nat, fl: seq<byte>, d: seq<byte>)
    requires lo <= hi <= |file| && |fl| + |d| <= hi - lo && AllZero(d)
    requires file[lo..hi] == fl + Zeros(hi - lo - |fl|)
    ensures Filled(file, lo, hi, fl + d, file)
  {
    assert fl + Zeros(hi - lo - |fl|) == fl + d + Zeros(hi - lo - |fl + d|);
  }

  lemma {:induction false} FileOkAt(idx: Index, file: seq<byte>, flushed: seq<seq<byte>>, n: nat, i: nat)
    requires FileOk(idx, file, flushed, n) && i < n
    ensures Region(idx, file, i, flushed[i])
  {
    if i < n - 1 {
      FileOkAt(idx, file, flushed, n - 1, i);
    }
  }

  /** Filling block i's slice changes no other block. */
  lemma {:induction false} FileInv(idx: Index, file: seq<byte>, flushed: seq<seq<byte>>, i: nat, fl: seq<byte>,
                                   file': seq<byte>, n: nat)
    requires FileOk(idx, file, flushed, n) && i < |idx|
    requires Filled(file, Offset(idx, i), Offset(idx, i) + idx[i].size, fl, file')
    ensures FileOk(idx, file', flushed[i := fl], n)
  {
    if n > 0 {
      FileInv(idx, file, flushed, i, fl, file', n - 1);
      if n - 1 != i {
        OtherRegion(idx, file, i, n - 1, flushed[n - 1], file');
      }
    }
  }

  lemma {:induction false} OtherRegion(idx: Index, file: seq<byte>, i: nat, j: nat, flj: seq<byte>, file': seq<byte>)
    requires i < |idx| && j != i && Region(idx, file, j, flj)
    requires SameOutside(file, Offset(idx, i), Offset(idx, i) + idx[i].size, file')
    ensures Region(idx, file', j, flj)
  {
    if j < i { OffsetMonotone(idx, j, i); } else { OffsetMonotone(idx, i, j); }
    assert file'[Offset(idx, j)..Offset(idx, j) + idx[j].size] == file[Offset(idx, j)..Offset(idx, j) + idx[j].size];
  }

  lemma {:induction false} WriteFile(idx: Index, file: seq<byte>, flushed: seq<seq<byte>>, i: nat, d: seq<byte>,
                                     skip: bool)
    requires FileOk(idx, file, flushed, |idx|) && i < |idx| && |flushed[i]| + |d| <= idx[i].size
    requires skip ==> AllZero(d)
    ensures var file' := if skip then file else WriteAt(file, Offset(idx, i) + |flushed[i]|, d);
            FileOk(idx, file', flushed[i := flushed[i] + d], |idx|)
  {
    FileOkAt(idx, file, flushed, |idx|, i);
    var lo, hi, fl := Offset(idx, i), Offset(idx, i) + idx[i].size, flushed[i];
    if skip {
      SkipFills(file, lo, hi, fl, d);
      FileInv(idx, file, flushed, i, fl + d, file, |idx|);
    } else {
      WriteFills(file, lo, hi, fl, d);
      FileInv(idx, file, flushed, i, fl + d, WriteAt(file, lo + |fl|, d), |idx|);
    }
  }

  /** A step of a worker that has not overrun keeps what is in the file. */
  lemma {:induction false} StepFile(idx: Index, s: State, flushed: seq<seq<byte>>, a: Action, s': State)
    requires Inv(idx, s, flushed) && Step(idx, s, a, s') && FileOk(idx, s.file, flushed, |idx|)
    requires Within(idx, s, a)
    ensures FileOk(idx, s'.file, Flushed(s, a, flushed), |idx|)
  {
    match a
    case Flush(w) => FlushFile(idx, s, flushed, w, s');
    case ShortWrite(w, m) => ShortWriteFile(idx, s, flushed, w, m, s');
    case _ =>
  }

  lemma {:induction false} FlushFile(idx: Index, s: State, flushed: seq<seq<byte>>, w: nat, s': State)
    requires Inv(idx, s, flushed) && StepFlush(s, w, s') && FileOk(idx, s.file, flushed, |idx|)
    requires !Overrun(idx, s.workers[w])
    ensures FileOk(idx, s'.file, Flushed(s, Flush(w), flushed), |idx|)
  {
    var v := s.workers[w];
    assert WorkerOk(idx, s.next, flushed, v);
    WriteFile(idx, s.file, flushed, v.i, v.outbuf, AllZero(v.outbuf));
  }

  lemma {:induction false} ShortWriteFile(idx: Index, s: State, flushed: seq<seq<byte>>, w: nat, m: nat, s': State)
    requires Inv(idx, s, flushed) && StepShortWrite(s, w, m, s') && FileOk(idx, s.file, flushed, |idx|)
    requires !Overrun(idx, s.workers[w])
    ensures FileOk(idx, s'.file, Flushed(s, ShortWrite(w, m), flushed), |idx|)
  {
    var v := s.workers[w];
    assert WorkerOk(idx, s.next, flushed, v);
    WriteFile(idx, s.file, flushed, v.i, v.outbuf[..m], false);
  }

  // ---------- whole runs

  /** The claims made by a run, in order. */
  function Claims(acts: seq<Action>): seq<Action> {
    if acts == [] then []
    else
      var a := acts[|acts| - 1];
      Claims(acts[..|acts| - 1]) + if a.Claim? then [a] else []
  }

  ghost predicate ClaimsOk(idx: Index, next: nat, claims: seq<Action>) {
    && (forall k :: 0 <= k < |claims| ==>
          && claims[k].Claim? && claims[k].block < next && claims[k].block < |idx|
          && idx[claims[k].block].size != 0)
    && (forall k, l :: 0 <= k < l < |claims| ==>
          claims[k].Claim? && claims[l].Claim? && claims[k].block < claims[l].block)
    && (forall i :: 0 <= i < next && i < |idx| && idx[i].size != 0 ==> exists w :: Claim(w, i) in claims)
  }

  predicate Holds(s: State, claims: seq<Action>) {
    forall w :: 0 <= w < |s.workers| && Owns(s.workers[w]) ==> Claim(w, s.workers[w].i) in claims
  }

  lemma {:induction false} ClaimsStep(idx: Index, s: State, a: Action, s': State, claims: seq<Action>)
    requires Step(idx, s, a, s') && s.next <= |idx|
    requires ClaimsOk(idx, s.next, claims)
    requires s.finished ==> s.next == |idx|
    ensures ClaimsOk(idx, s'.next, claims + if a.Claim? then [a] else [])
  {
    if a.Claim? {
      var claims' := claims + [a];
      forall i | 0 <= i < s'.next && idx[i].size != 0 ensures exists w :: Claim(w, i) in claims' {
        if i < s.next {
          var w :| Claim(w, i) in claims;
          assert Claim(w, i) in claims';
        } else {
          assert claims'[|claims|] == Claim(a.w, i);
        }
      }
    } else {
      assert claims + [] == claims;
    }
  }

  lemma {:induction false} HoldsStep(idx: Index, s: State, a: Action, s': State, claims: seq<Action>)
    requires Step(idx, s, a, s') && Holds(s, claims)
    ensures Holds(s', claims + if a.Claim? then [a] else [])
  {
    var claims' := claims + if a.Claim? then [a] else [];
    assert |s.workers| == |s'.workers| && s'.workers == s.workers[a.w := s'.workers[a.w]];
    forall v | 0 <= v < |s'.workers| && Owns(s'.workers[v]) ensures Claim(v, s'.workers[v].i) in claims' {
      if a.Claim? && v == a.w {
        assert claims'[|claims|] == Claim(v, s'.workers[v].i);
      } else {
        assert Owns(s.workers[v]) && s.workers[v].i == s'.workers[v].i;
      }
    }
  }

  /** What has been flushed for each block in the first k steps of a run. */
  function FlushedBy(idx: Index, states: seq<State>, acts: seq<Action>, k: nat): seq<seq<byte>>
    requires k <= |acts| < |states|
  {
    if k == 0 then Nothing(idx) else Flushed(states[k - 1], acts[k - 1], FlushedBy(idx, states, acts, k - 1))
  }

  lemma {:induction false} RunInv(idx: Index, threads: nat, states: seq<State>, acts: seq<Action>, k: nat)
    requires Run(idx, threads, states, acts) && k <= |acts|
    ensures Inv(idx, states[k], FlushedBy(idx, states, acts, k)) && |states[k].workers| == threads
  {
    if k > 0 {
      RunInv(idx, threads, states, acts, k - 1);
      assert StepAt(idx, states, acts, k - 1);
      StepInv(idx, states[k - 1], FlushedBy(idx, states, acts, k - 1), acts[k - 1], states[k]);
    }
  }

  /** The claims among the first k steps: their own blocks' owners, in order, without gaps. */
  lemma {:induction false} RunClaims(idx: Index, threads: nat, states: seq<State>, acts: seq<Action>, k: nat)
    requires Run(idx, threads, states, acts) && k <= |acts|
    ensures ClaimsOk(idx, states[k].next, Claims(acts[..k])) && Holds(states[k], Claims(acts[..k]))
  {
    if k > 0 {
      RunClaims(idx, threads, states, acts, k - 1);
      RunInv(idx, threads, states, acts, k - 1);
      var s, a, s' := states[k - 1], acts[k - 1], states[k];
      assert StepAt(idx, states, acts, k - 1);
      ClaimsNext(acts, k);
      ClaimsStep(idx, s, a, s', Claims(acts[..k - 1]));
      HoldsStep(idx, s, a, s', Claims(acts[..k - 1]));
    }
  }

  lemma {:induction false} ClaimsNext(acts: seq<Action>, k: nat)
    requires 0 < k <= |acts|
    ensures Claims(acts[..k]) == Claims(acts[..k - 1]) + if acts[k - 1].Claim? then [acts[k - 1]] else []
  {
    assert acts[..k][..k - 1] == acts[..k - 1];
  }

  /** As long as no worker overruns, every block's range holds exactly what was flushed for it, then zeros. */
  lemma {:induction false} RunFile(idx: Index, threads: nat, states: seq<State>, acts: seq<Action>, k: nat)
    requires Run(idx, threads, states, acts) && k <= |acts|
    requires forall j :: 0 <= j < k ==> Within(idx, states[j], acts[j])
    ensures FileOk(idx, states[k].file, FlushedBy(idx, states, acts, k), |idx|)
  {
    if k == 0 {
      InitFile(idx, states[0].file, |idx|);
    } else {
      RunFile(idx, threads, states, acts, k - 1);
      RunInv(idx, threads, states, acts, k - 1);
      assert StepAt(idx, states, acts, k - 1);
      StepFile(idx, states[k - 1], FlushedBy(idx, states, acts, k - 1), acts[k - 1], states[k]);
    }
  }

  lemma {:induction false} DoomedToTheEnd(idx: Index, threads: nat, states: seq<State>, acts: seq<Action>,
                                          k: nat, l: nat)
    requires Matched(idx) && Run(idx, threads, states, acts) && k <= l <= |acts| && Doomed(idx, states[k])
    ensures Doomed(idx, states[l])
    decreases l
  {
    if k < l {
      DoomedToTheEnd(idx, threads, states, acts, k, l - 1);
      RunInv(idx, threads, states, acts, l - 1);
      assert StepAt(idx, states, acts, l - 1);
      DoomedForGood(idx, states[l - 1], FlushedBy(idx, states, acts, l - 1), acts[l - 1], states[l]);
    }
  }

  /** In a run that returns normally on blocks that match the index, no worker ever overruns. */
  lemma {:induction false} NormalRunsStayWithin(idx: Index, threads: nat, states: seq<State>, acts: seq<Action>,
                                                k: nat, w: nat)
    requires Matched(idx) && Run(idx, threads, states, acts) && ReturnsNormally(states[|acts|])
    requires k <= |acts| && w < |states[k].workers|
    ensures !Overrun(idx, states[k].workers[w])
  {
    if Overrun(idx, states[k].workers[w]) {
      DoomedToTheEnd(idx, threads, states, acts, k, |acts|);
    }
  }

  /** At a normal return every block is done. */
  lemma {:induction false} AllDone(idx: Index, threads: nat, states: seq<State>, acts: seq<Action>, i: nat)
    requires threads >= 1 && Run(idx, threads, states, acts) && ReturnsNormally(states[|acts|]) && i < |idx|
    ensures var flushed := FlushedBy(idx, states, acts, |acts|);
            |flushed| == |idx| && Done(idx[i], flushed[i])
  {
    var s := states[|acts|];
    RunInv(idx, threads, states, acts, |acts|);
    assert s.workers[0] == Exited(true);
    assert !Pending(s, i);
  }

  lemma {:induction false} FileIsConcatenation(idx: Index, file: seq<byte>, flushed: seq<seq<byte>>, n: nat)
    requires FileOk(idx, file, flushed, n) && forall i :: 0 <= i < n ==> flushed[i] == idx[i].data
    requires Matched(idx)
    ensures Offset(idx, n) <= |file| && file[..Offset(idx, n)] == Concatenation(idx, n)
  {
    OffsetMonotone(idx, n, |idx|);
    if n > 0 {
      FileIsConcatenation(idx, file, flushed, n - 1);
      var lo, hi := Offset(idx, n - 1), Offset(idx, n);
      assert file[lo..hi] == idx[n - 1].data + [] == idx[n - 1].data;
      assert file[..hi] == file[..lo] + file[lo..hi];
    }
  }

  /**
   * For every number of threads and every interleaving: if every block decodes to its indexed
   * size and `iter_blocks` returns normally, the output is the in-order concatenation of all
   * blocks.
   */
  lemma {:induction false} NormalReturnMeansSequentialOutput(idx: Index, threads: nat, states: seq<State>,
                                                             acts: seq<Action>)
    requires threads >= 1 && Run(idx, threads, states, acts) && ReturnsNormally(states[|acts|])
    requires Matched(idx)
    ensures states[|acts|].file == Concatenation(idx, |idx|) && |states[|acts|].file| == Offset(idx, |idx|)
  {
    var s, flushed := states[|acts|], FlushedBy(idx, states, acts, |acts|);
    forall k | 0 <= k < |acts| ensures Within(idx, states[k], acts[k]) {
      assert StepAt(idx, states, acts, k);
      NormalRunsStayWithin(idx, threads, states, acts, k, acts[k].w);
    }
    RunFile(idx, threads, states, acts, |acts|);
    forall i | 0 <= i < |idx| ensures flushed[i] == idx[i].data {
      AllDone(idx, threads, states, acts, i);
    }
    FileIsConcatenation(idx, s.file, flushed, |idx|);
    TakeAll(s.file);
  }

  /** Whatever the blocks decode to, a normal return means that every non-empty block was claimed. */
  lemma {:induction false} EveryBlockClaimed(idx: Index, threads: nat, states: seq<State>, acts: seq<Action>,
                                             i: nat) returns (w: nat)
    requires threads >= 1 && Run(idx, threads, states, acts) && ReturnsNormally(states[|acts|])
    requires i < |idx| && idx[i].size != 0
    ensures Claim(w, i) in acts
  {
    RunInv(idx, threads, states, acts, |acts|);
    RunClaims(idx, threads, states, acts, |acts|);
    TakeAll(acts);
    assert states[|acts|].workers[0] == Exited(true);
    w :| Claim(w, i) in Claims(acts);
    ClaimsAreActions(acts, Claim(w, i));
  }

  lemma {:induction false} ClaimsAreActions(acts: seq<Action>, c: Action)
    ensures c in Claims(acts) <==> c.Claim? && c in acts
  {
    if acts != [] {
      ClaimsAreActions(acts[..|acts| - 1], c);
      assert acts == acts[..|acts| - 1] + [acts[|acts| - 1]];
    }
  }

  /** In every run, finished or not, no block is claimed twice. */
  lemma {:induction false} ClaimedAtMostOnce(idx: Index, threads: nat, states: seq<State>, acts: seq<Action>,
                                             k: nat, l: nat)
    requires Run(idx, threads, states, acts) && k < l < |acts| && acts[k].Claim? && acts[l].Claim?
    ensures acts[k].block < acts[l].block
  {
    RunClaims(idx, threads, states, acts, l);
    ClaimsAreActions(acts[..l], acts[k]);
    assert acts[..l][k] == acts[k];
    assert StepAt(idx, states, acts, l);
  }

  /** The range that a flush or a short write of worker w touches. */
  function WriteLo(s: State, w: nat): nat
    requires w < |s.workers| && s.workers[w].Flushing?
  {
    s.workers[w].oposition
  }

  function WriteHi(s: State, w: nat): nat
    requires w < |s.workers| && s.workers[w].Flushing?
  {
    s.workers[w].oposition + |s.workers[w].outbuf|
  }

  /**
   * A flush starts inside the range of a block which its own thread claimed before, at step c, and
   * stays in it exactly when no more than the indexed size was decoded.
   */
  lemma {:induction false} FlushStaysInClaim(idx: Index, threads: nat, states: seq<State>, acts: seq<Action>, k: nat,
                                             w: nat)
    returns (i: nat, c: nat)
    requires Run(idx, threads, states, acts) && k <= |acts|
    requires w < |states[k].workers| && states[k].workers[w].Flushing?
    ensures i < |idx| && c < k && acts[c] == Claim(w, i)
    ensures Offset(idx, i) <= WriteLo(states[k], w)
    ensures WriteHi(states[k], w) <= Offset(idx, i + 1) <==> !Overrun(idx, states[k].workers[w])
  {
    RunInv(idx, threads, states, acts, k);
    RunClaims(idx, threads, states, acts, k);
    i := states[k].workers[w].i;
    assert WorkerOk(idx, states[k].next, FlushedBy(idx, states, acts, k), states[k].workers[w]);
    ClaimsAreActions(acts[..k], Claim(w, i));
    c :| 0 <= c < k && acts[..k][c] == Claim(w, i);
  }

  lemma {:induction false} RangesApart(idx: Index, i: nat, j: nat)
    requires i < |idx| && j < |idx| && i != j
    ensures Offset(idx, i + 1) <= Offset(idx, j) || Offset(idx, j + 1) <= Offset(idx, i)
  {
    if i < j { OffsetMonotone(idx, i + 1, j); } else { OffsetMonotone(idx, j + 1, i); }
  }

  /** Writes of different threads that have not overrun never overlap, at whatever times they happen. */
  lemma {:induction false} WritesNeverOverlap(idx: Index, threads: nat, states: seq<State>, acts: seq<Action>,
                                              k: nat, v: nat, l: nat, w: nat)
    requires Run(idx, threads, states, acts) && k <= l <= |acts| && v != w
    requires v < |states[k].workers| && states[k].workers[v].Flushing? && !Overrun(idx, states[k].workers[v])
    requires w < |states[l].workers| && states[l].workers[w].Flushing? && !Overrun(idx, states[l].workers[w])
    ensures WriteHi(states[k], v) <= WriteLo(states[l], w) || WriteHi(states[l], w) <= WriteLo(states[k], v)
  {
    var i, a := FlushStaysInClaim(idx, threads, states, acts, k, v);
    var j, b := FlushStaysInClaim(idx, threads, states, acts, l, w);
    if a < b {
      ClaimedAtMostOnce(idx, threads, states, acts, a, b);
    } else {
      ClaimedAtMostOnce(idx, threads, states, acts, b, a);
    }
    RangesApart(idx, i, j);
  }

  // ---------- runs in which nothing fails

  /** A header that does not decode, an error from liblzma, or a failed write. */
  predicate Failing(a: Action) {
    match a
    case DecodeHeader(_, good) => !good
    case Code(_, _, r) => r == LzmaError
    case ShortWrite(_, _) => true
    case _ => false
  }

  predicate NoneFailed(s: State) {
    forall w :: 0 <= w < |s.workers| ==>
      s.workers[w] != Exited(false) && (s.workers[w].Flushing? ==> s.workers[w].r != LzmaError)
  }

  /** Without such a failure no thread gives up. */
  lemma {:induction false} FailureHasACause(idx: Index, threads: nat, states: seq<State>, acts: seq<Action>, k: nat)
    requires Run(idx, threads, states, acts) && k <= |acts|
    requires forall j :: 0 <= j < k ==> !Failing(acts[j])
    ensures NoneFailed(states[k])
  {
    if k > 0 {
      FailureHasACause(idx, threads, states, acts, k - 1);
      assert StepAt(idx, states, acts, k - 1);
      StepWithoutFailure(idx, states[k - 1], acts[k - 1], states[k]);
    }
  }

  lemma {:induction false} StepWithoutFailure(idx: Index, s: State, a: Action, s': State)
    requires Step(idx, s, a, s') && !Failing(a) && NoneFailed(s)
    ensures NoneFailed(s')
  {
    assert s'.workers == s.workers[a.w := s'.workers[a.w]];
  }

  /** liblzma decodes the block: it produces more of it, or reports its end when all of it is there. */
  predicate Honest(idx: Index, s: State, a: Action) {
    && !Failing(a)
    && (a.Code? && a.w < |s.workers| && s.workers[a.w].Decoding? && s.workers[a.w].i < |idx| ==>
          && s.workers[a.w].strm + a.produced <= idx[s.workers[a.w].i].data
          && (a.ret == LzmaOk ==> a.produced != []))
  }

  /** Where an honest run may stand. */
  predicate OnTrack(idx: Index, v: Worker) {
    match v
    case Ready => true
    case Header(i) => i < |idx|
    case Decoding(i, _, strm, outbuf) => i < |idx| && strm <= idx[i].data && |outbuf| < BUFFER_SIZE
    case Flushing(i, _, strm, _, r) => i < |idx| && strm <= idx[i].data && r != LzmaError
    case Exited(ok) => ok
  }

  predicate AllOnTrack(idx: Index, s: State) {
    s.next <= |idx| && forall w :: 0 <= w < |s.workers| ==> OnTrack(idx, s.workers[w])
  }

  lemma {:induction false} StaysOnTrack(idx: Index, s: State, a: Action, s': State)
    requires AllOnTrack(idx, s) && Step(idx, s, a, s') && Honest(idx, s, a)
    ensures AllOnTrack(idx, s')
  {
    assert OnTrack(idx, s.workers[a.w]);
    assert OnTrack(idx, s'.workers[a.w]);
    forall w | 0 <= w < |s'.workers| ensures OnTrack(idx, s'.workers[w]) {
      if w != a.w {
        assert s'.workers[w] == s.workers[w] && OnTrack(idx, s.workers[w]);
      }
    }
  }

  /** As long as a thread has not exited there is something that it can do. */
  lemma {:induction false} SomeStep(idx: Index, s: State) returns (a: Action, s': State)
    requires AllOnTrack(idx, s) && !ReturnsNormally(s)
    ensures Step(idx, s, a, s') && Honest(idx, s, a)
  {
    var w :| 0 <= w < |s.workers| && s.workers[w] != Exited(true);
    assert OnTrack(idx, s.workers[w]);
    match s.workers[w]
    case Ready =>
      var i := NextNonEmpty(idx, s.next);
      if s.finished || i == |idx| {
        a, s' := Finish(w), State(|idx|, true, s.workers[w := Exited(true)], s.file);
      } else {
        a, s' := Claim(w, i), State(i + 1, false, s.workers[w := Header(i)], s.file);
      }
    case Header(i) =>
      a, s' := DecodeHeader(w, true), s.(workers := s.workers[w := Decoding(i, Offset(idx, i), [], [])]);
    case Decoding(i, opos, strm, outbuf) =>
      a, s' := NextCode(idx, s, w);
    case Flushing(i, opos, strm, outbuf, r) =>
      a := Flush(w);
      s' := s.(file := if AllZero(outbuf) then s.file else WriteAt(s.file, opos, outbuf),
               workers := s.workers[w := if r == LzmaStreamEnd then Ready else Decoding(i, opos + |outbuf|, strm, [])]);
  }

  lemma {:induction false} NextCode(idx: Index, s: State, w: nat) returns (a: Action, s': State)
    requires w < |s.workers| && s.workers[w].Decoding? && OnTrack(idx, s.workers[w])
    ensures Step(idx, s, a, s') && Honest(idx, s, a)
  {
    var Decoding(i, opos, strm, outbuf) := s.workers[w];
    var data := idx[i].data;
    var none: seq<byte> := [];
    if strm == data {
      assert strm + none == data && outbuf + none == outbuf;
      a := Code(w, none, LzmaStreamEnd);
      s' := s.(workers := s.workers[w := Flushing(i, opos, strm + none, outbuf + none, LzmaStreamEnd)]);
    } else {
      var d := data[|strm|..|strm| + 1];
      assert strm + d == data[..|strm| + 1];
      var v := if |outbuf + d| == BUFFER_SIZE then Flushing(i, opos, strm + d, outbuf + d, LzmaOk)
               else Decoding(i, opos, strm + d, outbuf + d);
      a, s' := Code(w, d, LzmaOk), s.(workers := s.workers[w := v]);
    }
  }

  /** Steps that a worker, and the blocks not yet claimed, can still take. */
  function WorkOf(idx: Index, v: Worker): int {
    match v
    case Ready => 1
    case Header(i) => if i < |idx| then 2 * |idx[i].data| + 4 else 0
    case Decoding(i, _, strm, _) => if i < |idx| then 2 * (|idx[i].data| - |strm|) + 3 else 0
    case Flushing(i, _, strm, _, r) =>
      if r == LzmaStreamEnd then 2 else if i < |idx| then 2 * (|idx[i].data| - |strm|) + 4 else 0
    case Exited(_) => 0
  }

  function WorkOfAll(idx: Index, vs: seq<Worker>): int {
    if vs == [] then 0 else WorkOfAll(idx, vs[..|vs| - 1]) + WorkOf(idx, vs[|vs| - 1])
  }

  function Unclaimed(idx: Index, next: nat): (n: nat)
    requires next <= |idx|
    decreases |idx| - next
  {
    if next == |idx| then 0 else 2 * |idx[next].data| + 4 + Unclaimed(idx, next + 1)
  }

  function WorkLeft(idx: Index, s: State): int
    requires s.next <= |idx|
  {
    Unclaimed(idx, s.next) + WorkOfAll(idx, s.workers)
  }

  lemma {:induction false} WorkAfterSet(idx: Index, vs: seq<Worker>, w: nat, v: Worker)
    requires w < |vs|
    ensures WorkOfAll(idx, vs[w := v]) == WorkOfAll(idx, vs) - WorkOf(idx, vs[w]) + WorkOf(idx, v)
  {
    var n := |vs| - 1;
    if w == n {
      assert vs[w := v][..n] == vs[..n];
    } else {
      assert vs[w := v][..n] == vs[..n][w := v];
      WorkAfterSet(idx, vs[..n], w, v);
    }
  }

  lemma {:induction false} WorkIsNotNegative(idx: Index, vs: seq<Worker>)
    requires forall w :: 0 <= w < |vs| ==> OnTrack(idx, vs[w])
    ensures WorkOfAll(idx, vs) >= 0
  {
    if vs != [] {
      assert OnTrack(idx, vs[|vs| - 1]);
      WorkIsNotNegative(idx, vs[..|vs| - 1]);
    }
  }

  lemma {:induction false} UnclaimedFalls(idx: Index, next: nat, i: nat)
    requires next <= i <= |idx|
    ensures Unclaimed(idx, i) <= Unclaimed(idx, next)
    ensures i < |idx| ==> Unclaimed(idx, i + 1) + 2 * |idx[i].data| + 4 <= Unclaimed(idx, next)
    decreases i - next
  {
    if next < i {
      UnclaimedFalls(idx, next + 1, i);
    }
  }

  /** Every honest step uses some of it up. */
  lemma {:induction false} WorkFalls(idx: Index, s: State, a: Action, s': State)
    requires AllOnTrack(idx, s) && Step(idx, s, a, s') && Honest(idx, s, a)
    ensures s'.next <= |idx| && 0 <= WorkLeft(idx, s') < WorkLeft(idx, s)
  {
    StaysOnTrack(idx, s, a, s');
    WorkIsNotNegative(idx, s'.workers);
    WorkAfterSet(idx, s.workers, a.w, s'.workers[a.w]);
    assert s'.workers == s.workers[a.w := s'.workers[a.w]];
    assert OnTrack(idx, s.workers[a.w]);
    if a.Claim? {
      UnclaimedFalls(idx, s.next, a.block);
    } else if a.Finish? {
      UnclaimedFalls(idx, s.next, |idx|);
    }
  }

  ghost predicate HonestRun(idx: Index, threads: nat, states: seq<State>, acts: seq<Action>) {
    Run(idx, threads, states, acts) && forall k :: 0 <= k < |acts| ==> Honest(idx, states[k], acts[k])
  }

  lemma {:induction false} HonestRunOnTrack(idx: Index, threads: nat, states: seq<State>, acts: seq<Action>, k: nat)
    requires HonestRun(idx, threads, states, acts) && k <= |acts|
    ensures AllOnTrack(idx, states[k]) && k + WorkLeft(idx, states[k]) <= WorkLeft(idx, states[0])
  {
    if k > 0 {
      HonestRunOnTrack(idx, threads, states, acts, k - 1);
      assert StepAt(idx, states, acts, k - 1);
      StaysOnTrack(idx, states[k - 1], acts[k - 1], states[k]);
      WorkFalls(idx, states[k - 1], acts[k - 1], states[k]);
    }
  }

  /**
   * An honest run can always go on until every thread has exited with status 0, whatever the
   * order in which threads take their steps so far; and it cannot go on for ever, because the
   * number of its steps is bounded from the start.
   */
  lemma {:induction false} HonestRunsReturnNormally(idx: Index, threads: nat, states: seq<State>, acts: seq<Action>)
    returns (states': seq<State>, acts': seq<Action>)
    requires HonestRun(idx, threads, states, acts)
    ensures HonestRun(idx, threads, states', acts') && ReturnsNormally(states'[|acts'|])
    ensures acts <= acts' && |acts'| <= WorkLeft(idx, states[0])
    decreases WorkLeft(idx, states[0]) - |acts|
  {
    var s := states[|acts|];
    HonestRunOnTrack(idx, threads, states, acts, |acts|);
    WorkIsNotNegative(idx, s.workers);
    if ReturnsNormally(s) {
      return states, acts;
    }
    var a, s' := SomeStep(idx, s);
    WorkFalls(idx, s, a, s');
    OneStepMore(idx, threads, states, acts, a, s');
    states', acts' := HonestRunsReturnNormally(idx, threads, states + [s'], acts + [a]);
  }

  lemma {:induction false} OneStepMore(idx: Index, threads: nat, states: seq<State>, acts: seq<Action>,
                                       a: Action, s': State)
    requires HonestRun(idx, threads, states, acts)
    requires Step(idx, states[|acts|], a, s') && Honest(idx, states[|acts|], a)
    ensures HonestRun(idx, threads, states + [s'], acts + [a])
  {
    var states', acts' := states + [s'], acts + [a];
    forall k | 0 <= k < |acts'| ensures StepAt(idx, states', acts', k) && Honest(idx, states'[k], acts'[k]) {
      if k < |acts| {
        assert StepAt(idx, states, acts, k);
      }
    }
  }

  /** For every index and number of threads there is a run that returns normally. */
  lemma {:induction false} SomeRunReturnsNormally(idx: Index, threads: nat)
    returns (states: seq<State>, acts: seq<Action>)
    ensures HonestRun(idx, threads, states, acts) && ReturnsNormally(states[|acts|])
  {
    var s := State(0, false, seq(threads, _ => Ready), Zeros(Offset(idx, |idx|)));
    assert Init(idx, threads, s);
    states, acts := HonestRunsReturnNormally(idx, threads, [s], []);
  }

  // ---------- blocks that do not match the index

  /** Position p lies behind the offset of a block, no further than what was flushed for it reaches. */
  predicate CoveredBy(idx: Index, flushed: seq<seq<byte>>, p: nat, i: nat) {
    i < |idx| && i < |flushed| && Offset(idx, i) <= p < Offset(idx, i) + |flushed[i]|
  }

  /** Every byte of the file that is not zero was flushed for some block. */
  ghost predicate NonzeroCovered(idx: Index, file: seq<byte>, flushed: seq<seq<byte>>) {
    forall p :: 0 <= p < |file| && file[p] != 0 ==> Covered(idx, flushed, p)
  }

  ghost predicate Covered(idx: Index, flushed: seq<seq<byte>>, p: nat) {
    exists i: nat :: CoveredBy(idx, flushed, p, i)
  }

  lemma {:induction false} FlushCovers(idx: Index, file: seq<byte>, flushed: seq<seq<byte>>, i: nat, d: seq<byte>,
                                       file': seq<byte>)
    requires NonzeroCovered(idx, file, flushed) && i < |idx| == |flushed|
    requires file' == file || file' == WriteAt(file, Offset(idx, i) + |flushed[i]|, d)
    ensures NonzeroCovered(idx, file', flushed[i := flushed[i] + d])
  {
    var flushed', off := flushed[i := flushed[i] + d], Offset(idx, i) + |flushed[i]|;
    WriteAtBytes(file, off, d);
    forall p | 0 <= p < |file'| && file'[p] != 0 ensures Covered(idx, flushed', p) {
      if off <= p < off + |d| {
        assert CoveredBy(idx, flushed', p, i);
      } else {
        assert p < |file| && file[p] != 0 && Covered(idx, flushed, p);
        var j: nat :| CoveredBy(idx, flushed, p, j);
        assert CoveredBy(idx, flushed', p, j);
      }
    }
  }

  lemma {:induction false} StepCovers(idx: Index, s: State, flushed: seq<seq<byte>>, a: Action, s': State)
    requires Inv(idx, s, flushed) && Step(idx, s, a, s') && NonzeroCovered(idx, s.file, flushed)
    ensures NonzeroCovered(idx, s'.file, Flushed(s, a, flushed))
  {
    if a.Flush? || a.ShortWrite? {
      var v := s.workers[a.w];
      assert WorkerOk(idx, s.next, flushed, v);
      FlushCovers(idx, s.file, flushed, v.i, if a.Flush? then v.outbuf else v.outbuf[..a.m], s'.file);
    }
  }

  lemma {:induction false} RunCovers(idx: Index, threads: nat, states: seq<State>, acts: seq<Action>, k: nat)
    requires Run(idx, threads, states, acts) && k <= |acts|
    ensures NonzeroCovered(idx, states[k].file, FlushedBy(idx, states, acts, k))
  {
    if k > 0 {
      RunCovers(idx, threads, states, acts, k - 1);
      RunInv(idx, threads, states, acts, k - 1);
      assert StepAt(idx, states, acts, k - 1);
      StepCovers(idx, states[k - 1], FlushedBy(idx, states, acts, k - 1), acts[k - 1], states[k]);
    }
  }

  /** How much of block i is ever written. */
  function Length(idx: Index, i: nat): nat
    requires i < |idx|
  {
    if idx[i].size == 0 then 0 else |idx[i].data|
  }

  /** How far the first i blocks reach when each is written at its own offset. */
  function Reach(idx: Index, i: nat): nat
    requires i <= |idx|
  {
    if i == 0 then 0
    else
      var r, e := Reach(idx, i - 1), Offset(idx, i - 1) + Length(idx, i - 1);
      if r >= e then r else e
  }

  lemma {:induction false} ReachIsEnough(idx: Index, i: nat, j: nat)
    requires j < i <= |idx|
    ensures Offset(idx, j) + Length(idx, j) <= Reach(idx, i)
  {
    if j < i - 1 {
      ReachIsEnough(idx, i - 1, j);
    }
  }

  /** Every position up to the indexed total lies in what is written for some block. */
  ghost predicate NoGap(idx: Index) {
    forall p: nat :: p < Offset(idx, |idx|) ==> InSomeBlock(idx, p)
  }

  ghost predicate InSomeBlock(idx: Index, p: nat) { exists i: nat :: InBlock(idx, p, i) }

  predicate InBlock(idx: Index, p: nat, i: nat) {
    i < |idx| && Offset(idx, i) <= p < Offset(idx, i) + Length(idx, i)
  }

  lemma {:induction false} ReachesNext(idx: Index, i: nat)
    requires NoGap(idx) && i <= |idx|
    ensures Offset(idx, i) <= Reach(idx, i)
  {
    var p := Reach(idx, i);
    OffsetMonotone(idx, i, |idx|);
    if p < Offset(idx, i) {
      assert InSomeBlock(idx, p);
      var j: nat :| InBlock(idx, p, j);
      if j < i {
        ReachIsEnough(idx, i, j);
      } else {
        OffsetMonotone(idx, i, j);
      }
    }
  }

  lemma {:induction false} ReachIsBounded(idx: Index, i: nat)
    requires NoGap(idx) && i <= |idx|
    ensures Reach(idx, i) <= |Concatenation(idx, i)|
  {
    if i > 0 {
      ReachIsBounded(idx, i - 1);
      ReachesNext(idx, i - 1);
    }
  }

  /** Covering exactly as many positions as there are bytes leaves no room for an overlap. */
  lemma {:induction false} NoOverlap(idx: Index, i: nat)
    requires NoGap(idx) && i <= |idx| && |Concatenation(idx, |idx|)| == Offset(idx, |idx|)
    ensures Reach(idx, i) == |Concatenation(idx, i)|
    ensures i < |idx| ==> Length(idx, i) == |idx[i].data|
    decreases |idx| - i
  {
    ReachIsBounded(idx, i);
    ReachesNext(idx, i);
    if i < |idx| {
      NoOverlap(idx, i + 1);
    }
  }

  lemma {:induction false} OffsetsAgree(idx: Index, i: nat)
    requires NoGap(idx) && i <= |idx| && |Concatenation(idx, |idx|)| == Offset(idx, |idx|)
    requires forall j :: 0 <= j < |idx| && idx[j].size != 0 ==> idx[j].data != []
    ensures Offset(idx, i) == |Concatenation(idx, i)|
    decreases |idx| - i
  {
    if i < |idx| {
      OffsetsAgree(idx, i + 1);
      NoOverlap(idx, i);
      NoOverlap(idx, i + 1);
    }
  }

  predicate NoZero(s: seq<byte>) { forall k :: 0 <= k < |s| ==> s[k] != 0 }

  /** No block that is claimed decodes to nothing, and none holds a zero byte. */
  predicate Plain(idx: Index) {
    forall i :: 0 <= i < |idx| ==> NoZero(idx[i].data) && (idx[i].size != 0 ==> idx[i].data != [])
  }

  lemma {:induction false} PlainConcatenation(idx: Index, n: nat)
    requires Plain(idx) && n <= |idx|
    ensures NoZero(Concatenation(idx, n))
  {
    if n > 0 {
      PlainConcatenation(idx, n - 1);
    }
  }

  lemma {:induction false} RightOutputHasNoGap(idx: Index, threads: nat, states: seq<State>, acts: seq<Action>)
    requires threads >= 1 && Run(idx, threads, states, acts) && ReturnsNormally(states[|acts|]) && Plain(idx)
    requires states[|acts|].file == Concatenation(idx, |idx|) && |states[|acts|].file| == Offset(idx, |idx|)
    ensures NoGap(idx)
  {
    var file, flushed := states[|acts|].file, FlushedBy(idx, states, acts, |acts|);
    RunCovers(idx, threads, states, acts, |acts|);
    PlainConcatenation(idx, |idx|);
    forall p: nat | p < Offset(idx, |idx|) ensures InSomeBlock(idx, p) {
      assert file[p] != 0 && Covered(idx, flushed, p);
      var i: nat :| CoveredBy(idx, flushed, p, i);
      AllDone(idx, threads, states, acts, i);
      assert InBlock(idx, p, i);
    }
  }

  predicate NoneTooLong(idx: Index) {
    forall i :: 0 <= i < |idx| ==> |idx[i].data| <= idx[i].size
  }

  lemma {:induction false} FullLength(idx: Index, n: nat)
    requires NoneTooLong(idx) && n <= |idx|
    ensures |Concatenation(idx, n)| <= Offset(idx, n)
    ensures |Concatenation(idx, n)| == Offset(idx, n) ==>
              forall i :: 0 <= i < n ==> |idx[i].data| == idx[i].size
  {
    if n > 0 {
      FullLength(idx, n - 1);
    }
  }

  /**
   * The exact condition.  Whatever the number of threads and the interleaving, a normal return
   * leaves the concatenation of the blocks, at the indexed total size, if and only if every block
   * decodes to its indexed size: on any data if no block decodes to more, and in general on blocks
   * without zero bytes.  (Zeros can make up for a block that is too long.)
   */
  lemma {:induction false} RightOutputIffMatched(idx: Index, threads: nat, states: seq<State>, acts: seq<Action>)
    requires threads >= 1 && Run(idx, threads, states, acts) && ReturnsNormally(states[|acts|])
    requires Plain(idx) || NoneTooLong(idx)
    ensures var file := states[|acts|].file;
            file == Concatenation(idx, |idx|) && |file| == Offset(idx, |idx|) <==> Matched(idx)
  {
    var file := states[|acts|].file;
    if Matched(idx) {
      NormalReturnMeansSequentialOutput(idx, threads, states, acts);
    }
    if file == Concatenation(idx, |idx|) && |file| == Offset(idx, |idx|) {
      if NoneTooLong(idx) {
        FullLength(idx, |idx|);
        return;
      }
      RightOutputHasNoGap(idx, threads, states, acts);
      forall i | 0 <= i < |idx| ensures |idx[i].data| == idx[i].size {
        OffsetsAgree(idx, i);
        OffsetsAgree(idx, i + 1);
      }
    }
  }

  /** A block that decodes to one byte where the index says two: no error, and a wrong output. */
  lemma {:induction false} MismatchExample() returns (idx: Index, states: seq<State>, acts: seq<Action>)
    ensures Run(idx, 1, states, acts) && ReturnsNormally(states[|acts|]) && Plain(idx)
    ensures states[|acts|].file == [7, 0] && Concatenation(idx, |idx|) == [7]
  {
    idx := [Block(2, [7])];
    var f, g: seq<byte> := [0, 0], [7, 0];
    var s0, s1, s2 := State(0, false, [Ready], f), State(1, false, [Header(0)], f),
                      State(1, false, [Decoding(0, 0, [], [])], f);
    var s3 := State(1, false, [Flushing(0, 0, [7], [7], LzmaStreamEnd)], f);
    var s4, s5 := State(1, false, [Ready], g), State(1, true, [Exited(true)], g);
    ExampleBegins(idx, f, s0, s1, s2, s3);
    ExampleEnds(idx, f, g, s3, s4, s5);
    states, acts := [s0], [];
    OneStepMore(idx, 1, states, acts, Claim(0, 0), s1);
    states, acts := states + [s1], acts + [Claim(0, 0)];
    OneStepMore(idx, 1, states, acts, DecodeHeader(0, true), s2);
    states, acts := states + [s2], acts + [DecodeHeader(0, true)];
    OneStepMore(idx, 1, states, acts, Code(0, [7], LzmaStreamEnd), s3);
    states, acts := states + [s3], acts + [Code(0, [7], LzmaStreamEnd)];
    OneStepMore(idx, 1, states, acts, Flush(0), s4);
    states, acts := states + [s4], acts + [Flush(0)];
    OneStepMore(idx, 1, states, acts, Finish(0), s5);
    states, acts := states + [s5], acts + [Finish(0)];
    assert Concatenation(idx, 0) == [] && [] + idx[0].data == [7];
  }

  lemma {:induction false} ExampleBegins(idx: Index, f: seq<byte>, s0: State, s1: State, s2: State, s3: State)
    requires idx == [Block(2, [7])] && f == [0, 0]
    requires s0 == State(0, false, [Ready], f) && s1 == State(1, false, [Header(0)], f)
    requires s2 == State(1, false, [Decoding(0, 0, [], [])], f)
    requires s3 == State(1, false, [Flushing(0, 0, [7], [7], LzmaStreamEnd)], f)
    ensures Init(idx, 1, s0) && Step(idx, s0, Claim(0, 0), s1) && Step(idx, s1, DecodeHeader(0, true), s2)
    ensures Step(idx, s2, Code(0, [7], LzmaStreamEnd), s3)
  {
    assert Offset(idx, 0) == 0 && Offset(idx, 1) == 2 && Zeros(2) == f;
    var none: seq<byte> := [];
    assert none + [7] == [7];
  }

  lemma {:induction false} ExampleEnds(idx: Index, f: seq<byte>, g: seq<byte>, s3: State, s4: State, s5: State)
    requires idx == [Block(2, [7])] && f == [0, 0] && g == [7, 0]
    requires s3 == State(1, false, [Flushing(0, 0, [7], [7], LzmaStreamEnd)], f)
    requires s4 == State(1, false, [Ready], g) && s5 == State(1, true, [Exited(true)], g)
    ensures Step(idx, s3, Flush(0), s4) && Step(idx, s4, Finish(0), s5)
  {
    var d: seq<byte> := [7];
    assert d[0] != 0 && d[1..] == [];
    assert f[0 := 7] == g && WriteAt(g, 1, []) == g;
  }
}
