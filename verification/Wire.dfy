/**
 * The wire format between library and daemon: big-endian XDR words (RFC 4506
 * sections 4.1, 4.2 and 4.5), length-framed messages, file chunks as
 * variable-length opaque data (section 4.10), and the out-of-band words that
 * stand where a length word would be.
 */
module Wire {
  import opened Wrappers
  import opened Bytes
  import opened Seqs

  type u32 = x: int | 0 <= x < 0x1_0000_0000
  type u64 = x: int | 0 <= x < 0x1_0000_0000_0000_0000

  const MESSAGE_MAX: u32 := 4 * 1024 * 1024
  const MAX_CHUNK_SIZE: u32 := 8192
  const LAUNCH_FLAG: u32 := 0xf5f5_5ff5
  const CANCEL_FLAG: u32 := 0xffff_eeee
  const PROGRESS_FLAG: u32 := 0xffff_5555
  const PROGRESS_MESSAGE_SIZE: nat := 24

  function PutU32(n: u32): (s: seq<byte>)
    ensures |s| == 4
  {
    [n / 0x100_0000, n / 0x1_0000 % 0x100, n / 0x100 % 0x100, n % 0x100]
  }

  function GetU32(s: seq<byte>): u32
    requires |s| >= 4
  {
    (s[0] as int) * 0x100_0000 + (s[1] as int) * 0x1_0000 + (s[2] as int) * 0x100 + (s[3] as int)
  }

  /** Decoding a word looks at its own four bytes only, and inverts encoding. */
  lemma {:induction false} U32RoundTrip(n: u32, rest: seq<byte>)
    ensures GetU32(PutU32(n) + rest) == n
  {
    var s := PutU32(n) + rest;
    assert s[0] == n / 0x100_0000 && s[1] == n / 0x1_0000 % 0x100 && s[2] == n / 0x100 % 0x100 && s[3] == n % 0x100;
    Digits(n);
  }

  lemma {:induction false} Digits(n: int)
    ensures n / 0x100_0000 * 0x100_0000 + n / 0x1_0000 % 0x100 * 0x1_0000 + n / 0x100 % 0x100 * 0x100 + n % 0x100 == n
  {
    assert n / 0x100_0000 == n / 0x1_0000 / 0x100;
    assert n / 0x1_0000 == n / 0x100 / 0x100;
  }

  function PutU64(n: u64): (s: seq<byte>)
    ensures |s| == 8
  {
    PutU32(n / 0x1_0000_0000) + PutU32(n % 0x1_0000_0000)
  }

  function GetU64(s: seq<byte>): u64
    requires |s| >= 8
  {
    GetU32(s) * 0x1_0000_0000 + GetU32(s[4..])
  }

  lemma {:induction false} U64RoundTrip(n: u64, rest: seq<byte>)
    ensures GetU64(PutU64(n) + rest) == n
  {
    var hi, lo := n / 0x1_0000_0000, n % 0x1_0000_0000;
    var s := PutU64(n) + rest;
    assert s == PutU32(hi) + (PutU32(lo) + rest);
    U32RoundTrip(hi, PutU32(lo) + rest);
    assert s[4..] == PutU32(lo) + rest;
    U32RoundTrip(lo, rest);
  }

  // ---------- file chunks

  datatype Chunk = Chunk(cancel: u32, data: seq<byte>)

  function Padding(n: nat): nat { (4 - n % 4) % 4 }

  function PutChunk(c: Chunk): seq<byte>
    requires |c.data| <= MAX_CHUNK_SIZE
  {
    PutU32(c.cancel) + PutU32(|c.data|) + c.data + Zeros(Padding(|c.data|))
  }

  /** xdr_guestfs_chunk when decoding: refuses an oversized or truncated opaque. */
  function GetChunk(s: seq<byte>): Option<Chunk> {
    if |s| < 8 then None
    else
      var n := GetU32(s[4..]);
      if n > MAX_CHUNK_SIZE || |s| < 8 + n + Padding(n) then None
      else Some(Chunk(GetU32(s), s[8..8 + n]))
  }

  /**
   * `send_chunk`: the encoding fits its MAX_CHUNK_SIZE + 48 byte buffer with the
   * padding included, is a legal message length, and decodes to the same chunk.
   */
  lemma {:induction false} ChunkRoundTrip(c: Chunk)
    requires |c.data| <= MAX_CHUNK_SIZE
    ensures |PutChunk(c)| <= MAX_CHUNK_SIZE + 48 <= MESSAGE_MAX && |PutChunk(c)| % 4 == 0
    ensures GetChunk(PutChunk(c)) == Some(c)
  {
    var s := PutChunk(c);
    var tail := c.data + Zeros(Padding(|c.data|));
    assert s == PutU32(c.cancel) + (PutU32(|c.data|) + tail);
    U32RoundTrip(c.cancel, PutU32(|c.data|) + tail);
    assert s[4..] == PutU32(|c.data|) + tail;
    U32RoundTrip(|c.data|, tail);
    assert s[8..8 + |c.data|] == c.data;
  }

  // ---------- progress messages

  datatype Progress = Progress(proc: u32, serial: u32, position: u64, total: u64)

  function PutProgress(p: Progress): (s: seq<byte>)
    ensures |s| == PROGRESS_MESSAGE_SIZE
  {
    PutU32(p.proc) + PutU32(p.serial) + PutU64(p.position) + PutU64(p.total)
  }

  function GetProgress(s: seq<byte>): Progress
    requires |s| == PROGRESS_MESSAGE_SIZE
  {
    Progress(GetU32(s), GetU32(s[4..]), GetU64(s[8..]), GetU64(s[16..]))
  }

  lemma {:induction false} ProgressRoundTrip(p: Progress)
    ensures GetProgress(PutProgress(p)) == p
  {
    var s := PutProgress(p);
    assert s == PutU32(p.proc) + s[4..];
    U32RoundTrip(p.proc, s[4..]);
    assert s[4..] == PutU32(p.serial) + s[8..];
    U32RoundTrip(p.serial, s[8..]);
    assert s[8..] == PutU64(p.position) + s[16..];
    U64RoundTrip(p.position, s[16..]);
    assert s[16..] == PutU64(p.total) + [];
    U64RoundTrip(p.total, []);
  }

  // ---------- what the daemon writes to the socket

  /** A reply (header and body) or a chunk is a Message; the rest are out of band. */
  datatype Out =
    | LaunchWord
    | CancelWord
    | ProgressMsg(p: Progress)
    | Message(payload: seq<byte>)

  /** A length word and the bytes it counts. */
  function PutFrame(m: seq<byte>): (s: seq<byte>)
    requires |m| <= MESSAGE_MAX
    ensures |s| == 4 + |m|
  {
    PutU32(|m|) + m
  }

  predicate Legal(o: Out) { o.Message? ==> |o.payload| <= MESSAGE_MAX }

  function Put(o: Out): (s: seq<byte>)
    requires Legal(o)
    ensures |s| >= 4
  {
    match o
    case LaunchWord => PutU32(LAUNCH_FLAG)
    case CancelWord => PutU32(CANCEL_FLAG)
    case ProgressMsg(p) => PutU32(PROGRESS_FLAG) + PutProgress(p)
    case Message(m) => PutFrame(m)
  }

  function PutAll(os: seq<Out>): seq<byte>
    requires forall o :: o in os ==> Legal(o)
  {
    if os == [] then [] else Put(os[0]) + PutAll(os[1..])
  }

  /** recv_from_daemon: read one item off the front of the stream. */
  function Get(s: seq<byte>): (r: Option<(Out, seq<byte>)>)
    ensures r.Some? ==> |r.value.1| < |s|
  {
    if |s| < 4 then None
    else
      var len, s := GetU32(s), s[4..];
      if len == LAUNCH_FLAG then Some((LaunchWord, s))
      else if len == CANCEL_FLAG then Some((CancelWord, s))
      else if len == PROGRESS_FLAG then
        if |s| < PROGRESS_MESSAGE_SIZE then None
        else Some((ProgressMsg(GetProgress(s[..PROGRESS_MESSAGE_SIZE])), s[PROGRESS_MESSAGE_SIZE..]))
      else if len > MESSAGE_MAX || |s| < len then None
      else Some((Message(s[..len]), s[len..]))
  }

  function GetAll(s: seq<byte>): Option<seq<Out>>
    decreases |s|
  {
    if s == [] then Some([])
    else
      match Get(s)
      case None => None
      case Some((o, rest)) =>
        match GetAll(rest)
        case None => None
        case Some(os) => Some([o] + os)
  }

  lemma {:induction false} GetWord(flag: u32, rest: seq<byte>)
    requires flag in {LAUNCH_FLAG, CANCEL_FLAG}
    ensures Get(PutU32(flag) + rest) == Some((if flag == LAUNCH_FLAG then LaunchWord else CancelWord, rest))
  {
    U32RoundTrip(flag, rest);
    Drop(PutU32(flag), rest);
  }

  lemma {:induction false} GetProgressMsg(p: Progress, rest: seq<byte>)
    ensures Get(PutU32(PROGRESS_FLAG) + (PutProgress(p) + rest)) == Some((ProgressMsg(p), rest))
  {
    var m := PutProgress(p);
    U32RoundTrip(PROGRESS_FLAG, m + rest);
    Drop(PutU32(PROGRESS_FLAG), m + rest);
    Drop(m, rest);
    Take(m, rest);
    ProgressRoundTrip(p);
  }

  lemma {:induction false} GetMessage(m: seq<byte>, rest: seq<byte>)
    requires |m| <= MESSAGE_MAX
    ensures Get(PutU32(|m|) + (m + rest)) == Some((Message(m), rest))
  {
    U32RoundTrip(|m|, m + rest);
    Drop(PutU32(|m|), m + rest);
    Drop(m, rest);
    Take(m, rest);
  }

  lemma {:induction false} GetPut(o: Out, rest: seq<byte>)
    requires Legal(o)
    ensures Get(Put(o) + rest) == Some((o, rest))
  {
    match o
    case LaunchWord => GetWord(LAUNCH_FLAG, rest);
    case CancelWord => GetWord(CANCEL_FLAG, rest);
    case ProgressMsg(p) =>
      Concat(PutU32(PROGRESS_FLAG), PutProgress(p), rest);
      GetProgressMsg(p, rest);
    case Message(m) =>
      Concat(PutU32(|m|), m, rest);
      GetMessage(m, rest);
  }

  /** Any interleaving of replies, chunks, progress and flag words decodes to exactly itself. */
  lemma {:induction false} StreamRoundTrip(os: seq<Out>)
    requires forall o :: o in os ==> Legal(o)
    ensures GetAll(PutAll(os)) == Some(os)
  {
    if os != [] {
      StreamRoundTrip(os[1..]);
      GetPut(os[0], PutAll(os[1..]));
      assert os == [os[0]] + os[1..];
    }
  }

  /** The chunks in a stream, as `receive_file_data` sees them once progress has been handled. */
  function ChunksOf(os: seq<Out>): Option<seq<Chunk>> {
    if os == [] then Some([])
    else
      match ChunksOf(os[..|os| - 1])
      case None => None
      case Some(cs) =>
        match os[|os| - 1]
        case ProgressMsg(_) => Some(cs)
        case Message(m) => if GetChunk(m).Some? then Some(cs + [GetChunk(m).value]) else None
        case _ => None
  }

  // ---------- the hand-built pulse message

  /** C's `n & mask` for the one-byte mask at bit position `unit == 2^k`. */
  function MaskByte(n: u32, unit: nat): nat
    requires unit > 0
  {
    n / unit % 0x100 * unit
  }

  function PulseWord(n: u32): seq<byte> {
    ShiftBack(n, 0x100_0000);
    ShiftBack(n, 0x1_0000);
    ShiftBack(n, 0x100);
    ShiftBack(n, 1);
    [MaskByte(n, 0x100_0000) / 0x100_0000, MaskByte(n, 0x1_0000) / 0x1_0000, MaskByte(n, 0x100) / 0x100, MaskByte(n, 1)]
  }

  lemma {:induction false} ShiftBack(n: u32, unit: nat)
    requires unit in {1, 0x100, 0x1_0000, 0x100_0000}
    ensures MaskByte(n, unit) / unit == n / unit % 0x100
  {
    var q := n / unit % 0x100;
    if unit == 1 { assert q * 1 / 1 == q; }
    else if unit == 0x100 { assert q * 0x100 / 0x100 == q; }
    else if unit == 0x1_0000 { assert q * 0x1_0000 / 0x1_0000 == q; }
    else { assert q * 0x100_0000 / 0x100_0000 == q; }
  }

  /** async_safe_send_pulse builds its 28 bytes without calling any XDR function. */
  function Pulse(proc: u32, serial: u32): seq<byte> {
    PulseWord(PROGRESS_FLAG) + PulseWord(proc) + PulseWord(serial)
    + [0, 0, 0, 0, 0, 0, 0, 0] + [0, 0, 0, 0, 0, 0, 0, 1]
  }

  lemma {:induction false} PulseWordIsXdr(n: u32)
    ensures PulseWord(n) == PutU32(n)
  {
    ShiftBack(n, 0x100_0000);
    ShiftBack(n, 0x1_0000);
    ShiftBack(n, 0x100);
    ShiftBack(n, 1);
  }

  /** The signal handler's bytes are exactly a progress message with position 0 and total 1. */
  lemma {:induction false} PulseIsProgress(proc: u32, serial: u32)
    ensures Pulse(proc, serial) == Put(ProgressMsg(Progress(proc, serial, 0, 1)))
  {
    PulseWordIsXdr(PROGRESS_FLAG);
    PulseWordIsXdr(proc);
    PulseWordIsXdr(serial);
    assert PutU64(0) == [0, 0, 0, 0, 0, 0, 0, 0];
    assert PutU64(1) == [0, 0, 0, 0, 0, 0, 0, 1];
  }
}
