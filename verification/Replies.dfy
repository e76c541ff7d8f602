/** Message headers, the daemon's replies, and the answers that the library finds among all that is sent. */
module Replies {
  import opened Wrappers
  import opened Bytes
  import opened Seqs
  import opened Wire
  import opened Daemon

  const PROGRAM: u32 := 0x2000_F5F5
  const PROTOCOL_VERSION: u32 := 4
  const PROC_UPLOAD: u32 := 66
  const PROC_DOWNLOAD: u32 := 67
  const ERROR_LEN: nat := 64 * 1024
  const HEADER_SIZE: nat := 40

  datatype Header = Header(prog: u32, vers: u32, proc: u32, direction: u32, serial: u32,
                           progressHint: u64, optargs: u64, status: u32)

  /** XDR words one after another. */
  function PutWords(ws: seq<u32>): (s: seq<byte>)
    ensures |s| == 4 * |ws|
  {
    if ws == [] then [] else PutU32(ws[0]) + PutWords(ws[1..])
  }

  function GetWords(s: seq<byte>, n: nat): (ws: seq<u32>)
    requires |s| >= 4 * n
    ensures |ws| == n
  {
    if n == 0 then [] else [GetU32(s)] + GetWords(s[4..], n - 1)
  }

  lemma {:induction false} WordsRoundTrip(ws: seq<u32>, rest: seq<byte>)
    ensures GetWords(PutWords(ws) + rest, |ws|) == ws
  {
    if ws != [] {
      var w, tail := ws[0], PutWords(ws[1..]);
      Concat(PutU32(w), tail, rest);
      U32RoundTrip(w, tail + rest);
      Drop(PutU32(w), tail + rest);
      WordsRoundTrip(ws[1..], rest);
      assert ws == [w] + ws[1..];
    }
  }

  /** The header's fields; the two hypers are two words each, the upper half first. */
  function HeaderWords(h: Header): (ws: seq<u32>)
    ensures |ws| == 10
  {
    [h.prog, h.vers, h.proc, h.direction, h.serial,
     h.progressHint / 0x1_0000_0000, h.progressHint % 0x1_0000_0000,
     h.optargs / 0x1_0000_0000, h.optargs % 0x1_0000_0000, h.status]
  }

  /** A message: the header followed by its arguments or return value. */
  function PutMessage(h: Header, body: seq<byte>): (s: seq<byte>)
    ensures |s| == HEADER_SIZE + |body|
  {
    PutWords(HeaderWords(h)) + body
  }

  function GetHeader(s: seq<byte>): Header
    requires |s| >= HEADER_SIZE
  {
    var w := GetWords(s, 10);
    Header(w[0], w[1], w[2], w[3], w[4], (w[5] as int) * 0x1_0000_0000 + w[6],
           (w[7] as int) * 0x1_0000_0000 + w[8], w[9])
  }

  lemma {:induction false} HeaderRoundTrip(h: Header, body: seq<byte>)
    ensures GetHeader(PutMessage(h, body)) == h
  {
    WordsRoundTrip(HeaderWords(h), body);
  }

  /** The layout that the protocol's struct prescribes, field by field. */
  lemma {:induction false} HeaderLayout(h: Header, body: seq<byte>)
    ensures PutMessage(h, body) ==
              PutU32(h.prog) + (PutU32(h.vers) + (PutU32(h.proc) + (PutU32(h.direction) + (PutU32(h.serial) +
              (PutU64(h.progressHint) + (PutU64(h.optargs) + (PutU32(h.status) + body)))))))
  {
    var ws := HeaderWords(h);
    WordsThenRest(ws, body);
    assert ws[0..] == ws && ws[10..] == [];
    var s9 := PutU32(h.status) + body;
    NextWord(ws, 9, body);
    NextWord(ws, 8, body);
    NextWord(ws, 7, body);
    Concat(PutU32(ws[7]), PutU32(ws[8]), s9);
    var s7 := PutU64(h.optargs) + s9;
    NextWord(ws, 6, body);
    NextWord(ws, 5, body);
    Concat(PutU32(ws[5]), PutU32(ws[6]), s7);
    NextWord(ws, 4, body);
    NextWord(ws, 3, body);
    NextWord(ws, 2, body);
    NextWord(ws, 1, body);
    NextWord(ws, 0, body);
  }

  /** The words one by one, and then the rest. */
  function Then(ws: seq<u32>, rest: seq<byte>): seq<byte> {
    if ws == [] then rest else PutU32(ws[0]) + Then(ws[1..], rest)
  }

  lemma {:induction false} WordsThenRest(ws: seq<u32>, rest: seq<byte>)
    ensures PutWords(ws) + rest == Then(ws, rest)
  {
    if ws == [] {
      assert [] + rest == rest;
    } else {
      Concat(PutU32(ws[0]), PutWords(ws[1..]), rest);
      WordsThenRest(ws[1..], rest);
    }
  }

  lemma {:induction false} NextWord(ws: seq<u32>, k: nat, rest: seq<byte>)
    requires k < |ws|
    ensures Then(ws[k..], rest) == PutU32(ws[k]) + Then(ws[k + 1..], rest)
  {
    assert ws[k..][1..] == ws[k + 1..] && ws[k..][0] == ws[k];
  }

  predicate GoodCall(h: Header) {
    h.prog == PROGRAM && h.vers == PROTOCOL_VERSION && h.direction == 0 && h.status == 0
  }

  // ---------- replies

  function PutString(s: seq<byte>): (r: seq<byte>)
    requires |s| <= ERROR_LEN
    ensures |r| <= |s| + 7
  {
    PutU32(|s|) + s + Zeros(Padding(|s|))
  }

  /** The text is cut to ERROR_LEN bytes, so the encoding fits the ERROR_LEN + 200 byte buffer. */
  function ErrorReply(proc: u32, serial: u32, errno: seq<byte>, msg: seq<byte>): (o: Out)
    requires |errno| <= 32
    ensures o.Message? && |o.payload| <= ERROR_LEN + 200 && Legal(o)
  {
    var cut := if |msg| > ERROR_LEN then msg[..ERROR_LEN] else msg;
    Message(PutMessage(Header(PROGRAM, PROTOCOL_VERSION, proc, 1, serial, 0, 0, 1), PutString(errno) + PutString(cut)))
  }

  /** xdr_string when decoding: the bytes, and what follows them and their padding. */
  function GetString(s: seq<byte>): Option<(seq<byte>, seq<byte>)> {
    if |s| < 4 then None
    else
      var n := GetU32(s);
      if |s| < 4 + n + Padding(n) then None else Some((s[4..4 + n], s[4 + n + Padding(n)..]))
  }

  lemma {:induction false} StringRoundTrip(x: seq<byte>, rest: seq<byte>)
    requires |x| <= ERROR_LEN
    ensures GetString(PutString(x) + rest) == Some((x, rest))
  {
    var pad := Zeros(Padding(|x|));
    var s := PutString(x) + rest;
    assert s == PutU32(|x|) + (x + pad + rest);
    U32RoundTrip(|x|, x + pad + rest);
    assert s[4..4 + |x|] == x && s[4 + |x| + |pad|..] == rest;
  }

  /** The library reads back the errno and the text, cut to ERROR_LEN bytes. */
  lemma {:induction false} ErrorRoundTrip(proc: u32, serial: u32, errno: seq<byte>, msg: seq<byte>)
    requires |errno| <= 32
    ensures var body := ErrorReply(proc, serial, errno, msg).payload[HEADER_SIZE..];
            var text := if |msg| > ERROR_LEN then msg[..ERROR_LEN] else msg;
            && GetString(body).Some? && GetString(body).value.0 == errno
            && GetString(GetString(body).value.1) == Some((text, []))
  {
    var text := if |msg| > ERROR_LEN then msg[..ERROR_LEN] else msg;
    var words := PutWords(HeaderWords(Header(PROGRAM, PROTOCOL_VERSION, proc, 1, serial, 0, 0, 1)));
    Drop(words, PutString(errno) + PutString(text));
    StringRoundTrip(errno, PutString(text));
    StringRoundTrip(text, []);
    assert PutString(text) + [] == PutString(text);
  }

  function OkReply(proc: u32, serial: u32): (o: Out)
    ensures o.Message? && Legal(o)
  {
    Message(PutMessage(Header(PROGRAM, PROTOCOL_VERSION, proc, 1, serial, 0, 0, 0), []))
  }

  /** Whom a reply answers, and whether it is an error (1) or not (0). */
  datatype Answer = Answer(proc: u32, serial: u32, status: u32)

  /** A reply starts with the program number, the version and its direction; a chunk starts with 0 or 1. */
  function AnswerOf(o: Out): Option<Answer> {
    if o.Message? && |o.payload| >= HEADER_SIZE then
      var h := GetHeader(o.payload);
      if h.prog == PROGRAM && h.vers == PROTOCOL_VERSION && h.direction == 1
      then Some(Answer(h.proc, h.serial, h.status)) else None
    else None
  }

  lemma {:induction false} ErrorAnswers(proc: u32, serial: u32, errno: seq<byte>, msg: seq<byte>)
    requires |errno| <= 32
    ensures AnswerOf(ErrorReply(proc, serial, errno, msg)) == Some(Answer(proc, serial, 1))
  {
    var cut := if |msg| > ERROR_LEN then msg[..ERROR_LEN] else msg;
    HeaderRoundTrip(Header(PROGRAM, PROTOCOL_VERSION, proc, 1, serial, 0, 0, 1), PutString(errno) + PutString(cut));
  }

  lemma {:induction false} OkAnswers(proc: u32, serial: u32)
    ensures AnswerOf(OkReply(proc, serial)) == Some(Answer(proc, serial, 0))
  {
    HeaderRoundTrip(Header(PROGRAM, PROTOCOL_VERSION, proc, 1, serial, 0, 0, 0), []);
  }

  /** The answers among the messages sent, in order. */
  function Answers(os: seq<Out>): seq<Answer> {
    if os == [] then []
    else
      var a := AnswerOf(os[|os| - 1]);
      Answers(os[..|os| - 1]) + if a.Some? then [a.value] else []
  }

  lemma {:induction false} AnswersAppend(a: seq<Out>, b: seq<Out>)
    ensures Answers(a + b) == Answers(a) + Answers(b)
  {
    if b == [] {
      assert a + b == a;
    } else {
      var o := b[|b| - 1];
      AnswersAppend(a, b[..|b| - 1]);
      assert (a + b)[..|a + b| - 1] == a + b[..|b| - 1] && (a + b)[|a + b| - 1] == o;
      Concat(Answers(a), Answers(b[..|b| - 1]), if AnswerOf(o).Some? then [AnswerOf(o).value] else []);
    }
  }

  lemma {:induction false} AnswersSnoc(a: seq<Out>, o: Out)
    requires AnswerOf(o).Some?
    ensures Answers(a + [o]) == Answers(a) + [AnswerOf(o).value]
    ensures Answers(a + [CancelWord, o]) == Answers(a) + [AnswerOf(o).value]
  {
    assert (a + [o])[..|a|] == a;
    assert (a + [CancelWord, o])[..|a| + 1] == a + [CancelWord];
    assert (a + [CancelWord])[..|a|] == a;
  }

  lemma {:induction false} ProgressIsNoAnswer(os: seq<Out>)
    requires OnlyProgress(os)
    ensures Answers(os) == []
  {
    if os != [] {
      assert os[|os| - 1] in os;
      ProgressIsNoAnswer(os[..|os| - 1]);
    }
  }

  lemma {:induction false} ChunksAreNoAnswer(os: seq<Out>, chunks: seq<Chunk>)
    requires ChunksOf(os) == Some(chunks) && forall c :: c in chunks ==> c.cancel <= 1
    ensures Answers(os) == []
  {
    if os != [] {
      var n := |os| - 1;
      var before := ChunksOf(os[..n]).value;
      if os[n].Message? {
        assert chunks[|before|] in chunks;
        assert chunks[..|before|] == before;
      }
      ChunksAreNoAnswer(os[..n], before);
    }
  }
}
