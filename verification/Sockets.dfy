/**
 * The daemon's end of the socket for reading: exact reads over short ones, and
 * length-framed input in which a cancel word may stand between frames.
 */
module Sockets {
  import opened Bytes
  import opened Wire

  /** One item of the library's byte stream. */
  datatype Event = Stale | Frame(payload: seq<byte>)

  predicate LegalEvent(e: Event) { e.Frame? ==> |e.payload| <= MESSAGE_MAX }

  function PutEvent(e: Event): (s: seq<byte>)
    requires LegalEvent(e)
    ensures |s| >= 4
  {
    if e.Stale? then PutU32(CANCEL_FLAG) else PutFrame(e.payload)
  }

  function PutEvents(es: seq<Event>): (s: seq<byte>)
    requires forall e :: e in es ==> LegalEvent(e)
    ensures es == [] <==> s == []
  {
    if es == [] then [] else PutEvent(es[0]) + PutEvents(es[1..])
  }

  /** Reading a length word and then that many bytes takes exactly one frame. */
  lemma {:induction false} FrontFrame(m: seq<byte>, tail: seq<byte>, s: seq<byte>)
    requires |m| <= MESSAGE_MAX && s == PutFrame(m) + tail
    ensures |s| >= 4 + |m| && GetU32(s[..4]) == |m|
    ensures s[4..][..|m|] == m && s[4..][|m|..] == tail
  {
    assert s[..4] == PutU32(|m|) + [];
    U32RoundTrip(|m|, []);
    assert s[4..] == m + tail;
  }

  lemma {:induction false} FrontWord(w: u32, tail: seq<byte>, s: seq<byte>)
    requires s == PutU32(w) + tail
    ensures |s| >= 4 && GetU32(s[..4]) == w && s[4..] == tail
  {
    assert s[..4] == PutU32(w) + [];
    U32RoundTrip(w, []);
  }

  class Socket {
    var inp: seq<byte>            // sent by the library, not yet read
    const mayFail: bool           // read(2) may return -1
    ghost var events: seq<Event>  // the same, as items

    ghost predicate Valid()
      reads this
    {
      !mayFail && (forall e :: e in events ==> LegalEvent(e)) && inp == PutEvents(events)
    }

    constructor (stream: seq<byte>, ghost items: seq<Event>)
      requires (forall e :: e in items ==> LegalEvent(e)) && stream == PutEvents(items)
      ensures Valid() && events == items
    {
      inp, mayFail, events := stream, false, items;
    }

    /** read(2): an error, any non-empty prefix of what is there, or nothing at end of file. */
    method Read(len: nat) returns (ok: bool, got: seq<byte>)
      requires len > 0
      modifies this`inp
      ensures old(inp) == got + inp && |got| <= len
      ensures ok && old(inp) != [] ==> got != []
      ensures !ok ==> mayFail && got == []
    {
      if mayFail {
        ok := *;
        if !ok {
          return false, [];
        }
      }
      ok := true;
      var n: nat :| n <= len && n <= |inp| && (inp != [] ==> n > 0);
      got := inp[..n];
      inp := inp[n..];
    }

    /** xread: exactly n bytes however the kernel splits them, or failure at an error or end of file. */
    method XRead(n: nat) returns (ok: bool, buf: seq<byte>)
      modifies this`inp
      ensures ok ==> n <= |old(inp)| && buf == old(inp)[..n] && inp == old(inp)[n..]
      ensures !ok ==> mayFail || n > |old(inp)|
    {
      buf := [];
      while |buf| < n
        invariant old(inp) == buf + inp && |buf| <= n
        decreases |inp|
      {
        var got;
        ok, got := Read(n - |buf|);
        if !ok || got == [] {
          return false, buf;
        }
        buf := buf + got;
      }
      return true, buf;
    }

    /**
     * What main_loop and receive_file both do at the top of their loops: read the
     * length word, and the frame behind it unless it is a cancel word.  The byte
     * stream is cut exactly at item boundaries.
     */
    method ReadItem() returns (ok: bool, stale: bool, payload: seq<byte>)
      requires Valid()
      modifies this
      ensures Valid() && (ok <==> old(events) != [])
      ensures ok ==> events == old(events)[1..] && stale == old(events)[0].Stale?
      ensures ok && !stale ==> payload == old(events)[0].payload
      ensures !ok ==> events == []
    {
      payload := [];
      if events != [] {
        ghost var e, tail := events[0], PutEvents(events[1..]);
        assert e in events;
        if e.Stale? {
          FrontWord(CANCEL_FLAG, tail, inp);
        } else {
          FrontFrame(e.payload, tail, inp);
        }
      }
      var lenbuf;
      ok, lenbuf := XRead(4);
      if !ok {
        inp := [];
        return false, false, [];
      }
      events := events[1..];
      var len := GetU32(lenbuf);
      if len == CANCEL_FLAG {
        return true, true, [];
      }
      assert len <= MESSAGE_MAX;
      ok, payload := XRead(len);
      return true, false, payload;
    }

    /**
     * select(2) with a zero timeout while a file is being sent to the library: what is on its way
     * may or may not be seen yet.  A patient library sends nothing but a cancel word before the
     * transfer is over.
     */
    method Select(patient: bool) returns (ready: bool)
      requires Valid()
      ensures ready ==> |inp| >= 4 && (patient ==> GetU32(inp[..4]) == CANCEL_FLAG)
    {
      ready := *;
      if |inp| < 4 || (patient && GetU32(inp[..4]) != CANCEL_FLAG) {
        ready := false;
      }
    }

    /**
     * check_for_library_cancellation: true iff a cancel word was taken off the stream.  If the
     * library was not patient, the length word of its next request may be taken and lost instead.
     */
    method PollCancel(patient: bool) returns (cancel: bool)
      requires Valid()
      modifies this
      ensures cancel ==> old(events) != [] && old(events)[0].Stale? && events == old(events)[1..]
      ensures !cancel ==> events == old(events)
      ensures !cancel && inp != old(inp) ==> !patient && events != [] && events[0].Frame?
      ensures !cancel && inp != old(inp) ==> |old(inp)| >= 4 && inp == old(inp)[4..]
      ensures cancel || inp == old(inp) ==> Valid()
    {
      var ready := Select(patient);
      if !ready {
        return false;
      }
      FirstWord(events);
      if events[0].Stale? {
        FrontWord(CANCEL_FLAG, PutEvents(events[1..]), inp);
      }
      var ok, buf := XRead(4);
      cancel := GetU32(buf) == CANCEL_FLAG;
      if cancel {
        events := events[1..];
      }
    }
  }

  /** The word at the front of the stream: a length, or the cancel flag, which no length equals. */
  lemma {:induction false} FirstWord(es: seq<Event>)
    requires es != [] && forall e :: e in es ==> LegalEvent(e)
    ensures LegalEvent(es[0])
    ensures |PutEvents(es)| >= 4
    ensures GetU32(PutEvents(es)[..4]) == if es[0].Stale? then CANCEL_FLAG else |es[0].payload|
  {
    var e, tail := es[0], PutEvents(es[1..]);
    assert e in es;
    if e.Stale? {
      FrontWord(CANCEL_FLAG, tail, PutEvents(es));
    } else {
      FrontFrame(e.payload, tail, PutEvents(es));
    }
  }
}
