/**
 * Both ends of one upload at once: the library's send_file and the daemon's
 * upload, with cancel words crossing chunks in flight.  The library looks for the
 * daemon's cancel word before every chunk it writes; when it finds one it drops
 * the chunk.  Dropped data is followed by a cancel chunk, but a dropped cancel
 * chunk is not followed by anything.
 */
module Rendezvous {
  import opened Bytes
  import opened Wire
  import opened Daemon

  datatype Lib = Sending(k: nat) | Returned(result: int)
  datatype Remote = Starting | Receiving | Draining | Finished

  /** `toDaemon` is in flight; `log` is all that the library ever wrote; `cancels` are unread by the library. */
  datatype State = State(lib: Lib, daemon: Remote, toDaemon: seq<In>, cancels: nat, log: seq<In>)

  /** `seen`: the check before a write found the daemon's cancel word. */
  datatype Action =
    | SendData(seen: bool)
    | SendEnd(seen: bool)
    | GiveUp(seen: bool)         // the user cancels, or reading the local file fails
    | DaemonOpen(ok: bool)
    | DaemonTake(ok: bool)

  type Chunks = cs: seq<seq<byte>> | forall c :: c in cs ==> 1 <= |c| <= MAX_CHUNK_SIZE

  predicate Init(s: State) { s == State(Sending(0), Starting, [], 0, []) }

  function Write(s: State, i: In, lib: Lib): State {
    s.(lib := lib, toDaemon := s.toDaemon + [i], log := s.log + [i])
  }

  /** send_file_cancellation after the daemon's cancel word was taken. */
  function Acknowledge(s: State): State
    requires s.cancels > 0
  {
    Write(s.(cancels := s.cancels - 1), LibraryCancel, Returned(-2))
  }

  predicate Enabled(file: Chunks, s: State, a: Action) {
    match a
    case SendData(seen) => s.lib.Sending? && s.lib.k < |file| && (seen ==> s.cancels > 0)
    case SendEnd(seen) => s.lib.Sending? && s.lib.k == |file| && (seen ==> s.cancels > 0)
    case GiveUp(seen) => s.lib.Sending? && (seen ==> s.cancels > 0)
    case DaemonOpen(ok) => s.daemon.Starting?
    case DaemonTake(ok) => (s.daemon.Receiving? || s.daemon.Draining?) && s.toDaemon != []
  }

  function Next(file: Chunks, s: State, a: Action): State
    requires Enabled(file, s, a)
  {
    match a
    case SendData(seen) => if seen then Acknowledge(s) else Write(s, Data(file[s.lib.k]), Sending(s.lib.k + 1))
    case SendEnd(seen) => if seen then Acknowledge(s) else Write(s, EndOfFile, Returned(0))
    case GiveUp(seen) =>
      if seen then s.(lib := Returned(-1), cancels := s.cancels - 1) else Write(s, LibraryCancel, Returned(-1))
    case DaemonOpen(ok) => if ok then s.(daemon := Receiving) else s.(daemon := Draining, cancels := s.cancels + 1)
    case DaemonTake(ok) =>
      var s1 := s.(toDaemon := s.toDaemon[1..]);
      if Terminator(s.toDaemon[0]) then s1.(daemon := Finished)
      else if s.daemon.Receiving? && !ok then s1.(daemon := Draining, cancels := s.cancels + 1)
      else s1
  }

  predicate Run(file: Chunks, states: seq<State>, acts: seq<Action>) {
    && |states| == |acts| + 1 && Init(states[0])
    && forall k :: 0 <= k < |acts| ==>
         Enabled(file, states[k], acts[k]) && states[k + 1] == Next(file, states[k], acts[k])
  }

  predicate Quiescent(file: Chunks, s: State) {
    forall b: bool ::
      && !Enabled(file, s, SendData(b)) && !Enabled(file, s, SendEnd(b)) && !Enabled(file, s, GiveUp(b))
      && !Enabled(file, s, DaemonOpen(b)) && !Enabled(file, s, DaemonTake(b))
  }

  /** The library's own cancellation met the daemon's cancel word. */
  predicate Collided(acts: seq<Action>) { GiveUp(true) in acts }

  // ---------- invariant

  predicate DataOnly(items: seq<In>) {
    forall i :: i in items ==> i.Data? && LegalIn(i)
  }

  predicate Inv(file: Chunks, s: State, collided: bool) {
    && |s.toDaemon| <= |s.log| && s.toDaemon == s.log[|s.log| - |s.toDaemon|..]
    && s.cancels <= 1
    && (s.cancels == 1 ==> s.daemon.Draining? || s.daemon.Finished?)
    && (s.lib.Sending? ==> s.lib.k <= |file| && DataOnly(s.log) && !s.daemon.Finished? && !collided)
    && (s.lib.Sending? && s.daemon.Draining? ==> s.cancels == 1)
    && (s.lib.Returned? && !collided ==> Transfer(s.log))
    && (s.lib.Returned? && collided ==> DataOnly(s.log) && s.daemon.Draining? && s.cancels == 0)
    && (s.daemon.Finished? ==> s.toDaemon == [])
    && (!s.daemon.Finished? && s.lib.Returned? && !collided ==> s.toDaemon != [])
  }

  lemma {:induction false} TransferSnoc(items: seq<In>, t: In)
    requires DataOnly(items) && Terminator(t)
    ensures Transfer(items + [t])
  {
    var s := items + [t];
    forall k | 0 <= k < |s| ensures Terminator(s[k]) <==> k == |s| - 1 {
      if k < |items| {
        assert s[k] == items[k] && items[k] in items;
      }
    }
  }

  lemma {:induction false} DataSnoc(items: seq<In>, d: seq<byte>)
    requires DataOnly(items) && 1 <= |d| <= MAX_CHUNK_SIZE
    ensures DataOnly(items + [Data(d)])
  {
  }

  lemma {:induction false} WriteInv(file: Chunks, s: State, i: In, lib: Lib)
    requires |s.toDaemon| <= |s.log| && s.toDaemon == s.log[|s.log| - |s.toDaemon|..]
    ensures var s' := Write(s, i, lib); |s'.toDaemon| <= |s'.log| && s'.toDaemon == s'.log[|s'.log| - |s'.toDaemon|..]
  {
  }

  lemma {:induction false} StepInv(file: Chunks, s: State, a: Action, collided: bool)
    requires Inv(file, s, collided) && Enabled(file, s, a)
    ensures Inv(file, Next(file, s, a), collided || a == GiveUp(true))
  {
    match a
    case SendData(seen) => SendDataInv(file, s, seen, collided);
    case SendEnd(seen) => LastInv(file, s, EndOfFile, 0, collided); if seen { AcknowledgeInv(file, s, collided); }
    case GiveUp(seen) => LastInv(file, s, LibraryCancel, -1, collided);
    case DaemonOpen(ok) =>
    case DaemonTake(ok) => TakeInv(file, s, ok, collided);
  }

  lemma {:induction false} LastInv(file: Chunks, s: State, t: In, r: int, collided: bool)
    requires Inv(file, s, collided) && s.lib.Sending? && Terminator(t)
    ensures Inv(file, Write(s, t, Returned(r)), collided)
  {
    WriteInv(file, s, t, Returned(r));
    TransferSnoc(s.log, t);
  }

  lemma {:induction false} AcknowledgeInv(file: Chunks, s: State, collided: bool)
    requires Inv(file, s, collided) && s.lib.Sending? && s.cancels > 0
    ensures Inv(file, Acknowledge(s), collided)
  {
    WriteInv(file, s.(cancels := s.cancels - 1), LibraryCancel, Returned(-2));
    TransferSnoc(s.log, LibraryCancel);
  }

  lemma {:induction false} SendDataInv(file: Chunks, s: State, seen: bool, collided: bool)
    requires Inv(file, s, collided) && Enabled(file, s, SendData(seen))
    ensures Inv(file, Next(file, s, SendData(seen)), collided)
  {
    if seen {
      AcknowledgeInv(file, s, collided);
    } else {
      var d := file[s.lib.k];
      assert d in file;
      WriteInv(file, s, Data(d), Sending(s.lib.k + 1));
      DataSnoc(s.log, d);
    }
  }

  lemma {:induction false} TakeInv(file: Chunks, s: State, ok: bool, collided: bool)
    requires Inv(file, s, collided) && Enabled(file, s, DaemonTake(ok))
    ensures Inv(file, Next(file, s, DaemonTake(ok)), collided)
  {
    var p := |s.log| - |s.toDaemon|;
    assert s.toDaemon[0] == s.log[p];
    assert s.toDaemon[1..] == s.log[p + 1..];
    assert s.log[p] in s.log;
  }

  lemma {:induction false} RunInv(file: Chunks, states: seq<State>, acts: seq<Action>, k: nat)
    requires Run(file, states, acts) && k <= |acts|
    ensures Inv(file, states[k], Collided(acts[..k]))
  {
    if k > 0 {
      RunInv(file, states, acts, k - 1);
      assert Enabled(file, states[k - 1], acts[k - 1]);
      StepInv(file, states[k - 1], acts[k - 1], Collided(acts[..k - 1]));
      assert acts[..k] == acts[..k - 1] + [acts[k - 1]];
    }
  }

  // ---------- what the library has written

  /** The first k chunks of the file. */
  function SentChunks(file: Chunks, k: nat): seq<In>
    requires k <= |file|
  {
    seq(k, j requires 0 <= j < k => Data(file[j]))
  }

  ghost predicate CutOff(file: Chunks, log: seq<In>) {
    exists k: nat :: k <= |file| &&
      (log == SentChunks(file, k) || log == SentChunks(file, k) + [LibraryCancel])
  }

  /** The chunks in order; at the end all of them and the end marker, or some and perhaps a cancel chunk. */
  ghost predicate LogOk(file: Chunks, s: State) {
    match s.lib
    case Sending(k) => k <= |file| && s.log == SentChunks(file, k)
    case Returned(r) => if r == 0 then s.log == SentChunks(file, |file|) + [EndOfFile] else CutOff(file, s.log)
  }

  lemma {:induction false} StepLog(file: Chunks, s: State, a: Action)
    requires LogOk(file, s) && Enabled(file, s, a)
    ensures LogOk(file, Next(file, s, a))
  {
    if a.SendData? && !a.seen {
      assert SentChunks(file, s.lib.k) + [Data(file[s.lib.k])] == SentChunks(file, s.lib.k + 1);
    }
  }

  /** In every run the library has written the file's chunks in order, and it returns 0 only after all of them. */
  lemma {:induction false} RunLog(file: Chunks, states: seq<State>, acts: seq<Action>, k: nat)
    requires Run(file, states, acts) && k <= |acts|
    ensures LogOk(file, states[k])
  {
    if k > 0 {
      RunLog(file, states, acts, k - 1);
      assert Enabled(file, states[k - 1], acts[k - 1]);
      StepLog(file, states[k - 1], acts[k - 1]);
    }
  }

  // ---------- theorems

  /** Every step uses some of this up. */
  function Measure(file: Chunks, s: State): int {
    |s.toDaemon| + (if s.lib.Sending? then 2 * (|file| - s.lib.k) + 2 else 0) + (if s.daemon.Starting? then 1 else 0)
  }

  lemma {:induction false} StepsRunOut(file: Chunks, s: State, a: Action, collided: bool)
    requires Inv(file, s, collided) && Enabled(file, s, a)
    ensures 0 <= Measure(file, Next(file, s, a)) < Measure(file, s)
  {
    StepInv(file, s, a, collided);
  }

  lemma {:induction false} MeasureFalls(file: Chunks, states: seq<State>, acts: seq<Action>, k: nat)
    requires Run(file, states, acts) && k <= |acts|
    ensures 0 <= Measure(file, states[k]) && k + Measure(file, states[k]) <= 2 * |file| + 3
  {
    RunInv(file, states, acts, k);
    if k > 0 {
      MeasureFalls(file, states, acts, k - 1);
      RunInv(file, states, acts, k - 1);
      StepsRunOut(file, states[k - 1], acts[k - 1], Collided(acts[..k - 1]));
    }
  }

  /** No run of the two sides takes more than two steps for each chunk and three more. */
  lemma {:induction false} EveryRunEnds(file: Chunks, states: seq<State>, acts: seq<Action>)
    requires Run(file, states, acts)
    ensures |acts| <= 2 * |file| + 3
  {
    MeasureFalls(file, states, acts, |acts|);
  }

  /**
   * When both sides are at rest the daemon has finished the call, so that the library
   * gets its reply, if and only if the two cancellations did not collide; then what the
   * library wrote is a well-formed transfer.  After a collision the daemon waits for a
   * terminator that is never sent.
   */
  lemma {:induction false} RestsFinishedIffNoCollision(file: Chunks, states: seq<State>, acts: seq<Action>)
    requires Run(file, states, acts) && Quiescent(file, states[|acts|])
    ensures var s := states[|acts|];
            && (s.daemon.Finished? <==> !Collided(acts))
            && (!Collided(acts) ==> Transfer(s.log))
            && (Collided(acts) ==> s.daemon.Draining? && s.toDaemon == [] && DataOnly(s.log))
  {
    var s := states[|acts|];
    RunInv(file, states, acts, |acts|);
    assert acts[..|acts|] == acts;
    assert !Enabled(file, s, SendData(false)) && !Enabled(file, s, SendEnd(false));
    assert !Enabled(file, s, DaemonOpen(true)) && !Enabled(file, s, DaemonTake(true));
  }

  /** Such a run exists: the daemon cannot open the file while the user cancels. */
  lemma {:induction false} CollisionExample(file: Chunks) returns (states: seq<State>, acts: seq<Action>)
    ensures Run(file, states, acts) && Quiescent(file, states[|acts|])
    ensures states[|acts|].lib == Returned(-1) && states[|acts|].daemon == Draining
  {
    var s0 := State(Sending(0), Starting, [], 0, []);
    var s1 := State(Sending(0), Draining, [], 1, []);
    var s2 := State(Returned(-1), Draining, [], 0, []);
    states, acts := [s0, s1, s2], [DaemonOpen(false), GiveUp(true)];
    assert Next(file, s0, DaemonOpen(false)) == s1;
    assert Next(file, s1, GiveUp(true)) == s2;
  }
}
