/**
 Every interleaving of one writer and any number of readers.

 The machine has one event per locked region and one per byte copied outside
 the lock.  The theorems hold of every run: of every finite sequence of enabled
 events from an empty ring.
 */
module RingRuns {
  import opened Bytes
  import opened Modular
  import opened Ring
  import opened RingLog

  /** What a reader thread has in hand between its locked regions. */
  datatype Phase =
    | Resting
    | Window(available: nat)
    | Copying(available: nat, size: nat, got: map<nat, byte>)

  /** `tape` is everything the reader has consumed: a byte it copied, or None for one it discarded uncopied. */
  datatype Reader = Reader(start: nat, tape: seq<Option<byte>>, phase: Phase)

  datatype State = State(
    mem: bytes, head: nat, tails: seq<nat>,           // shared memory and offsets
    flight: Flight, readers: seq<Reader>,             // what the threads hold
    log: bytes, pos: seq<nat>)                        // the abstract value

  datatype Event =
    | WriterChecks
    | WriterBegins(src: bytes)
    | WriterCopies(j: nat)
    | WriterConfirms
    | ReaderJoins
    | ReaderChecks(i: nat)
    | ReaderBegins(i: nat, want: nat)
    | ReaderCopies(i: nat, j: nat)
    | ReaderConfirms(i: nat)
    | ReaderSkips(i: nat, n: nat)
    | ReaderAligns(i: nat)
  {
    /** The reader whose position the event may change. */
    predicate Moves(k: nat) {
      (ReaderConfirms? || ReaderSkips? || ReaderAligns?) && i == k
    }
  }

  // ------------------------------------------------------------------
  // The machine
  // ------------------------------------------------------------------

  predicate Shaped(s: State) {
    && 2 <= |s.mem| && s.head < |s.mem|
    && |s.tails| == |s.readers| <= READER_MAX_CAP
    && |s.pos| == |s.readers|
    && forall i :: 0 <= i < |s.tails| ==> s.tails[i] < |s.mem|
  }

  /** What a thread may do next; nothing here reads the abstract value. */
  predicate Enabled(s: State, e: Event)
    requires Shaped(s)
  {
    match e
    case WriterChecks => s.flight.src == []
    case WriterBegins(src) => s.flight.src == [] && |src| <= s.flight.room
    case WriterCopies(j) => j < |s.flight.src|
    case WriterConfirms => forall j :: 0 <= j < |s.flight.src| ==> j in s.flight.done
    case ReaderJoins => |s.readers| < READER_MAX_CAP
    case ReaderChecks(i) => i < |s.readers| && !s.readers[i].phase.Copying?
    case ReaderBegins(i, want) =>
      i < |s.readers| && s.readers[i].phase.Window? && want <= s.readers[i].phase.available
    case ReaderCopies(i, j) =>
      i < |s.readers| && s.readers[i].phase.Copying? && j < s.readers[i].phase.size
    case ReaderConfirms(i) =>
      i < |s.readers| && s.readers[i].phase.Copying?
      && forall j :: 0 <= j < s.readers[i].phase.size ==> j in s.readers[i].phase.got
    case ReaderSkips(i, n) =>
      i < |s.readers| && s.readers[i].phase.Window? && n <= s.readers[i].phase.available
    case ReaderAligns(i) => i < |s.readers| && !s.readers[i].phase.Copying?
  }

  function Discarded(n: nat): seq<Option<byte>> {
    seq(n, _ => None)
  }

  function Next(s: State, e: Event): State
    requires Shaped(s) && Enabled(s, e)
  {
    var len := |s.mem|;
    match e
    case WriterChecks =>
      s.(flight := Flight(WriterSpace(len, s.head, s.tails), [], {}))
    case WriterBegins(src) =>
      s.(flight := Flight(s.flight.room, src, {}))
    case WriterCopies(j) =>
      s.(mem := s.mem[Slot(len, s.head + j) := s.flight.src[j]],
         flight := s.flight.(done := s.flight.done + {j}))
    case WriterConfirms =>
      var n := |s.flight.src|;
      s.(head := (s.head + n) % len,
         log := s.log + s.flight.src,
         flight := Flight(if n <= s.flight.room then s.flight.room - n else 0, [], {}))
    case ReaderJoins =>
      s.(tails := s.tails + [s.head],
         pos := s.pos + [|s.log|],
         readers := s.readers + [Reader(|s.log|, [], Resting)])
    case ReaderChecks(i) =>
      s.(readers := s.readers[i := s.readers[i].(phase := Window(AvailableData(len, s.head, s.tails[i])))])
    case ReaderBegins(i, want) =>
      var a := s.readers[i].phase.available;
      s.(readers := s.readers[i := s.readers[i].(phase :=
           Copying(a, ReadLength(len, s.head, s.tails[i], want), map[]))])
    case ReaderCopies(i, j) =>
      var r := s.readers[i];
      var b := s.mem[Slot(len, s.tails[i] + j)];
      s.(readers := s.readers[i := r.(phase := r.phase.(got := r.phase.got[j := b]))])
    case ReaderConfirms(i) =>
      var r := s.readers[i];
      var n := r.phase.size;
      var copied := seq(n, j requires 0 <= j < n => Some(r.phase.got[j]));
      s.(tails := s.tails[i := (s.tails[i] + n) % len],
         pos := s.pos[i := s.pos[i] + n],
         readers := s.readers[i := Reader(r.start, r.tape + copied,
           Window(if n <= r.phase.available then r.phase.available - n else 0))])
    case ReaderSkips(i, n) =>
      var r := s.readers[i];
      s.(tails := s.tails[i := (s.tails[i] + n) % len],
         pos := s.pos[i := s.pos[i] + n],
         readers := s.readers[i := Reader(r.start, r.tape + Discarded(n), Window(r.phase.available - n))])
    case ReaderAligns(i) =>
      var r := s.readers[i];
      var n := if s.pos[i] <= |s.log| then |s.log| - s.pos[i] else 0;
      s.(tails := s.tails[i := s.head],
         pos := s.pos[i := s.pos[i] + n],
         readers := s.readers[i := Reader(r.start, r.tape + Discarded(n), Resting)])
  }

  function Initial(mem: bytes): State {
    State(mem, 0, [], LANDED, [], [], [])
  }

  predicate Runs(s: State, events: seq<Event>)
    decreases |events|
  {
    Shaped(s) && (events == [] || (Enabled(s, events[0]) && Runs(Next(s, events[0]), events[1..])))
  }

  function After(s: State, events: seq<Event>): State
    requires Runs(s, events)
    decreases |events|
  {
    if events == [] then s else After(Next(s, events[0]), events[1..])
  }

  // ------------------------------------------------------------------
  // The invariant
  // ------------------------------------------------------------------

  /** A reader's tape is the stretch of the log it has consumed, byte for byte where it copied. */
  ghost predicate OnTape(r: Reader, log: bytes, pos: nat) {
    && pos == r.start + |r.tape| <= |log|
    && forall k :: 0 <= k < |r.tape| && r.tape[k].Some? ==> r.tape[k].value == log[r.start + k]
  }

  /** What a reader has in hand is still there and still right. */
  ghost predicate InHand(r: Reader, len: nat, tail: nat, log: bytes, pos: nat) {
    match r.phase
    case Resting => true
    case Window(available) => pos + available <= |log|
    case Copying(available, size, got) =>
      && size <= available && pos + available <= |log| && tail + size <= len
      && forall j :: j in got ==> j < size && got[j] == log[pos + j]
  }

  ghost predicate ReadersRight(readers: seq<Reader>, len: nat, tails: seq<nat>, log: bytes, pos: seq<nat>) {
    && |readers| == |tails| == |pos|
    && forall i :: 0 <= i < |readers| ==> OnTape(readers[i], log, pos[i]) && InHand(readers[i], len, tails[i], log, pos[i])
  }

  ghost predicate Inv(s: State) {
    && Shaped(s)
    && Represents(s.mem, s.head, s.tails, s.log, s.pos, s.flight)
    && ReadersRight(s.readers, |s.mem|, s.tails, s.log, s.pos)
  }

  /** One reader changes; the others are as they were. */
  lemma OneReaderChanges(s: State, i: nat, r: Reader, tail: nat, pos: nat)
    requires ReadersRight(s.readers, |s.mem|, s.tails, s.log, s.pos) && i < |s.readers|
    requires OnTape(r, s.log, pos) && InHand(r, |s.mem|, tail, s.log, pos)
    ensures ReadersRight(s.readers[i := r], |s.mem|, s.tails[i := tail], s.log, s.pos[i := pos])
  {
  }

  /** More of the log does not disturb what has been read of it. */
  lemma LogGrows(s: State, more: bytes)
    requires ReadersRight(s.readers, |s.mem|, s.tails, s.log, s.pos)
    ensures ReadersRight(s.readers, |s.mem|, s.tails, s.log + more, s.pos)
  {
    forall i | 0 <= i < |s.readers|
      ensures OnTape(s.readers[i], s.log + more, s.pos[i])
      ensures InHand(s.readers[i], |s.mem|, s.tails[i], s.log + more, s.pos[i])
    {
    }
  }

  lemma CheckKeepsInv(s: State)
    requires Inv(s) && Enabled(s, WriterChecks)
    ensures Inv(Next(s, WriterChecks))
  {
    GrantRoom(s.mem, s.head, s.tails, s.log, s.pos, s.flight);
  }

  lemma BeginKeepsInv(s: State, src: bytes)
    requires Inv(s) && Enabled(s, WriterBegins(src))
    ensures Inv(Next(s, WriterBegins(src)))
  {
  }

  lemma CopyKeepsInv(s: State, j: nat)
    requires Inv(s) && Enabled(s, WriterCopies(j))
    ensures Inv(Next(s, WriterCopies(j)))
  {
    ModAdd(|s.log|, j, |s.mem|);
    CopyByte(s.mem, s.head, s.tails, s.log, s.pos, s.flight, j);
  }

  lemma ConfirmKeepsInv(s: State)
    requires Inv(s) && Enabled(s, WriterConfirms)
    ensures Inv(Next(s, WriterConfirms))
  {
    Confirm(s.mem, s.head, s.tails, s.log, s.pos, s.flight);
    LogGrows(s, s.flight.src);
  }

  lemma JoinKeepsInv(s: State)
    requires Inv(s) && Enabled(s, ReaderJoins)
    ensures Inv(Next(s, ReaderJoins))
  {
    Join(s.mem, s.head, s.tails, s.log, s.pos, s.flight);
  }

  /** Looking changes only what the reader has in hand. */
  lemma LookKeepsInv(s: State, i: nat, phase: Phase)
    requires Inv(s) && i < |s.readers|
    requires InHand(s.readers[i].(phase := phase), |s.mem|, s.tails[i], s.log, s.pos[i])
    ensures Inv(s.(readers := s.readers[i := s.readers[i].(phase := phase)]))
  {
    OneReaderChanges(s, i, s.readers[i].(phase := phase), s.tails[i], s.pos[i]);
    assert s.tails[i := s.tails[i]] == s.tails && s.pos[i := s.pos[i]] == s.pos;
  }

  lemma ReaderCheckKeepsInv(s: State, i: nat)
    requires Inv(s) && Enabled(s, ReaderChecks(i))
    ensures Inv(Next(s, ReaderChecks(i)))
  {
    AvailableIsBacklog(s.mem, s.head, s.tails, s.log, s.pos, s.flight, i);
    LookKeepsInv(s, i, Window(AvailableData(|s.mem|, s.head, s.tails[i])));
  }

  lemma ReaderBeginKeepsInv(s: State, i: nat, want: nat)
    requires Inv(s) && Enabled(s, ReaderBegins(i, want))
    ensures Inv(Next(s, ReaderBegins(i, want)))
  {
    AvailableIsBacklog(s.mem, s.head, s.tails, s.log, s.pos, s.flight, i);
    ReadLengthIsContiguous(|s.mem|, s.head, s.tails[i], want);
    LookKeepsInv(s, i, Copying(s.readers[i].phase.available, ReadLength(|s.mem|, s.head, s.tails[i], want), map[]));
  }

  lemma ReaderCopyKeepsInv(s: State, i: nat, j: nat)
    requires Inv(s) && Enabled(s, ReaderCopies(i, j))
    ensures Inv(Next(s, ReaderCopies(i, j)))
  {
    var r := s.readers[i];
    PeekIsLog(s.mem, s.head, s.tails, s.log, s.pos, s.flight, i, j);
    var got := r.phase.got[j := s.log[s.pos[i] + j]];
    LookKeepsInv(s, i, r.phase.(got := got));
  }

  /** A reader moves on by n bytes, of which its tape now has a true account. */
  lemma MoveKeepsInv(s: State, i: nat, n: nat, part: seq<Option<byte>>, phase: Phase)
    requires Inv(s) && i < |s.readers| && |part| == n && s.pos[i] + n <= |s.log|
    requires forall k :: 0 <= k < n && part[k].Some? ==> part[k].value == s.log[s.pos[i] + k]
    requires phase.Resting? || (phase.Window? && s.pos[i] + n + phase.available <= |s.log|)
    ensures Inv(s.(tails := s.tails[i := (s.tails[i] + n) % |s.mem|],
                   pos := s.pos[i := s.pos[i] + n],
                   readers := s.readers[i := Reader(s.readers[i].start, s.readers[i].tape + part, phase)]))
  {
    Advance(s.mem, s.head, s.tails, s.log, s.pos, s.flight, i, n);
    var r := s.readers[i];
    TapeGrows(r, s.log, s.pos[i], part, phase);
    OneReaderChanges(s, i, Reader(r.start, r.tape + part, phase), (s.tails[i] + n) % |s.mem|, s.pos[i] + n);
  }

  lemma TapeGrows(r: Reader, log: bytes, pos: nat, part: seq<Option<byte>>, phase: Phase)
    requires OnTape(r, log, pos) && pos + |part| <= |log|
    requires forall k :: 0 <= k < |part| && part[k].Some? ==> part[k].value == log[pos + k]
    ensures OnTape(Reader(r.start, r.tape + part, phase), log, pos + |part|)
  {
  }

  lemma ReaderConfirmKeepsInv(s: State, i: nat)
    requires Inv(s) && Enabled(s, ReaderConfirms(i))
    ensures Inv(Next(s, ReaderConfirms(i)))
  {
    var p := s.readers[i].phase;
    var copied := seq(p.size, j requires 0 <= j < p.size => Some(p.got[j]));
    MoveKeepsInv(s, i, p.size, copied, Window(p.available - p.size));
  }

  lemma ReaderSkipKeepsInv(s: State, i: nat, n: nat)
    requires Inv(s) && Enabled(s, ReaderSkips(i, n))
    ensures Inv(Next(s, ReaderSkips(i, n)))
  {
    MoveKeepsInv(s, i, n, Discarded(n), Window(s.readers[i].phase.available - n));
  }

  lemma ReaderAlignKeepsInv(s: State, i: nat)
    requires Inv(s) && Enabled(s, ReaderAligns(i))
    ensures Inv(Next(s, ReaderAligns(i)))
  {
    var n := |s.log| - s.pos[i];
    ModAdd(s.pos[i], n, |s.mem|);
    MoveKeepsInv(s, i, n, Discarded(n), Resting);
  }

  /** Every step of every thread keeps the invariant. */
  lemma StepKeepsInv(s: State, e: Event)
    requires Inv(s) && Enabled(s, e)
    ensures Inv(Next(s, e))
  {
    match e
    case WriterChecks => CheckKeepsInv(s);
    case WriterBegins(src) => BeginKeepsInv(s, src);
    case WriterCopies(j) => CopyKeepsInv(s, j);
    case WriterConfirms => ConfirmKeepsInv(s);
    case ReaderJoins => JoinKeepsInv(s);
    case ReaderChecks(i) => ReaderCheckKeepsInv(s, i);
    case ReaderBegins(i, want) => ReaderBeginKeepsInv(s, i, want);
    case ReaderCopies(i, j) => ReaderCopyKeepsInv(s, i, j);
    case ReaderConfirms(i) => ReaderConfirmKeepsInv(s, i);
    case ReaderSkips(i, n) => ReaderSkipKeepsInv(s, i, n);
    case ReaderAligns(i) => ReaderAlignKeepsInv(s, i);
  }

  lemma {:induction false} RunKeepsInv(s: State, events: seq<Event>)
    requires Inv(s) && Runs(s, events)
    ensures Inv(After(s, events))
    decreases |events|
  {
    if events != [] {
      StepKeepsInv(s, events[0]);
      RunKeepsInv(Next(s, events[0]), events[1..]);
    }
  }

  // ------------------------------------------------------------------
  // What every run guarantees
  // ------------------------------------------------------------------

  ghost predicate Reachable(s: State) {
    Shaped(s) &&
    exists mem: bytes, events: seq<Event> ::
      2 <= |mem| && Runs(Initial(mem), events) && s == After(Initial(mem), events)
  }

  lemma ReachableIsSafe(s: State)
    requires Reachable(s)
    ensures Inv(s)
  {
    var mem: bytes, events: seq<Event> :|
      2 <= |mem| && Runs(Initial(mem), events) && s == After(Initial(mem), events);
    EmptyRing(mem);
    RunKeepsInv(Initial(mem), events);
  }

  /** Whatever the interleaving, a reader's copies are the log's bytes, in order and without a gap. */
  lemma CopiesAreTheLog(s: State, i: nat)
    requires Reachable(s) && i < |s.readers|
    ensures var r := s.readers[i];
            && s.pos[i] == r.start + |r.tape| <= |s.log|
            && (forall k :: 0 <= k < |r.tape| && r.tape[k].Some? ==> r.tape[k].value == s.log[r.start + k])
            && ((forall k :: 0 <= k < |r.tape| ==> r.tape[k].Some?) ==>
                  r.tape == seq(|r.tape|, k requires 0 <= k < |r.tape| => Some(s.log[r.start..s.pos[i]][k])))
  {
    ReachableIsSafe(s);
  }

  /** A byte read in the middle of a copy is already the log's byte, though the writer may be copying too. */
  lemma HalfCopiesAreTheLog(s: State, i: nat, j: nat)
    requires Reachable(s) && i < |s.readers| && s.readers[i].phase.Copying? && j < s.readers[i].phase.size
    ensures s.pos[i] + j < |s.log|
    ensures s.mem[Slot(|s.mem|, s.tails[i] + j)] == s.log[s.pos[i] + j]
  {
    ReachableIsSafe(s);
    PeekIsLog(s.mem, s.head, s.tails, s.log, s.pos, s.flight, i, j);
  }

  /** The region being written never meets a byte that some reader has not read. */
  lemma WritesMissUnread(s: State, i: nat, p: nat, j: nat)
    requires Reachable(s) && i < |s.readers|
    requires j < s.flight.room && s.pos[i] <= p < |s.log|
    ensures Slot(|s.mem|, s.head + j) != Slot(|s.mem|, p)
  {
    ReachableIsSafe(s);
    ModAdd(|s.log|, j, |s.mem|);
    FlightMissesUnread(|s.mem|, s.log, s.pos, s.flight.room, j, i, p);
  }

  /** The guard slot: at most data_len - 1 bytes are ever unread. */
  lemma BacklogBound(s: State, i: nat)
    requires Reachable(s) && i < |s.readers|
    ensures 0 <= |s.log| - s.pos[i] <= |s.mem| - 1
    ensures AvailableData(|s.mem|, s.head, s.tails[i]) == |s.log| - s.pos[i]
  {
    ReachableIsSafe(s);
    AvailableIsBacklog(s.mem, s.head, s.tails, s.log, s.pos, s.flight, i);
  }

  /** The log only grows, no reader goes back, and an unmoved reader stays put. */
  lemma {:induction false} RunsOnlyAdvance(s: State, events: seq<Event>, i: nat)
    requires Inv(s) && Runs(s, events) && i < |s.pos|
    ensures var s' := After(s, events);
            && |s'.mem| == |s.mem| && s.log <= s'.log
            && i < |s'.pos| && s.pos[i] <= s'.pos[i]
            && ((forall k :: 0 <= k < |events| ==> !events[k].Moves(i)) ==> s'.pos[i] == s.pos[i])
    decreases |events|
  {
    if events != [] {
      StepKeepsInv(s, events[0]);
      var t := Next(s, events[0]);
      RunsOnlyAdvance(t, events[1..], i);
      if forall k :: 0 <= k < |events| ==> !events[k].Moves(i) {
        assert !events[0].Moves(i);
        forall k | 0 <= k < |events[1..]|
          ensures !events[1..][k].Moves(i)
        {
          assert events[1..][k] == events[k + 1];
        }
      }
    }
  }

  /** A reader that stops consuming bounds everything the writer can still confirm, in any later run. */
  lemma StalledReaderStopsWriter(s: State, events: seq<Event>, i: nat)
    requires Reachable(s) && Runs(s, events) && i < |s.pos|
    requires forall k :: 0 <= k < |events| ==> !events[k].Moves(i)
    ensures |After(s, events).log| <= s.pos[i] + |s.mem| - 1
  {
    ReachableIsSafe(s);
    RunKeepsInv(s, events);
    RunsOnlyAdvance(s, events, i);
  }
}
