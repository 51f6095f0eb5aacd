/**
 What the interleaved ring can do, and what its runs amount to: the log is what
 the writer confirmed, a source that fits can be written, and bytes that are
 there can be read.
 */
module RingProgress {
  import opened Bytes
  import opened Ring
  import opened RingLog
  import opened RingRuns

  // ------------------------------------------------------------------
  // The log is what was confirmed
  // ------------------------------------------------------------------

  /** The sources confirmed in a run, of which `pending` is the one in hand when it begins. */
  function Confirmed(events: seq<Event>, pending: bytes): bytes
    decreases |events|
  {
    if events == [] then []
    else match events[0]
      case WriterBegins(src) => Confirmed(events[1..], src)
      case WriterConfirms => pending + Confirmed(events[1..], [])
      case _ => Confirmed(events[1..], pending)
  }

  /** Whatever the interleaving, the log grows by exactly the sources that the writer begins and confirms. */
  lemma {:induction false} LogIsConfirmed(s: State, events: seq<Event>)
    requires Runs(s, events)
    ensures After(s, events).log == s.log + Confirmed(events, s.flight.src)
    decreases |events|
  {
    if events == [] {
      assert s.log + [] == s.log;
    } else {
      LogIsConfirmed(Next(s, events[0]), events[1..]);
      if events[0].WriterConfirms? {
        assert (s.log + s.flight.src) + Confirmed(events[1..], []) == s.log + (s.flight.src + Confirmed(events[1..], []));
      }
    }
  }

  // ------------------------------------------------------------------
  // Runs one after another
  // ------------------------------------------------------------------

  lemma {:induction false} RunsJoin(s: State, a: seq<Event>, b: seq<Event>)
    requires Runs(s, a) && Runs(After(s, a), b)
    ensures Runs(s, a + b) && After(s, a + b) == After(After(s, a), b)
    decreases |a|
  {
    hide Next;
    hide Enabled;
    if a == [] {
      assert a + b == b;
    } else {
      RunsJoin(Next(s, a[0]), a[1..], b);
      assert (a + b)[1..] == a[1..] + b;
    }
  }

  lemma OneEvent(s: State, e: Event)
    requires Inv(s) && Enabled(s, e)
    ensures Inv(Next(s, e)) && Runs(s, [e]) && After(s, [e]) == Next(s, e)
  {
    StepKeepsInv(s, e);
    hide Next;
    hide Enabled;
    assert [e][1..] == [];
  }

  /** One more event at the front. */
  lemma EventFirst(s: State, e: Event, events: seq<Event>)
    requires Inv(s) && Enabled(s, e) && Runs(Next(s, e), events)
    ensures Runs(s, [e] + events) && After(s, [e] + events) == After(Next(s, e), events)
  {
    OneEvent(s, e);
    hide Next;
    hide Enabled;
    RunsJoin(s, [e], events);
  }

  // ------------------------------------------------------------------
  // Writing
  // ------------------------------------------------------------------

  function WriterCopiesFrom(j: nat, n: nat): seq<Event>
    decreases n - j
  {
    if j >= n then [] else [WriterCopies(j)] + WriterCopiesFrom(j + 1, n)
  }

  /** Only the bytes in flight have changed. */
  ghost predicate OnlyCopied(s: State, s': State) {
    s' == s.(mem := s'.mem, flight := s.flight.(done := s'.flight.done)) && |s'.mem| == |s.mem|
  }

  lemma {:induction false} WriterCopiesRest(s: State, j: nat)
    requires Inv(s) && j <= |s.flight.src| && forall k :: 0 <= k < j ==> k in s.flight.done
    ensures Runs(s, WriterCopiesFrom(j, |s.flight.src|))
    ensures var s' := After(s, WriterCopiesFrom(j, |s.flight.src|));
            Inv(s') && OnlyCopied(s, s') && forall k :: 0 <= k < |s.flight.src| ==> k in s'.flight.done
    decreases |s.flight.src| - j
  {
    if j < |s.flight.src| {
      var t := Next(s, WriterCopies(j));
      StepKeepsInv(s, WriterCopies(j));
      hide Inv;
      WriterCopiesRest(t, j + 1);
      EventFirst(s, WriterCopies(j), WriterCopiesFrom(j + 1, |s.flight.src|));
    }
  }

  function WriteRun(src: bytes): seq<Event> {
    [WriterChecks] + ([WriterBegins(src)] + (WriterCopiesFrom(0, |src|) + [WriterConfirms]))
  }

  /**
   From every reachable state an idle writer can put any source that fits at the
   end of the log, and has the rest of the room left; the readers are as they
   were.
   */
  lemma WriterCanWrite(s: State, src: bytes)
    requires Reachable(s) && s.flight.src == [] && |src| <= WriterSpace(|s.mem|, s.head, s.tails)
    ensures Runs(s, WriteRun(src))
    ensures var s' := After(s, WriteRun(src));
            && s'.log == s.log + src && s'.pos == s.pos && s'.tails == s.tails && s'.readers == s.readers
            && s'.flight == Flight(WriterSpace(|s.mem|, s.head, s.tails) - |src|, [], {})
  {
    ReachableIsSafe(s);
    StepKeepsInv(s, WriterChecks);
    var checked := Next(s, WriterChecks);
    StepKeepsInv(checked, WriterBegins(src));
    var begun := Next(checked, WriterBegins(src));
    WriterCopiesRest(begun, 0);
    var copies := WriterCopiesFrom(0, |src|);
    var copied := After(begun, copies);
    OneEvent(copied, WriterConfirms);
    RunsJoin(begun, copies, [WriterConfirms]);
    EventFirst(checked, WriterBegins(src), copies + [WriterConfirms]);
    EventFirst(s, WriterChecks, [WriterBegins(src)] + (copies + [WriterConfirms]));
  }

  // ------------------------------------------------------------------
  // Reading
  // ------------------------------------------------------------------

  function ReaderCopiesFrom(i: nat, j: nat, n: nat): seq<Event>
    decreases n - j
  {
    if j >= n then [] else [ReaderCopies(i, j)] + ReaderCopiesFrom(i, j + 1, n)
  }

  /** Only what reader i has in hand has changed. */
  ghost predicate OnlyHeld(s: State, s': State, i: nat)
    requires i < |s.readers|
  {
    && |s'.readers| == |s.readers| && s' == s.(readers := s.readers[i := s'.readers[i]])
    && s'.readers[i] == s.readers[i].(phase := s'.readers[i].phase)
  }

  ghost predicate CopyingTo(s: State, i: nat, a: nat, n: nat, j: nat) {
    && i < |s.readers| && s.readers[i].phase.Copying? && s.readers[i].phase.size == n <= s.readers[i].phase.available == a
    && forall k :: 0 <= k < j ==> k in s.readers[i].phase.got
  }

  lemma OneCopy(s: State, i: nat, a: nat, n: nat, j: nat)
    requires Inv(s) && j < n && CopyingTo(s, i, a, n, j)
    ensures Enabled(s, ReaderCopies(i, j))
    ensures var t := Next(s, ReaderCopies(i, j)); Inv(t) && OnlyHeld(s, t, i) && CopyingTo(t, i, a, n, j + 1)
  {
    StepKeepsInv(s, ReaderCopies(i, j));
    hide Inv;
  }

  lemma OnlyHeldOn(s: State, t: State, s': State, i: nat)
    requires i < |s.readers| && OnlyHeld(s, t, i) && OnlyHeld(t, s', i)
    ensures OnlyHeld(s, s', i)
  {
  }

  lemma {:induction false} ReaderCopiesRest(s: State, i: nat, a: nat, n: nat, j: nat)
    requires Inv(s) && j <= n && CopyingTo(s, i, a, n, j)
    ensures Runs(s, ReaderCopiesFrom(i, j, n))
    ensures i < |s.readers|
    ensures var s' := After(s, ReaderCopiesFrom(i, j, n)); Inv(s') && OnlyHeld(s, s', i) && CopyingTo(s', i, a, n, n)
    decreases n - j
  {
    if j < n {
      OneCopy(s, i, a, n, j);
      hide Inv;
      hide Next;
      hide Enabled;
      var t := Next(s, ReaderCopies(i, j));
      ReaderCopiesRest(t, i, a, n, j + 1);
      EventFirst(s, ReaderCopies(i, j), ReaderCopiesFrom(i, j + 1, n));
      OnlyHeldOn(s, t, After(s, ReaderCopiesFrom(i, j, n)), i);
    }
  }

  function ReadRun(i: nat, want: nat, n: nat): seq<Event> {
    [ReaderChecks(i)] + ([ReaderBegins(i, want)] + (ReaderCopiesFrom(i, 0, n) + [ReaderConfirms(i)]))
  }

  /** Reader i has read n bytes more than in s, the log's, of the a that it found; nothing else has changed. */
  ghost predicate HasRead(s: State, s': State, i: nat, a: nat, n: nat)
    requires i < |s.readers| && i < |s.pos| && s.pos[i] + n <= |s.log| && n <= a
  {
    && s'.log == s.log && s'.mem == s.mem && s'.flight == s.flight
    && s'.pos == s.pos[i := s.pos[i] + n] && |s'.readers| == |s.readers|
    && s'.readers[i].phase == Window(a - n)
    && s'.readers[i].tape == s.readers[i].tape + seq(n, k requires 0 <= k < n => Some(s.log[s.pos[i] + k]))
    && forall j :: 0 <= j < |s.readers| && j != i ==> s'.readers[j] == s.readers[j]
  }

  /** The copies of a read, and its confirm. */
  lemma ReadOut(s: State, i: nat, a: nat, n: nat)
    requires Inv(s) && CopyingTo(s, i, a, n, 0)
    ensures i < |s.readers| && i < |s.pos| && s.pos[i] + n <= |s.log| && n <= a
    ensures Runs(s, ReaderCopiesFrom(i, 0, n) + [ReaderConfirms(i)])
    ensures HasRead(s, After(s, ReaderCopiesFrom(i, 0, n) + [ReaderConfirms(i)]), i, a, n)
  {
    hide Inv;
    hide Next;
    hide Enabled;
    hide Runs;
    hide After;
    hide ReaderCopiesFrom;
    hide CopyingTo;
    hide HasRead;
    var copies := ReaderCopiesFrom(i, 0, n);
    ReaderCopiesRest(s, i, a, n, 0);
    var copied := After(s, copies);
    ConfirmIsRead(copied, i, a, n);
    RunsJoin(s, copies, [ReaderConfirms(i)]);
    HasReadFrom(s, copied, After(copied, [ReaderConfirms(i)]), i, a, n);
  }

  lemma HasReadFrom(s: State, t: State, s': State, i: nat, a: nat, n: nat)
    requires i < |s.readers| && OnlyHeld(s, t, i) && i < |t.pos| && t.pos[i] + n <= |t.log| && n <= a && HasRead(t, s', i, a, n)
    ensures i < |s.pos| && s.pos[i] + n <= |s.log| && HasRead(s, s', i, a, n)
  {
  }

  lemma ConfirmIsRead(s: State, i: nat, a: nat, n: nat)
    requires Inv(s) && CopyingTo(s, i, a, n, n)
    ensures i < |s.readers| && i < |s.pos| && s.pos[i] + n <= |s.log| && n <= a
    ensures Runs(s, [ReaderConfirms(i)]) && HasRead(s, After(s, [ReaderConfirms(i)]), i, a, n)
  {
    OneEvent(s, ReaderConfirms(i));
    HeldIsLog(s, i, a, n);
  }

  /** What a reader has copied is the log's. */
  lemma HeldIsLog(s: State, i: nat, a: nat, n: nat)
    requires Inv(s) && CopyingTo(s, i, a, n, n)
    ensures s.pos[i] + n <= |s.log| && forall k :: 0 <= k < n ==> s.readers[i].phase.got[k] == s.log[s.pos[i] + k]
  {
  }

  lemma InvIsShaped(s: State)
    requires Inv(s)
    ensures Shaped(s)
  {
  }

  /** The check, and the beginning of a read. */
  lemma ReadBegins(s: State, i: nat, want: nat)
    requires Inv(s) && i < |s.readers| && !s.readers[i].phase.Copying? && s.pos[i] + want <= |s.log|
    ensures Enabled(s, ReaderChecks(i))
    ensures var checked := Next(s, ReaderChecks(i));
            && Inv(checked) && Enabled(checked, ReaderBegins(i, want))
            && var begun := Next(checked, ReaderBegins(i, want));
               && Inv(begun) && OnlyHeld(s, begun, i)
               && CopyingTo(begun, i, |s.log| - s.pos[i], if s.tails[i] + want <= |s.mem| then want else |s.mem| - s.tails[i], 0)
  {
    AvailableIsBacklog(s.mem, s.head, s.tails, s.log, s.pos, s.flight, i);
    ReadLengthIsContiguous(|s.mem|, s.head, s.tails[i], want);
    StepKeepsInv(s, ReaderChecks(i));
    var checked := Next(s, ReaderChecks(i));
    StepKeepsInv(checked, ReaderBegins(i, want));
    hide Inv;
  }

  /**
   From every reachable state a reader that is not in the middle of a copy can
   read any number of the bytes it has not read, up to the end of memory, and has
   the log's bytes then; nothing else changes.
   */
  lemma ReaderCanRead(s: State, i: nat, want: nat)
    requires Reachable(s) && i < |s.readers| && !s.readers[i].phase.Copying? && s.pos[i] + want <= |s.log|
    ensures var n := if s.tails[i] + want <= |s.mem| then want else |s.mem| - s.tails[i];
            && Runs(s, ReadRun(i, want, n)) && s.pos[i] + n <= |s.log|
            && HasRead(s, After(s, ReadRun(i, want, n)), i, |s.log| - s.pos[i], n)
  {
    hide Inv;
    hide Next;
    hide Enabled;
    hide Runs;
    hide After;
    hide Reachable;
    hide ReaderCopiesFrom;
    hide CopyingTo;
    hide HasRead;
    ReachableIsSafe(s);
    ReadBegins(s, i, want);
    InvIsShaped(s);
    InvIsShaped(Next(s, ReaderChecks(i)));
    var n := if s.tails[i] + want <= |s.mem| then want else |s.mem| - s.tails[i];
    var checked := Next(s, ReaderChecks(i));
    var begun := Next(checked, ReaderBegins(i, want));
    ReadOut(begun, i, |s.log| - s.pos[i], n);
    var rest := ReaderCopiesFrom(i, 0, n) + [ReaderConfirms(i)];
    EventFirst(checked, ReaderBegins(i, want), rest);
    EventFirst(s, ReaderChecks(i), [ReaderBegins(i, want)] + rest);
    HasReadFrom(s, begun, After(begun, rest), i, |s.log| - s.pos[i], n);
  }

  lemma SkipMoves(s: State, i: nat, n: nat)
    requires Inv(s) && i < |s.readers| && !s.readers[i].phase.Copying? && s.pos[i] + n <= |s.log|
    ensures Enabled(s, ReaderChecks(i))
    ensures var checked := Next(s, ReaderChecks(i));
            && Inv(checked) && Enabled(checked, ReaderSkips(i, n))
            && Next(checked, ReaderSkips(i, n)).pos == s.pos[i := s.pos[i] + n]
  {
    AvailableIsBacklog(s.mem, s.head, s.tails, s.log, s.pos, s.flight, i);
    StepKeepsInv(s, ReaderChecks(i));
    hide Inv;
  }

  /** It can also pass any number of them over. */
  lemma ReaderCanSkip(s: State, i: nat, n: nat)
    requires Reachable(s) && i < |s.readers| && !s.readers[i].phase.Copying? && s.pos[i] + n <= |s.log|
    ensures var run := [ReaderChecks(i)] + [ReaderSkips(i, n)];
            Runs(s, run) && After(s, run).pos == s.pos[i := s.pos[i] + n]
  {
    hide Inv;
    hide Next;
    hide Enabled;
    hide Runs;
    hide After;
    hide Reachable;
    ReachableIsSafe(s);
    SkipMoves(s, i, n);
    InvIsShaped(s);
    InvIsShaped(Next(s, ReaderChecks(i)));
    OneEvent(Next(s, ReaderChecks(i)), ReaderSkips(i, n));
    EventFirst(s, ReaderChecks(i), [ReaderSkips(i, n)]);
  }

  /** Or all there are at once. */
  lemma ReaderCanAlign(s: State, i: nat)
    requires Reachable(s) && i < |s.readers| && !s.readers[i].phase.Copying?
    ensures Runs(s, [ReaderAligns(i)]) && After(s, [ReaderAligns(i)]).pos == s.pos[i := |s.log|]
  {
    BacklogBound(s, i);
    ReachableIsSafe(s);
    OneEvent(s, ReaderAligns(i));
    hide Inv;
    hide Runs;
    hide After;
  }
}
