/**
 Finding the next millisecond in a stream that may start anywhere.

 A millisecond is recognised by a header at its first byte and another header
 just after its last one.
 */
module Resync {
  import opened Bytes
  import opened Frames
  import opened Session

  /** How far one scan looks for a match, and how much has to be there for it. */
  const SCANNED: nat := 8 * BYTES_PER_MS
  const NEEDED: nat := 10 * BYTES_PER_MS

  ghost predicate HeaderAt(log: bytes, p: nat) {
    p + 1 < |log| && IsHeader(log[p], log[p + 1])
  }

  ghost predicate MatchAt(log: bytes, p: nat) {
    HeaderAt(log, p) && HeaderAt(log, p + BYTES_PER_MS)
  }

  ghost predicate NoMatchIn(log: bytes, from: nat, to: nat) {
    forall q :: from <= q < to ==> !MatchAt(log, q)
  }

  /** Headers at `first` and every 3075 bytes from there on, as far as the log goes. */
  ghost predicate WellFramed(log: bytes, first: nat) {
    forall k: nat :: FrameStart(first, k) + 1 < |log| ==> HeaderAt(log, FrameStart(first, k))
  }

  ghost function FrameStart(first: nat, k: nat): nat {
    first + k * BYTES_PER_MS
  }

  /** The reader is just past the first match at or after `start`, and `out` is the millisecond there. */
  ghost predicate Delivered(log: bytes, start: nat, pos: nat, out: bytes) {
    && start + BYTES_PER_MS <= pos <= |log|
    && MatchAt(log, pos - BYTES_PER_MS)
    && NoMatchIn(log, start, pos - BYTES_PER_MS)
    && out == log[pos - BYTES_PER_MS..pos]
  }

  /** `StillWaiting` stands for a thread that has not been woken often enough yet. */
  datatype Outcome = Found | Stopped | StillWaiting

  lemma MatchIsStable(log: bytes, log': bytes, q: nat)
    requires log <= log' && q + BYTES_PER_MS + 1 < |log|
    ensures MatchAt(log, q) <==> MatchAt(log', q)
  {
  }

  /** Does a header sit `offset` bytes past the reader's tail? */
  method PeekHeader(s: BufferSession, id: nat, offset: nat) returns (yes: bool)
    requires s.Valid() && id < |s.pos| && s.pos[id] + offset + 1 < |s.log|
    modifies s, s.ring, s.ring.data, s.ring.readerOffset
    ensures s.Valid() && old(s.log) <= s.log && id < |s.pos| && s.pos[id] == old(s.pos[id])
    ensures yes <==> HeaderAt(s.log, s.pos[id] + offset)
  {
    var b0 := s.Peek(id, offset);
    var b1 := s.Peek(id, offset + 1);
    yes := IsHeader(b0, b1);
  }

  /** A header there, and if so, another one a millisecond further on? */
  method PeekMatch(s: BufferSession, id: nat, offset: nat) returns (yes: bool)
    requires s.Valid() && id < |s.pos| && s.pos[id] + offset + BYTES_PER_MS + 1 < |s.log|
    modifies s, s.ring, s.ring.data, s.ring.readerOffset
    ensures s.Valid() && old(s.log) <= s.log && id < |s.pos| && s.pos[id] == old(s.pos[id])
    ensures yes <==> MatchAt(s.log, s.pos[id] + offset)
  {
    yes := PeekHeader(s, id, offset);
    if yes {
      ghost var before := s.log;
      yes := PeekHeader(s, id, offset + BYTES_PER_MS);
      assert HeaderAt(before, s.pos[id] + offset) ==> HeaderAt(s.log, s.pos[id] + offset);
    }
  }

  /** Scan eight milliseconds past the tail for the first match. */
  method Scan(s: BufferSession, id: nat) returns (found: bool, searchPos: nat)
    requires s.Valid() && id < |s.pos| && s.pos[id] + NEEDED <= |s.log|
    modifies s, s.ring, s.ring.data, s.ring.readerOffset
    ensures s.Valid() && old(s.log) <= s.log && id < |s.pos| && s.pos[id] == old(s.pos[id])
    ensures searchPos <= SCANNED
    ensures NoMatchIn(s.log, s.pos[id], s.pos[id] + searchPos)
    ensures if found then MatchAt(s.log, s.pos[id] + searchPos) else searchPos == SCANNED
  {
    searchPos := 0;
    while searchPos < SCANNED
      invariant s.Valid() && old(s.log) <= s.log && id < |s.pos| && s.pos[id] == old(s.pos[id])
      invariant searchPos <= SCANNED
      invariant NoMatchIn(s.log, s.pos[id], s.pos[id] + searchPos)
    {
      ghost var before := s.log;
      found := PeekMatch(s, id, searchPos);
      NoMatchIsStable(before, s.log, s.pos[id], s.pos[id] + searchPos);
      hide MatchAt;
      if found {
        return;
      }
      searchPos := searchPos + 1;
    }
    found := false;
  }

  lemma NoMatchIsStable(log: bytes, log': bytes, from: nat, to: nat)
    requires log <= log' && to + BYTES_PER_MS < |log| && NoMatchIn(log, from, to)
    ensures NoMatchIn(log', from, to)
  {
    forall q | from <= q < to
      ensures !MatchAt(log', q)
    {
      MatchIsStable(log, log', q);
    }
  }

  /**
   Why a call that may wait and start over `tries` times in all was not enough:
   each time eight milliseconds were flushed, or less than ten were left of
   what was there at the call.
   */
  ghost predicate Exhausted(had: nat, start: nat, pos: nat, tries: nat) {
    start + tries * 24600 <= pos || had < pos + 30750
  }

  /** There is a match for the first k rounds, and all that they need. */
  ghost predicate InRounds(log: bytes, start: nat, k: int) {
    1 <= k && start + (k - 1) * 24600 + 30750 <= |log| && !NoMatchIn(log, start, start + k * 24600)
  }

  /**
   Wait for ten milliseconds of data, scan eight for two headers one
   millisecond apart, and take the millisecond between them; throw eight away
   and start over when there is none.  `wakeups` bounds how often the thread is
   woken and how often it starts over.  `look` is its last check under the lock.
   */
  method GetValidMillisecond(s: BufferSession, id: nat, wakeups: nat) returns (r: Outcome, out: bytes, ghost look: Look)
    requires s.Valid() && id < |s.pos|
    modifies s, s.ring, s.ring.data, s.ring.readerOffset
    ensures s.Valid() && old(s.log) <= s.log && id < |s.pos| && old(s.pos[id]) <= s.pos[id]
    ensures r.Found? ==> Delivered(s.log, old(s.pos[id]), s.pos[id], out) && look.active && 30750 <= look.available
    ensures !r.Found? ==> Cleared(s.log, old(s.pos[id]), s.pos[id])
    ensures r.Stopped? ==> !look.active && !s.ring.recordingActive
    ensures r.StillWaiting? ==> Exhausted(|old(s.log)|, old(s.pos[id]), s.pos[id], wakeups)
    ensures (exists k :: 1 <= k <= wakeups && InRounds(old(s.log), old(s.pos[id]), k)) ==> !r.StillWaiting?
  {
    hide MatchAt;
    hide NoMatchIn;
    hide Cleared;
    hide InRounds;
    hide Exhausted;
    hide BufferSession.Valid;
    out, look := [], Look(0, false);
    var left: nat := wakeups;
    ghost var start, before, rounds: nat := s.pos[id], s.log, 0;
    NothingCleared(before, start);
    while 0 < left
      invariant s.Valid() && old(s.log) <= s.log && id < |s.pos|
      invariant Cleared(s.log, start, s.pos[id])
      invariant s.pos[id] == start + rounds * SCANNED
      invariant left + rounds == wakeups || |before| < s.pos[id] + NEEDED
    {
      r, out, left, look := TryMillisecond(s, id, left, start);
      if !r.StillWaiting? {
        return;
      }
      rounds := rounds + (if s.pos[id] == start + rounds * SCANNED then 0 else 1);
    }
    r := StillWaiting;
    FlushedPast(before, s.log, start, s.pos[id], rounds, wakeups);
  }

  /** Nothing worth having was passed over, and what was passed over is settled by bytes already in the log. */
  ghost predicate Cleared(log: bytes, start: nat, pos: nat) {
    start <= pos && NoMatchIn(log, start, pos) && (pos == start || pos + BYTES_PER_MS < |log|)
  }

  lemma ClearedIsStable(log: bytes, log': bytes, start: nat, pos: nat)
    requires log <= log' && Cleared(log, start, pos)
    ensures Cleared(log', start, pos)
  {
    if pos != start {
      NoMatchIsStable(log, log', start, pos);
    }
  }

  lemma ClearedOn(log: bytes, start: nat, pos: nat, n: nat)
    requires Cleared(log, start, pos) && NoMatchIn(log, pos, pos + n) && pos + n + BYTES_PER_MS < |log|
    ensures Cleared(log, start, pos + n)
  {
  }

  /** If a match for the first rounds had been there at the call, it would have been found. */
  lemma FlushedPast(had: bytes, log: bytes, start: nat, pos: nat, rounds: nat, wakeups: nat)
    requires had <= log && Cleared(log, start, pos) && pos == start + rounds * SCANNED
    requires rounds == wakeups || |had| < pos + NEEDED
    ensures Exhausted(|had|, start, pos, wakeups)
    ensures !exists k :: 1 <= k <= wakeups && InRounds(had, start, k)
  {
    forall k | 1 <= k <= wakeups && start + (k - 1) * SCANNED + NEEDED <= |had|
      ensures NoMatchIn(had, start, start + k * SCANNED)
    {
      assert k <= rounds;
      forall q | start <= q < start + k * SCANNED
        ensures !MatchAt(had, q)
      {
        assert !MatchAt(log, q);
      }
    }
  }

  lemma NothingCleared(log: bytes, start: nat)
    ensures Cleared(log, start, start)
  {
  }

  /** One round: wait, scan, and take the millisecond found or flush what was scanned. */
  method TryMillisecond(s: BufferSession, id: nat, wakeups: nat, ghost start: nat)
    returns (r: Outcome, out: bytes, left: nat, ghost look: Look)
    requires s.Valid() && id < |s.pos| && 0 < wakeups && Cleared(s.log, start, s.pos[id])
    modifies s, s.ring, s.ring.data, s.ring.readerOffset
    ensures s.Valid() && old(s.log) <= s.log && id < |s.pos| && start <= s.pos[id]
    ensures r.Found? ==> Delivered(s.log, start, s.pos[id], out) && look.active && 30750 <= look.available
    ensures !r.Found? ==> Cleared(s.log, start, s.pos[id])
    ensures r.Stopped? ==> !look.active && !s.ring.recordingActive
    ensures r.StillWaiting? ==> left < wakeups
    ensures r.StillWaiting? ==>
      if s.pos[id] == old(s.pos[id]) then left == 0 && |old(s.log)| < s.pos[id] + NEEDED
      else s.pos[id] == old(s.pos[id]) + SCANNED && (left == wakeups - 1 || |old(s.log)| < s.pos[id] + NEEDED)
  {
    out := [];
    ghost var before := s.log;
    var seen;
    ghost var looks;
    seen, left, looks := s.Await(id, NEEDED, wakeups);
    look := seen;
    ClearedIsStable(before, s.log, start, s.pos[id]);
    if !Served(seen, NEEDED) {
      return StillWaiting, out, left, look;
    }
    if left > 0 {
      left := left - 1;
    }
    if !seen.active {
      return Stopped, out, left, look;
    }
    var found;
    found, out := ScanAndTake(s, id, start);
    r := if found then Found else StillWaiting;
  }

  /** Take the millisecond found in the next eight, or flush them. */
  method ScanAndTake(s: BufferSession, id: nat, ghost start: nat) returns (found: bool, out: bytes)
    requires s.Valid() && id < |s.pos| && Cleared(s.log, start, s.pos[id])
    requires s.pos[id] + NEEDED <= |s.log|
    modifies s, s.ring, s.ring.data, s.ring.readerOffset
    ensures s.Valid() && old(s.log) <= s.log && id < |s.pos|
    ensures if found then Delivered(s.log, start, s.pos[id], out)
            else Cleared(s.log, start, s.pos[id]) && s.pos[id] == old(s.pos[id]) + SCANNED
  {
    out := [];
    ghost var before := s.log;
    var searchPos;
    found, searchPos := Scan(s, id);
    ClearedIsStable(before, s.log, start, s.pos[id]);
    ClearedOn(s.log, start, s.pos[id], searchPos);
    if found {
      out := Deliver(s, id, start, searchPos);
    } else {
      before := s.log;
      s.OtherThreads(id);
      ClearedIsStable(before, s.log, start, s.pos[id] + searchPos);
      s.GiveBack(id, SCANNED);
    }
  }

  /** The match is at searchPos: give back what is before it and take the millisecond. */
  method Deliver(s: BufferSession, id: nat, ghost start: nat, searchPos: nat) returns (out: bytes)
    requires s.Valid() && id < |s.pos| && start <= s.pos[id]
    requires NoMatchIn(s.log, start, s.pos[id] + searchPos) && MatchAt(s.log, s.pos[id] + searchPos)
    modifies s, s.ring, s.ring.data, s.ring.readerOffset
    ensures s.Valid() && old(s.log) <= s.log && id < |s.pos|
    ensures Delivered(s.log, start, s.pos[id], out)
  {
    ghost var before := s.log;
    if searchPos > 0 {
      s.OtherThreads(id);
      s.GiveBack(id, searchPos);
    }
    out := s.TakeBlock(id, BYTES_PER_MS);
    NoMatchIsStable(before, s.log, start, old(s.pos[id]) + searchPos);
    MatchIsStable(before, s.log, old(s.pos[id]) + searchPos);
  }

  /** On a well-framed stream resynchronising never discards a whole millisecond, and discards nothing when aligned. */
  lemma WellFramedDiscard(log: bytes, start: nat, phase: nat, p: nat)
    requires phase < BYTES_PER_MS && WellFramed(log, start + phase)
    requires start <= p && MatchAt(log, p) && NoMatchIn(log, start, p)
    ensures p - start <= phase
  {
    var first := start + phase;
    assert FrameStart(first, 0) == first && FrameStart(first, 1) == first + BYTES_PER_MS;
    assert first + BYTES_PER_MS + 1 < |log| ==> MatchAt(log, first);
  }

  /** Nor is more than the phase discarded when no millisecond is delivered. */
  lemma WellFramedGivingUp(log: bytes, start: nat, phase: nat, pos: nat)
    requires phase < BYTES_PER_MS && WellFramed(log, start + phase) && Cleared(log, start, pos)
    ensures pos - start <= phase
  {
    var first := start + phase;
    assert FrameStart(first, 0) == first && FrameStart(first, 1) == first + BYTES_PER_MS;
    assert first + BYTES_PER_MS + 1 < |log| ==> MatchAt(log, first);
  }
}
