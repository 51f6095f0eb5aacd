/**
 The ring as a window on a log.

 The abstract value of a ring is the whole log of bytes ever confirmed, with one
 absolute position per reader.  `Represents` says when memory and offsets are a
 faithful window on that log while the writer may be in the middle of copying
 bytes in, outside the lock.  Each lemma carries it over one kind of step.
 */
module RingLog {
  import opened Bytes
  import opened Modular
  import opened Ring

  /**
   What the writer has in hand.  `room` is the space it was granted under the
   lock and has not used up; `src` is what it is copying (empty between
   copies); `done` are the indices copied so far, in whatever order memcpy
   chooses.
   */
  datatype Flight = Flight(room: nat, src: bytes, done: set<nat>)

  const LANDED := Flight(0, [], {})

  /** No reader is more than a ring less one slot behind what the writer may reach. */
  ghost predicate Within(len: nat, reach: nat, pos: seq<nat>)
    requires 0 < len
  {
    forall i :: 0 <= i < |pos| ==> reach <= pos[i] + len - 1
  }

  ghost predicate Behind(log: bytes, pos: seq<nat>) {
    forall i :: 0 <= i < |pos| ==> pos[i] <= |log|
  }

  /** Every byte some reader has still to read is in memory, where its position says. */
  ghost predicate Unread(mem: bytes, log: bytes, pos: seq<nat>)
    requires 0 < |mem|
  {
    forall i, p :: 0 <= i < |pos| && pos[i] <= p < |log| ==> mem[Slot(|mem|, p)] == log[p]
  }

  /** Every byte copied so far is in memory, ahead of the log. */
  ghost predicate Landing(mem: bytes, log: bytes, w: Flight)
    requires 0 < |mem|
  {
    && |w.src| <= w.room
    && forall j :: j in w.done ==> j < |w.src| && mem[Slot(|mem|, |log| + j)] == w.src[j]
  }

  ghost predicate Represents(mem: bytes, head: nat, tails: seq<nat>, log: bytes, pos: seq<nat>, w: Flight) {
    && 2 <= |mem|
    && head == Slot(|mem|, |log|)
    && |tails| == |pos|
    && (forall i :: 0 <= i < |pos| ==> tails[i] == Slot(|mem|, pos[i]))
    && Behind(log, pos)
    && w.room <= |mem| - 1
    && Within(|mem|, |log| + w.room, pos)
    && Unread(mem, log, pos)
    && Landing(mem, log, w)
  }

  lemma EmptyRing(mem: bytes)
    requires 2 <= |mem|
    ensures Represents(mem, 0, [], [], [], LANDED)
  {
    ModUnique(0, 0, 0, |mem|);
  }

  /** The space check grants room that no reader's unread bytes occupy. */
  lemma GrantRoom(mem: bytes, head: nat, tails: seq<nat>, log: bytes, pos: seq<nat>, w: Flight)
    requires Represents(mem, head, tails, log, pos, w)
    ensures Represents(mem, head, tails, log, pos, Flight(WriterSpace(|mem|, head, tails), [], {}))
  {
    forall i | 0 <= i < |pos|
      ensures |log| + WriterSpace(|mem|, head, tails) <= pos[i] + |mem| - 1
    {
      SpaceForIsFree(|mem|, |log|, pos[i]);
    }
  }

  /** The granted room is the most that could be granted: it is what the slowest reader leaves. */
  lemma RoomIsExact(mem: bytes, head: nat, tails: seq<nat>, log: bytes, pos: seq<nat>, w: Flight, n: nat)
    requires Represents(mem, head, tails, log, pos, w)
    ensures n <= WriterSpace(|mem|, head, tails) <==> Room(|mem|, |log|, n, pos)
  {
    forall i | 0 <= i < |pos|
      ensures SpaceFor(|mem|, head, tails[i]) == |mem| - 1 - (|log| - pos[i])
    {
      SpaceForIsFree(|mem|, |log|, pos[i]);
    }
  }

  /** A log of this length may grow by n bytes without reaching what some reader has still to read. */
  ghost predicate Room(len: nat, written: nat, n: nat, pos: seq<nat>) {
    0 < len && n <= len - 1 && Within(len, written + n, pos)
  }

  /** The readers went on from pos to pos': none went back, and new ones joined where the log ended, or later. */
  ghost predicate Advanced(pos: seq<nat>, pos': seq<nat>, written: nat) {
    && |pos| <= |pos'|
    && (forall i :: 0 <= i < |pos| ==> pos[i] <= pos'[i])
    && (forall i :: |pos| <= i < |pos'| ==> written <= pos'[i])
  }

  lemma AdvancedOn(pos: seq<nat>, mid: seq<nat>, pos': seq<nat>, written: nat, more: nat)
    requires Advanced(pos, mid, written) && Advanced(mid, pos', more) && written <= more
    ensures Advanced(pos, pos', written)
  {
    forall i | 0 <= i < |pos|
      ensures pos[i] <= pos'[i]
    {
      assert pos[i] <= mid[i] <= pos'[i];
    }
  }

  /** The readers only went on, from `pos` through each of `seen` to `pos'`. */
  ghost predicate Onwards(pos: seq<nat>, seen: seq<seq<nat>>, pos': seq<nat>, written: nat) {
    && Advanced(pos, pos', written)
    && (forall k :: 0 <= k < |seen| ==> Advanced(pos, seen[k], written) && Advanced(seen[k], pos', written))
    && (forall j, k :: 0 <= j < k < |seen| ==> Advanced(seen[j], seen[k], written))
  }

  lemma OnwardsSnoc(pos: seq<nat>, seen: seq<seq<nat>>, mid: seq<nat>, here: seq<nat>, pos': seq<nat>, written: nat, more: nat)
    requires Onwards(pos, seen, mid, written) && written <= more
    requires Advanced(mid, here, more) && Advanced(here, pos', more)
    ensures Onwards(pos, seen + [here], pos', written)
  {
    AdvancedOn(pos, mid, here, written, more);
    AdvancedOn(pos, here, pos', written, more);
    forall k | 0 <= k < |seen|
      ensures Advanced(seen[k], here, written) && Advanced(seen[k], pos', written)
    {
      AdvancedOn(seen[k], mid, here, written, more);
      AdvancedOn(seen[k], here, pos', written, more);
    }
  }

  /** Readers going on only make room. */
  lemma RoomStays(len: nat, written: nat, n: nat, pos: seq<nat>, pos': seq<nat>)
    requires Room(len, written, n, pos) && Advanced(pos, pos', written)
    ensures Room(len, written, n, pos')
  {
    forall i | 0 <= i < |pos'|
      ensures written + n <= pos'[i] + len - 1
    {
      if i < |pos| {
        assert pos[i] <= pos'[i];
      }
    }
  }

  /** The in-flight region never meets an unread byte. */
  lemma FlightMissesUnread(len: nat, log: bytes, pos: seq<nat>, room: nat, j: nat, i: nat, p: nat)
    requires 0 < len && Behind(log, pos) && Within(len, |log| + room, pos)
    requires j < room && i < |pos| && pos[i] <= p < |log|
    ensures Slot(len, |log| + j) != Slot(len, p)
  {
    ModDistinct(p, |log| + j, len);
  }

  /** One byte copied outside the lock. */
  lemma CopyByte(mem: bytes, head: nat, tails: seq<nat>, log: bytes, pos: seq<nat>, w: Flight, j: nat)
    requires Represents(mem, head, tails, log, pos, w) && j < |w.src|
    ensures Represents(mem[Slot(|mem|, |log| + j) := w.src[j]], head, tails, log, pos, w.(done := w.done + {j}))
  {
    var len := |mem|;
    var mem' := mem[Slot(len, |log| + j) := w.src[j]];
    forall i, p | 0 <= i < |pos| && pos[i] <= p < |log|
      ensures mem'[Slot(len, p)] == log[p]
    {
      FlightMissesUnread(len, log, pos, w.room, j, i, p);
    }
    forall k | k in w.done
      ensures mem'[Slot(len, |log| + k)] == w.src[k]
    {
      if k != j {
        ModDistinct(|log| + (if k < j then k else j), |log| + (if k < j then j else k), len);
      }
    }
  }

  /** The confirm makes the copied bytes part of the log. */
  lemma Confirm(mem: bytes, head: nat, tails: seq<nat>, log: bytes, pos: seq<nat>, w: Flight)
    requires Represents(mem, head, tails, log, pos, w)
    requires forall j :: 0 <= j < |w.src| ==> j in w.done
    ensures Represents(mem, (head + |w.src|) % |mem|, tails, log + w.src, pos, Flight(w.room - |w.src|, [], {}))
  {
    var log' := log + w.src;
    ModAdd(|log|, |w.src|, |mem|);
    forall i, p | 0 <= i < |pos| && pos[i] <= p < |log'|
      ensures mem[Slot(|mem|, p)] == log'[p]
    {
      if |log| <= p {
        assert p - |log| in w.done;
      }
    }
  }

  /** A new reader starts at the writer's position. */
  lemma Join(mem: bytes, head: nat, tails: seq<nat>, log: bytes, pos: seq<nat>, w: Flight)
    requires Represents(mem, head, tails, log, pos, w)
    ensures Represents(mem, head, tails + [head], log, pos + [|log|], w)
  {
  }

  /** A reader gives back n bytes it had available. */
  lemma Advance(mem: bytes, head: nat, tails: seq<nat>, log: bytes, pos: seq<nat>, w: Flight, i: nat, n: nat)
    requires Represents(mem, head, tails, log, pos, w)
    requires i < |pos| && pos[i] + n <= |log|
    ensures Represents(mem, head, tails[i := (tails[i] + n) % |mem|], log, pos[i := pos[i] + n], w)
  {
    ModAdd(pos[i], n, |mem|);
    var pos' := pos[i := pos[i] + n];
    forall k, p | 0 <= k < |pos'| && pos'[k] <= p < |log|
      ensures mem[Slot(|mem|, p)] == log[p]
    {
      assert pos[k] <= p;
    }
  }

  /** What a reader is told is available is exactly what it has not read. */
  lemma AvailableIsBacklog(mem: bytes, head: nat, tails: seq<nat>, log: bytes, pos: seq<nat>, w: Flight, i: nat)
    requires Represents(mem, head, tails, log, pos, w) && i < |pos|
    ensures AvailableData(|mem|, head, tails[i]) == |log| - pos[i]
  {
    AvailableIsUnread(|mem|, |log|, pos[i]);
  }

  /** Looking `offset` bytes past a reader's tail shows the log at that distance. */
  lemma PeekIsLog(mem: bytes, head: nat, tails: seq<nat>, log: bytes, pos: seq<nat>, w: Flight, i: nat, offset: nat)
    requires Represents(mem, head, tails, log, pos, w)
    requires i < |pos| && pos[i] + offset < |log|
    ensures Slot(|mem|, tails[i] + offset) == Slot(|mem|, pos[i] + offset)
    ensures mem[Slot(|mem|, tails[i] + offset)] == log[pos[i] + offset]
  {
    ModAdd(pos[i], offset, |mem|);
  }

  function Below(n: nat): (indices: set<nat>)
    ensures forall j: nat :: j in indices <==> j < n
  {
    if n == 0 then {} else Below(n - 1) + {n - 1}
  }

  /** All of src written from the head on, by MemWrite's two memcpy calls. */
  lemma WholeCopy(mem: bytes, head: nat, tails: seq<nat>, log: bytes, pos: seq<nat>, w: Flight)
    requires Represents(mem, head, tails, log, pos, w)
    ensures |w.src| <= |mem|
    ensures Represents(Written(mem, head, w.src), head, tails, log, pos, w.(done := Below(|w.src|)))
  {
    var len := |mem|;
    var mem' := Written(mem, head, w.src);
    forall i, p | 0 <= i < |pos| && pos[i] <= p < |log|
      ensures mem'[Slot(len, p)] == log[p]
    {
      forall q | head <= q < head + |w.src|
        ensures Slot(len, q) != Slot(len, p)
      {
        ModAdd(|log|, q - head, len);
        FlightMissesUnread(len, log, pos, w.room, q - head, i, p);
      }
      WrittenElsewhere(mem, head, w.src, Slot(len, p));
    }
    forall j | 0 <= j < |w.src|
      ensures mem'[Slot(len, |log| + j)] == w.src[j]
    {
      ModAdd(|log|, j, len);
      WrittenAt(mem, head, w.src, j);
    }
  }
}
