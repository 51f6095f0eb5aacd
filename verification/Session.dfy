/**
 A buffer session: the shared ring, the abstract log it represents, and the
 threads that run beside the one being studied.

 `OtherThreads` lets every other thread take any number of its own steps.  A
 client method calls it wherever its own thread does not hold the lock, down to
 single bytes of a copy, so what is proved of the client holds under every
 interleaving.
 */
module Session {
  import opened Bytes
  import opened Ring
  import opened RingLog

  lemma SliceJoin(first: bytes, second: bytes, mid: bytes, log: bytes, a: nat, b: nat, c: nat)
    requires a <= b <= c <= |log| && b <= |mid| && mid <= log
    requires first == mid[a..b] && second == log[b..c]
    ensures first + second == log[a..c]
  {
    assert mid[a..b] == log[a..b];
  }

  /** What a thread sees under the lock: how much it has not read yet, and whether a recording goes on. */
  datatype Look = Look(available: nat, active: bool)

  /**
   The checks of a wait for `want` bytes when `least` were there at the call:
   each but the last found too little, in a recording going on.
   */
  ghost predicate Waited(looks: seq<Look>, want: nat, least: int) {
    && looks != []
    && (forall k :: 0 <= k < |looks| ==> least <= looks[k].available)
    && (forall k :: 0 <= k < |looks| - 1 ==> !Served(looks[k], want))
  }

  lemma FirstLook(look: Look, want: nat, least: int) returns (looks: seq<Look>)
    requires least <= look.available
    ensures looks == [look] && Waited(looks, want, least)
  {
    looks := [look];
  }

  /** When the bytes are there at the call, the first check is the last. */
  lemma NothingToWaitFor(looks: seq<Look>, want: nat, least: int)
    requires Waited(looks, want, least)
    ensures looks != [] && (want <= least ==> |looks| == 1 && want <= looks[0].available)
  {
    assert want <= least && 1 < |looks| ==> Served(looks[0], want);
  }

  lemma WaitedMore(looks: seq<Look>, want: nat, least: int, look: Look)
    requires Waited(looks, want, least) && !Served(looks[|looks| - 1], want) && least <= look.available
    ensures Waited(looks + [look], want, least)
  {
  }

  /** It has been waited for: enough is there, or the recording is over. */
  predicate Served(look: Look, want: nat) {
    want <= look.available || !look.active
  }

  /** How much of `want` bytes from a position on lies in one piece of a ring of `len` bytes. */
  ghost function OnePiece(len: nat, pos: nat, want: nat): nat
    requires 0 < len
  {
    if Slot(len, pos) + want <= len then want else len - Slot(len, pos)
  }

  class BufferSession {
    const ring: CircularBuffer
    var flight: Flight              // what the writer thread has in hand
    ghost var log: bytes            // every byte confirmed so far
    ghost var pos: seq<nat>         // how much of it each reader has consumed
    var recordingId: int            // recordingInfo.id
    var shouldRecord: bool          // recordingInfo.record

    ghost predicate Valid()
      reads this, ring, ring.data, ring.readerOffset
    {
      && ring.Valid()
      && Represents(ring.data[..], ring.head, ring.Tails(), log, pos, flight)
    }

    ghost function Mem(): bytes
      reads ring.data
    {
      ring.data[..]
    }

    constructor (bufferSize: nat)
      requires 2 <= bufferSize
      ensures Valid() && log == [] && pos == []
      ensures fresh(ring) && fresh(ring.data) && fresh(ring.readerOffset)
    {
      ring := new CircularBuffer(bufferSize);
      flight := LANDED;
      log, pos := [], [];
      recordingId, shouldRecord := 0, false;
      new;
      EmptyRing(ring.data[..]);
    }

    // ----------------------------------------------------------------
    // The threads beside this one
    // ----------------------------------------------------------------

    /** One step of the writer thread: check, begin, copy one byte, or confirm. */
    method WriterStep()
      requires Valid()
      modifies this`flight, this`log, ring`head, ring.data
      ensures Valid() && old(log) <= log
    {
      if
      case flight.src == [] =>
        var space := CheckSpace();
      case flight.src == [] =>
        var src: bytes := *;
        if |src| <= flight.room {
          flight := Flight(flight.room, src, {});
        }
      case flight.src != [] =>
        var j: nat := *;
        if j < |flight.src| {
          WriteByte(j);
        }
      case flight.src != [] =>
        var copied := forall j :: 0 <= j < |flight.src| ==> j in flight.done;
        if copied {
          ConfirmCopied();
        }
    }

    /** WriterSpace, under the lock. */
    method CheckSpace() returns (space: nat)
      requires Valid() && flight.src == []
      modifies this`flight
      ensures Valid() && flight == Flight(space, [], {})
      ensures space == WriterSpace(ring.data.Length, ring.head, ring.Tails())
    {
      GrantRoom(Mem(), ring.head, ring.Tails(), log, pos, flight);
      space := ring.SpaceForWriter();
      flight := Flight(space, [], {});
    }

    /** What the space check would grant, in terms of how far the readers are. */
    lemma RoomForNow(n: nat)
      requires Valid()
      ensures n <= WriterSpace(ring.data.Length, ring.head, ring.Tails()) <==> Room(ring.data.Length, |log|, n, pos)
    {
      RoomIsExact(Mem(), ring.head, ring.Tails(), log, pos, flight, n);
    }

    /** ConfirmWrite, under the lock, of a copy that is complete. */
    method ConfirmCopied()
      requires Valid() && forall j :: 0 <= j < |flight.src| ==> j in flight.done
      modifies this`flight, this`log, ring`head
      ensures Valid() && log == old(log) + old(flight.src)
      ensures flight == Flight(old(flight.room) - |old(flight.src)|, [], {})
    {
      Confirm(Mem(), ring.head, ring.Tails(), log, pos, flight);
      ring.ConfirmWrite(|flight.src|);
      log := log + flight.src;
      flight := Flight(flight.room - |flight.src|, [], {});
    }

    method WriteByte(j: nat)
      requires Valid() && j < |flight.src|
      modifies this`flight, ring.data
      ensures Valid() && flight == old(flight).(done := old(flight.done) + {j})
    {
      CopyByte(Mem(), ring.head, ring.Tails(), log, pos, flight, j);
      Modular.ModAdd(|log|, j, ring.data.Length);
      ghost var slot := Slot(ring.data.Length, |log| + j);
      ghost var before := ring.data[..];
      ring.data[(ring.head + j) % ring.data.Length] := flight.src[j];
      assert ring.data[..] == before[slot := flight.src[j]];
      flight := flight.(done := flight.done + {j});
    }

    /** One step of the other readers, all of them when `me` is -1: one joins, or one gives back bytes it had. */
    method OtherReaderStep(me: int)
      requires Valid() && -1 <= me < |pos|
      modifies this`pos, ring`readerCnt, ring.readerOffset
      ensures Valid() && me < |pos| && (0 <= me ==> pos[me] == old(pos[me]))
      ensures Advanced(old(pos), pos, |log|)
    {
      if
      case true =>
        if ring.readerCnt < READER_MAX_CAP {
          var id := Join();
        }
      case true =>
        var i: nat, n: nat := *, *;
        if i < ring.readerCnt && i != me {
          AvailableIsBacklog(Mem(), ring.head, ring.Tails(), log, pos, flight, i);
          var available := ring.Available(i);
          if n <= available {
            GiveBack(i, n);
          }
        }
    }

    /** Any number of steps of all the other threads, a writer among them; the recording flag is theirs too. */
    method OtherThreads(me: nat)
      requires Valid() && me < |pos|
      modifies this, ring, ring.data, ring.readerOffset
      ensures Valid() && old(log) <= log && me < |pos| && pos[me] == old(pos[me])
      ensures ring.Tails()[me] == old(ring.Tails()[me])
    {
      var steps: nat := *;
      while steps > 0
        decreases steps
        invariant Valid() && old(log) <= log && me < |pos| && pos[me] == old(pos[me])
      {
        if {
          case true => WriterStep();
          case true => OtherReaderStep(me);
          case true =>
            ring.recordingActive := *;
            recordingId := *;
            shouldRecord := *;
        }
        steps := steps - 1;
      }
    }

    /** Any number of steps of the readers, seen from the writer thread: they never take up room. */
    method Readers()
      requires Valid()
      modifies this`pos, ring`readerCnt, ring.readerOffset
      ensures Valid() && Advanced(old(pos), pos, |log|)
    {
      var steps: nat := *;
      while steps > 0
        decreases steps
        invariant Valid() && Advanced(old(pos), pos, |log|)
      {
        ghost var before := pos;
        OtherReaderStep(-1);
        AdvancedOn(old(pos), before, pos, |log|, |log|);
        steps := steps - 1;
      }
    }

    // ----------------------------------------------------------------
    // What a client thread does
    // ----------------------------------------------------------------

    /** Registration, under the lock. */
    method Join() returns (id: nat)
      requires Valid() && ring.readerCnt < READER_MAX_CAP
      modifies this`pos, ring`readerCnt, ring.readerOffset
      ensures Valid() && id == old(|pos|) && pos == old(pos) + [|log|]
    {
      RingLog.Join(Mem(), ring.head, ring.Tails(), log, pos, flight);
      id := ring.Register();
      pos := pos + [|log|];
    }

    /** ConfirmRead, under the lock. */
    method GiveBack(id: nat, n: nat)
      requires Valid() && id < |pos| && pos[id] + n <= |log|
      modifies this`pos, ring.readerOffset
      ensures Valid() && pos == old(pos)[id := old(pos[id]) + n]
      ensures ring.Tails()[id] == (old(ring.Tails()[id]) + n) % ring.data.Length
    {
      Advance(Mem(), ring.head, ring.Tails(), log, pos, flight, id, n);
      ring.ConfirmRead(id, n);
      pos := pos[id := pos[id] + n];
    }

    /** AvailableData, under the lock. */
    method Backlog(id: nat) returns (available: nat)
      requires Valid() && id < |pos|
      ensures available == |log| - pos[id]
    {
      AvailableIsBacklog(Mem(), ring.head, ring.Tails(), log, pos, flight, id);
      available := ring.Available(id);
    }

    /** One byte read outside the lock, `offset` past the tail. */
    method Peek(id: nat, offset: nat) returns (b: byte)
      requires Valid() && id < |pos| && pos[id] + offset < |log|
      modifies this, ring, ring.data, ring.readerOffset
      ensures Valid() && old(log) <= log && id < |pos| && pos[id] == old(pos[id])
      ensures b == log[pos[id] + offset]
    {
      OtherThreads(id);
      PeekIsLog(Mem(), ring.head, ring.Tails(), log, pos, flight, id, offset);
      b := ring.data[(ring.readerOffset[id] + offset) % ring.data.Length];
    }

    /** ReadData, under the lock: how much of `want` available bytes is in one piece. */
    method Contiguous(id: nat, want: nat) returns (at: nat, n: nat)
      requires Valid() && id < |pos| && pos[id] + want <= |log|
      ensures at == ring.Tails()[id] && at + n <= ring.data.Length
      ensures n == OnePiece(ring.data.Length, pos[id], want) <= want && (0 < want ==> 0 < n)
      ensures n < want ==> at + n == ring.data.Length
    {
      AvailableIsBacklog(Mem(), ring.head, ring.Tails(), log, pos, flight, id);
      ReadLengthIsContiguous(ring.data.Length, ring.head, ring.Tails()[id], want);
      at, n := ring.ReadData(id, want);
    }

    /** memcpy, fwrite or send from the ring, outside the lock, one byte at a time. */
    method CopyOut(id: nat, at: nat, n: nat) returns (out: bytes)
      requires Valid() && id < |pos| && pos[id] + n <= |log|
      requires at == ring.Tails()[id] && at + n <= ring.data.Length
      modifies this, ring, ring.data, ring.readerOffset
      ensures Valid() && old(log) <= log && id < |pos| && pos[id] == old(pos[id])
      ensures out == log[pos[id]..pos[id] + n]
    {
      out := [];
      for j := 0 to n
        invariant Valid() && old(log) <= log && id < |pos| && pos[id] == old(pos[id])
        invariant at == ring.Tails()[id]
        invariant out == log[pos[id]..pos[id] + j]
      {
        OtherThreads(id);
        PeekIsLog(Mem(), ring.head, ring.Tails(), log, pos, flight, id, j);
        Modular.ModUnique(at + j, 0, at + j, ring.data.Length);
        out := out + [ring.data[at + j]];
      }
    }

    /** The part of a block that wrapped: it starts at the beginning of memory and is in one piece. */
    method CopyWrapped(id: nat, n: nat) returns (out: bytes)
      requires Valid() && id < |pos| && pos[id] + n <= |log|
      requires ring.Tails()[id] == 0
      modifies this, ring, ring.data, ring.readerOffset
      ensures Valid() && old(log) <= log && id < |pos| && pos[id] == old(pos[id])
      ensures out == log[pos[id]..pos[id] + n]
    {
      OtherThreads(id);
      assert n <= ring.data.Length - 1;
      var at, readLen := Contiguous(id, n);
      out := CopyOut(id, at, n);
    }

    /** Give back the part read up to the end of memory, then copy the part that wrapped. */
    method TakeWrapped(id: nat, at: nat, firstPart: nat, want: nat) returns (second: bytes)
      requires Valid() && id < |pos| && pos[id] + want <= |log|
      requires at == ring.Tails()[id] && firstPart < want && at + firstPart == ring.data.Length
      modifies this, ring, ring.data, ring.readerOffset
      ensures Valid() && old(log) <= log && id < |pos| && pos[id] == old(pos[id]) + firstPart
      ensures pos[id] + want - firstPart <= |log|
      ensures second == log[pos[id]..pos[id] + want - firstPart]
    {
      OtherThreads(id);
      GiveBack(id, firstPart);
      Modular.ModUnique(at + firstPart, 1, 0, ring.data.Length);
      second := CopyWrapped(id, want - firstPart);
    }

    /** Copy a block of `want` available bytes out and give it back, in two pieces when it crosses the end. */
    method TakeBlock(id: nat, want: nat) returns (out: bytes)
      requires Valid() && id < |pos| && pos[id] + want <= |log|
      modifies this, ring, ring.data, ring.readerOffset
      ensures Valid() && old(log) <= log && id < |pos|
      ensures pos[id] == old(pos[id]) + want <= |log|
      ensures out == log[old(pos[id])..pos[id]]
    {
      OtherThreads(id);
      ghost var start := pos[id];
      var at, readLen := Contiguous(id, want);
      out := CopyOut(id, at, readLen);
      if readLen < want {
        ghost var mid := log;
        var second := TakeWrapped(id, at, readLen, want);
        SliceJoin(out, second, mid, log, start, start + readLen, start + want);
        out := out + second;
        readLen := want - readLen;
      }
      FinishBlock(id, readLen);
    }

    /** The last confirm of a block. */
    method FinishBlock(id: nat, n: nat)
      requires Valid() && id < |pos| && pos[id] + n <= |log|
      modifies this, ring, ring.data, ring.readerOffset
      ensures Valid() && old(log) <= log && id < |pos| && pos[id] == old(pos[id]) + n
    {
      OtherThreads(id);
      GiveBack(id, n);
    }

    /** One check under the lock. */
    method Check(id: nat) returns (look: Look)
      requires Valid() && id < |pos|
      ensures look.available == |log| - pos[id] && look.active == ring.recordingActive
    {
      var available := Backlog(id);
      look := Look(available, ring.recordingActive);
    }

    /**
     Wait on the condition variable for `want` bytes or the end of the
     recording, being woken at most `wakeups` times.  Every wake-up is spent on
     a check that found too little in a recording going on, so none is when the
     bytes are there.
     */
    method Await(id: nat, want: nat, wakeups: nat) returns (look: Look, left: nat, ghost looks: seq<Look>)
      requires Valid() && id < |pos|
      modifies this, ring, ring.data, ring.readerOffset
      ensures Valid() && old(log) <= log && id < |pos| && pos[id] == old(pos[id])
      ensures look.available == |log| - pos[id] && look.active == ring.recordingActive
      ensures Waited(looks, want, |old(log)| - old(pos[id])) && looks[|looks| - 1] == look && wakeups - left == |looks| - 1
      ensures Served(look, want) || left == 0
      ensures want <= |old(log)| - old(pos[id]) ==> left == wakeups && want <= look.available
    {
      hide BufferSession.Valid;
      hide Waited;
      ghost var least := |log| - pos[id];
      left := wakeups;
      OtherThreads(id);
      look := Check(id);
      looks := FirstLook(look, want, least);
      while 0 < left && !Served(look, want)
        invariant Valid() && old(log) <= log && id < |pos| && pos[id] == old(pos[id])
        invariant look.available == |log| - pos[id] && look.active == ring.recordingActive
        invariant Waited(looks, want, least) && looks != [] && looks[|looks| - 1] == look && wakeups - left == |looks| - 1
        decreases left
      {
        OtherThreads(id);
        look := Check(id);
        WaitedMore(looks, want, least, look);
        looks := looks + [look];
        left := left - 1;
      }
      NothingToWaitFor(looks, want, least);
    }

    /** Read one contiguous piece of `want` available bytes, hand it out, and give it back. */
    method TakePiece(id: nat, want: nat) returns (piece: bytes)
      requires Valid() && id < |pos| && 0 < want && pos[id] + want <= |log|
      modifies this, ring, ring.data, ring.readerOffset
      ensures Valid() && old(log) <= log && id < |pos|
      ensures 1 <= |piece| == OnePiece(ring.data.Length, old(pos[id]), want)
      ensures pos[id] == old(pos[id]) + |piece| <= |log| && piece == log[old(pos[id])..pos[id]]
    {
      var at, readLen := Contiguous(id, want);
      piece := CopyOut(id, at, readLen);
      FinishBlock(id, readLen);
    }

    /** The tail is set to the head, under the lock. */
    method Align(id: nat)
      requires Valid() && id < |pos|
      modifies this`pos, ring.readerOffset
      ensures Valid() && pos == old(pos)[id := |log|]
    {
      ghost var n := |log| - pos[id];
      Advance(Mem(), ring.head, ring.Tails(), log, pos, flight, id, n);
      Modular.ModAdd(pos[id], n, ring.data.Length);
      ring.AlignToHead(id);
      pos := pos[id := |log|];
    }

    // ----------------------------------------------------------------
    // What the writer thread does
    // ----------------------------------------------------------------

    /**
     Check space under the lock, copy outside it, confirm under it; nothing is
     written when it does not fit.  `seen` is where the readers stood at the
     check: what fitted when the call began is accepted, for they only go on.
     */
    method Offer(src: bytes) returns (accepted: bool, ghost seen: seq<nat>)
      requires Valid() && flight.src == []
      modifies this`flight, this`log, this`pos, ring`head, ring`readerCnt, ring.data, ring.readerOffset
      ensures Valid() && flight.src == []
      ensures Advanced(old(pos), seen, |old(log)|) && Advanced(seen, pos, |old(log)|)
      ensures accepted <==> Room(ring.data.Length, |old(log)|, |src|, seen)
      ensures |src| <= WriterSpace(ring.data.Length, old(ring.head), old(ring.Tails())) ==> accepted
      ensures log == if accepted then old(log) + src else old(log)
    {
      accepted, seen := CheckFits(|src|);
      if accepted {
        Append(src);
      }
    }

    /** The check, under the lock, of whether n bytes fit. */
    method CheckFits(n: nat) returns (fits: bool, ghost seen: seq<nat>)
      requires Valid() && flight.src == []
      modifies this`flight, this`pos, ring`readerCnt, ring.readerOffset
      ensures Valid() && flight.src == [] && (fits ==> n <= flight.room)
      ensures seen == pos && Advanced(old(pos), seen, |log|)
      ensures fits <==> Room(ring.data.Length, |log|, n, seen)
      ensures n <= WriterSpace(ring.data.Length, ring.head, old(ring.Tails())) ==> fits
    {
      RoomForNow(n);
      Readers();
      seen := pos;
      RoomForNow(n);
      var free := CheckSpace();
      fits := n <= free;
      if Room(ring.data.Length, |log|, n, old(pos)) {
        RoomStays(ring.data.Length, |log|, n, old(pos), seen);
      }
    }

    /** Copy outside the lock and confirm under it, out of the room that was granted. */
    method Append(src: bytes)
      requires Valid() && flight.src == [] && |src| <= flight.room
      modifies this`flight, this`log, this`pos, ring`head, ring`readerCnt, ring.data, ring.readerOffset
      ensures Valid() && flight == Flight(old(flight.room) - |src|, [], {}) && log == old(log) + src
      ensures Advanced(old(pos), pos, |old(log)|)
    {
      Readers();
      ghost var mid := pos;
      CopySource(src);
      Readers();
      AdvancedOn(old(pos), mid, pos, |log|, |log|);
      ConfirmCopied();
    }

    /** MemWrite outside the lock: every byte of src lands ahead of the log. */
    method CopySource(src: bytes)
      requires Valid() && flight.src == [] && |src| <= flight.room
      modifies this`flight, ring.data
      ensures Valid() && flight.src == src && flight.room == old(flight.room)
      ensures forall j :: 0 <= j < |src| ==> j in flight.done
    {
      flight := Flight(flight.room, src, {});
      ghost var before := ring.data[..];
      WholeCopy(before, ring.head, ring.Tails(), log, pos, flight);
      ring.MemWrite(src);
      flight := Flight(flight.room, src, Below(|src|));
    }
  }
}
