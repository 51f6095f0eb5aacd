/**
 The file consumer: the same four-state life as the sender, into files.

 Each recording goes into a file of its own if its record flag is set, and is
 consumed without being kept otherwise.
 */
module FileConsumer {
  import opened Bytes
  import opened Ring
  import opened Session
  import opened Watching

  /** One recording: what the reader consumed in it, and the file it went to if one was opened. */
  datatype Segment = Segment(file: Option<bytes>, consumed: bytes)

  function Consumed(segments: seq<Segment>): bytes {
    if segments == [] then [] else
      Consumed(segments[..|segments| - 1]) + segments[|segments| - 1].consumed
  }

  /** Every opened file holds all its recording's bytes, and the recordings together are what the reader has passed. */
  ghost predicate Filed(log: bytes, start: nat, pos: nat, segments: seq<Segment>) {
    && (forall k :: 0 <= k < |segments| && segments[k].file.Some? ==> segments[k].file.value == segments[k].consumed)
    && start <= pos <= |log| && Consumed(segments) == log[start..pos]
  }

  ghost predicate Consuming(s: BufferSession, id: nat, start: nat, segments: seq<Segment>)
    reads s, s.ring, s.ring.data, s.ring.readerOffset
  {
    s.Valid() && id < |s.pos| && Filed(s.log, start, s.pos[id], segments)
  }

  lemma FiledLater(log: bytes, log': bytes, start: nat, pos: nat, segments: seq<Segment>)
    requires Filed(log, start, pos, segments) && log <= log'
    ensures Filed(log', start, pos, segments)
  {
    assert log'[start..pos] == log[start..pos];
  }

  lemma FiledOpen(log: bytes, start: nat, pos: nat, segments: seq<Segment>, file: Option<bytes>)
    requires Filed(log, start, pos, segments) && (file.Some? ==> file.value == [])
    ensures Filed(log, start, pos, segments + [Segment(file, [])])
  {
    assert (segments + [Segment(file, [])])[..|segments|] == segments;
  }

  /** The piece goes to the end of the last recording, and of its file. */
  function Extend(segments: seq<Segment>, piece: bytes): seq<Segment>
    requires segments != []
  {
    var n := |segments| - 1;
    var last := segments[n];
    segments[..n] + [Segment(
      match last.file case None => None case Some(f) => Some(f + piece),
      last.consumed + piece)]
  }

  lemma FiledPiece(log: bytes, start: nat, pos: nat, segments: seq<Segment>, piece: bytes)
    requires Filed(log, start, pos, segments) && segments != []
    requires pos + |piece| <= |log| && piece == log[pos..pos + |piece|]
    ensures Filed(log, start, pos + |piece|, Extend(segments, piece))
  {
    var n := |segments| - 1;
    assert Extend(segments, piece)[..n] == segments[..n];
    assert Consumed(segments[..n]) + (segments[n].consumed + piece) == log[start..pos] + piece;
    assert log[start..pos] + piece == log[start..pos + |piece|];
  }

  // ------------------------------------------------------------------
  // Which recordings there were
  // ------------------------------------------------------------------

  /** A recording as the passes tell it: its record flag when it was seen to begin, and how much was read in it. */
  datatype Recorded = Recorded(record: bool, size: nat)

  function Longer(recordings: seq<Recorded>, n: nat): seq<Recorded> {
    if recordings == [] then [] else
      var last := recordings[|recordings| - 1];
      recordings[..|recordings| - 1] + [Recorded(last.record, last.size + n)]
  }

  function AfterPass(recordings: seq<Recorded>, p: Pass<bool>): seq<Recorded> {
    match p.sight
    case AtRest(active, record) => if active then recordings + [Recorded(record, 0)] else recordings
    case _ => Longer(recordings, Sum(p.sizes))
  }

  function Recordings(passes: seq<Pass<bool>>): seq<Recorded> {
    if passes == [] then [] else AfterPass(Recordings(passes[..|passes| - 1]), passes[|passes| - 1])
  }

  /** Exactly the recordings to be recorded have a file, and each took in what was read. */
  ghost predicate Keeps(segments: seq<Segment>, recordings: seq<Recorded>) {
    && |segments| == |recordings|
    && forall k :: 0 <= k < |segments| ==>
         (segments[k].file.Some? <==> recordings[k].record) && |segments[k].consumed| == recordings[k].size
  }

  lemma LongerTwice(recordings: seq<Recorded>, m: nat, n: nat)
    ensures Longer(Longer(recordings, m), n) == Longer(recordings, m + n)
  {
  }

  lemma LongerByNothing(recordings: seq<Recorded>)
    ensures Longer(recordings, 0) == recordings
  {
  }

  // ------------------------------------------------------------------
  // The thread
  // ------------------------------------------------------------------

  /** fwrite of one piece read outside the lock, then the confirm. */
  method WritePiece(s: BufferSession, id: nat, segments: seq<Segment>, want: nat,
                    ghost start: nat, ghost recordings: seq<Recorded>)
    returns (segments': seq<Segment>, ghost size: nat)
    requires Consuming(s, id, start, segments) && segments != [] && Keeps(segments, recordings)
    requires 1 <= want && s.pos[id] + want <= |s.log|
    modifies s, s.ring, s.ring.data, s.ring.readerOffset
    ensures Consuming(s, id, start, segments') && segments' != [] && Keeps(segments', Longer(recordings, size))
    ensures old(s.log) <= s.log && s.pos[id] == old(s.pos[id]) + size
    ensures 1 <= size == OnePiece(s.ring.data.Length, old(s.pos[id]), want)
  {
    ghost var before, from := s.log, s.pos[id];
    var piece := s.TakePiece(id, want);
    FiledLater(before, s.log, start, from, segments);
    FiledPiece(s.log, start, from, segments, piece);
    segments' := Extend(segments, piece);
    size := |piece|;
  }

  /** What is left when a recording has ended, in chunks, until a check finds nothing; then the tail is aligned. */
  method Drain(s: BufferSession, id: nat, segments: seq<Segment>, wakeups: nat,
               ghost start: nat, ghost recordings: seq<Recorded>)
    returns (segments': seq<Segment>, left: nat, ghost written: seq<nat>, ghost sizes: seq<nat>)
    requires Consuming(s, id, start, segments) && segments != [] && Keeps(segments, recordings)
    modifies s, s.ring, s.ring.data, s.ring.readerOffset
    ensures Consuming(s, id, start, segments') && Keeps(segments', Longer(recordings, Sum(sizes)))
    ensures Drains(s.ring.data.Length, old(s.pos[id]), |old(s.log)|, written, sizes) && wakeups - left == |sizes|
    ensures s.pos[id] == old(s.pos[id]) + Sum(sizes)
    ensures 0 < left ==> s.pos[id] == |s.log| == written[|sizes|]
  {
    hide Drains;
    hide Keeps;
    hide Longer;
    hide Extend;
    hide OnePiece;
    hide Filed;
    hide BufferSession.Valid;
    RingIsThere(s);
    segments', left, sizes := segments, wakeups, [];
    ghost var before, from, len := s.log, s.pos[id], s.ring.data.Length;
    s.OtherThreads(id);
    FiledLater(before, s.log, start, s.pos[id], segments);
    LongerByNothing(recordings);
    var available: nat := s.Backlog(id);
    written := [|s.log|];
    FirstCheck(len, from, |before|, |s.log|);
    while 0 < left && available > 0
      invariant Consuming(s, id, start, segments') && segments' != [] && Keeps(segments', Longer(recordings, Sum(sizes)))
      invariant before <= s.log && Drains(len, from, |before|, written, sizes) && wakeups - left == |sizes|
      invariant s.pos[id] == from + Sum(sizes) && |written| == |sizes| + 1 && written[|sizes|] == |s.log|
      invariant available == |s.log| - s.pos[id]
    {
      var chunkToRead := if available > DRAIN_CHUNK then DRAIN_CHUNK else available;
      ghost var size;
      segments', size := WritePiece(s, id, segments', chunkToRead, start, Longer(recordings, Sum(sizes)));
      LongerTwice(recordings, Sum(sizes), size);
      SumSnoc(sizes, size);
      NextCheck(len, from, |before|, written, sizes, size, |s.log|);
      available := s.Backlog(id);
      written, sizes := written + [|s.log|], sizes + [size];
      left := left - 1;
    }
    if available == 0 {
      s.Align(id);
    }
  }

  /** One pass of the consumer's loop, from its look at the flag on. */
  method ConsumeStep(s: BufferSession, id: nat, segments: seq<Segment>, threadRecordingActive: bool, wakeups: nat,
                     ghost start: nat, ghost recordings: seq<Recorded>)
    returns (segments': seq<Segment>, active: bool, left: nat, ghost p: Pass<bool>)
    requires Consuming(s, id, start, segments) && Keeps(segments, recordings)
    requires (threadRecordingActive ==> segments != []) && 0 < wakeups
    modifies s, s.ring, s.ring.data, s.ring.readerOffset
    ensures Consuming(s, id, start, segments') && Keeps(segments', AfterPass(recordings, p))
    ensures active == GoesOn(p) && (active ==> segments' != [])
    ensures p.from == old(s.pos[id]) && p.had == |old(s.log)| && s.pos[id] == p.from + Sum(p.sizes)
    ensures if threadRecordingActive then (if old(s.ring.recordingActive) then p.sight.Awake? else p.sight.Ending?)
            else p.sight.AtRest? && p.sight.active == old(s.ring.recordingActive)
    ensures Took(s.ring.data.Length, p) && 1 <= wakeups - left == Spent(p)
  {
    segments', left := segments, wakeups - 1;
    ghost var before, from := s.log, s.pos[id];
    var bufferRecordingActive := s.ring.recordingActive;
    active := bufferRecordingActive;
    if !threadRecordingActive && !bufferRecordingActive {
      p := Pass(from, |before|, AtRest(false, false), []);
    } else if !threadRecordingActive && bufferRecordingActive {
      s.OtherThreads(id);
      var file := if s.shouldRecord then Some([]) else None;
      FiledLater(before, s.log, start, s.pos[id], segments);
      FiledOpen(s.log, start, s.pos[id], segments, file);
      segments' := segments + [Segment(file, [])];
      p := Pass(from, |before|, AtRest(true, s.shouldRecord), []);
    } else if threadRecordingActive && bufferRecordingActive {
      segments', left, p := AwaitPiece(s, id, segments, left, start, recordings);
    } else {
      ghost var written, sizes;
      segments', left, written, sizes := Drain(s, id, segments, left, start, recordings);
      p := Pass(from, |before|, Ending(written), sizes);
    }
  }

  /** Wait for a full read, and write what of it is in one piece. */
  method AwaitPiece(s: BufferSession, id: nat, segments: seq<Segment>, wakeups: nat,
                    ghost start: nat, ghost recordings: seq<Recorded>)
    returns (segments': seq<Segment>, left: nat, ghost p: Pass<bool>)
    requires Consuming(s, id, start, segments) && segments != [] && Keeps(segments, recordings)
    modifies s, s.ring, s.ring.data, s.ring.readerOffset
    ensures Consuming(s, id, start, segments') && segments' != [] && Keeps(segments', Longer(recordings, Sum(p.sizes)))
    ensures p.from == old(s.pos[id]) && p.had == |old(s.log)| && s.pos[id] == p.from + Sum(p.sizes)
    ensures p.sight.Awake? && Took(s.ring.data.Length, p) && wakeups - left == Spent(p) - 1
  {
    hide Keeps;
    hide Longer;
    hide OnePiece;
    hide Filed;
    hide BufferSession.Valid;
    segments' := segments;
    ghost var before, from := s.log, s.pos[id];
    var look;
    ghost var looks;
    look, left, looks := s.Await(id, READ_SIZE, wakeups);
    FiledLater(before, s.log, start, from, segments);
    LongerByNothing(recordings);
    p := Pass(from, |before|, Awake(looks), []);
    if look.active && READ_SIZE <= look.available {
      ghost var size;
      segments', size := WritePiece(s, id, segments, READ_SIZE, start, recordings);
      SumSnoc([], size);
      p := p.(sizes := [] + [size]);
    }
  }

  /**
   The consumer thread, for `wakeups` passes, wake-ups and chunks in all: what it
   read and what it kept are what its passes saw.
   */
  method Consume(s: BufferSession, wakeups: nat)
    returns (segments: seq<Segment>, id: nat, ghost start: nat, ghost passes: seq<Pass<bool>>)
    requires s.Valid() && s.ring.readerCnt < READER_MAX_CAP
    modifies s, s.ring, s.ring.data, s.ring.readerOffset
    ensures start == |old(s.log)| && Consuming(s, id, start, segments)
    ensures Watched(s.ring.data.Length, start, passes) && AllSpent(passes) == wakeups && s.pos[id] == Reached(start, passes)
    ensures Keeps(segments, Recordings(passes))
  {
    hide Watched;
    hide Took;
    hide Under;
    hide GoesOn;
    hide Reached;
    hide AllSpent;
    hide Spent;
    hide Sum;
    hide AfterPass;
    start := |s.log|;
    id := s.Join();
    segments, passes := [], [];
    var threadRecordingActive, left: nat := false, wakeups;
    NoPasses<bool>(s.ring.data.Length, start);
    while 0 < left
      invariant Consuming(s, id, start, segments) && Keeps(segments, Recordings(passes))
      invariant threadRecordingActive == Under(passes) && (threadRecordingActive ==> segments != [])
      invariant Watched(s.ring.data.Length, start, passes) && AllSpent(passes) + left == wakeups
      invariant s.pos[id] == Reached(start, passes)
    {
      ghost var before := s.log;
      ghost var p;
      s.OtherThreads(id);
      FiledLater(before, s.log, start, s.pos[id], segments);
      segments, threadRecordingActive, left, p :=
        ConsumeStep(s, id, segments, threadRecordingActive, left, start, Recordings(passes));
      WatchedMore(s.ring.data.Length, start, passes, p);
      assert (passes + [p])[..|passes|] == passes;
      passes := passes + [p];
    }
  }

  /** Every file is one unbroken slice of the log, after all that the recordings before it consumed. */
  lemma {:induction false} FileIsSlice(log: bytes, start: nat, pos: nat, segments: seq<Segment>, k: nat)
    requires Filed(log, start, pos, segments) && k < |segments| && segments[k].file.Some?
    ensures var from := start + |Consumed(segments[..k])|;
            var file := segments[k].file.value;
            from + |file| <= pos && file == log[from..from + |file|]
    decreases |segments|
  {
    var n := |segments| - 1;
    var before := Consumed(segments[..n]);
    assert log[start..pos] == before + segments[n].consumed;
    if k < n {
      assert log[start..start + |before|] == log[start..pos][..|before|] == before;
      FileIsSlice(log, start, start + |before|, segments[..n], k);
      assert segments[..n][..k] == segments[..k];
    } else {
      assert log[start + |before|..pos] == log[start..pos][|before|..] == segments[n].consumed;
    }
  }
}
