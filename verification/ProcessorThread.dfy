/**
 The processor thread on its four rings.

 It fetches milliseconds out of four input rings and writes rows into an output
 ring, while every other thread of every ring goes on.  Its rows are those of the
 machine in `Processor`, run on what the rings delivered.
 */
module ProcessorThread {
  import opened Bytes
  import opened Earliest
  import opened Frames
  import opened Processor
  import opened Resync
  import opened RowOutput
  import opened Session

  // ------------------------------------------------------------------
  // What a ring has delivered
  // ------------------------------------------------------------------

  /**
   The milliseconds fetched from a log since position `from`, when it was `had`
   bytes long, and where each of them ended.
   */
  datatype Feed = Feed(from: nat, had: nat, got: seq<bytes>, ends: seq<nat>)

  /** Where the n-th fetch began. */
  ghost function FetchFrom(f: Feed, n: nat): nat
    requires n <= |f.ends|
  {
    if n == 0 then f.from else f.ends[n - 1]
  }

  /** Each fetch took the first match from where the one before had ended. */
  ghost predicate Fed(log: bytes, f: Feed) {
    && |f.ends| == |f.got| && f.had <= |log|
    && forall n :: 0 <= n < |f.got| ==> Delivered(log, FetchFrom(f, n), f.ends[n], f.got[n])
  }

  lemma DeliveredIsStable(log: bytes, log': bytes, start: nat, pos: nat, out: bytes)
    requires log <= log' && Delivered(log, start, pos, out)
    ensures Delivered(log', start, pos, out)
  {
    NoMatchIsStable(log, log', start, pos - BYTES_PER_MS);
    MatchIsStable(log, log', pos - BYTES_PER_MS);
  }

  lemma FedLater(log: bytes, log': bytes, f: Feed)
    requires log <= log' && Fed(log, f)
    ensures Fed(log', f)
  {
    hide Delivered;
    forall n | 0 <= n < |f.got|
      ensures Delivered(log', FetchFrom(f, n), f.ends[n], f.got[n])
    {
      DeliveredIsStable(log, log', FetchFrom(f, n), f.ends[n], f.got[n]);
    }
  }

  ghost function More(f: Feed, frame: bytes, end: nat): Feed {
    f.(got := f.got + [frame], ends := f.ends + [end])
  }

  lemma FedMore(log: bytes, f: Feed, frame: bytes, end: nat)
    requires Fed(log, f) && Delivered(log, FetchFrom(f, |f.ends|), end, frame)
    ensures Fed(log, More(f, frame, end)) && FetchFrom(More(f, frame, end), |f.ends| + 1) == end
  {
    hide Delivered;
    var f' := More(f, frame, end);
    forall n | 0 <= n < |f'.got|
      ensures Delivered(log, FetchFrom(f', n), f'.ends[n], f'.got[n])
    {
      assert FetchFrom(f', n) == FetchFrom(f, n);
    }
  }

  /** On a well-framed log a reader that starts at a header is delivered every millisecond, in order. */
  lemma {:induction false} AlignedFeedMissesNothing(log: bytes, f: Feed, n: nat)
    requires WellFramed(log, f.from) && Fed(log, f) && n < |f.got|
    ensures f.ends[n] == f.from + (n + 1) * BYTES_PER_MS
    ensures f.got[n] == log[f.from + n * BYTES_PER_MS..f.from + (n + 1) * BYTES_PER_MS]
  {
    hide WellFramed;
    hide Delivered;
    var at := f.from + n * BYTES_PER_MS;
    if n > 0 {
      AlignedFeedMissesNothing(log, f, n - 1);
    }
    WellFramedFrom(log, f.from, n);
    NextIsHere(log, at, f.ends[n], f.got[n]);
  }

  lemma NextIsHere(log: bytes, at: nat, end: nat, frame: bytes)
    requires WellFramed(log, at) && Delivered(log, at, end, frame)
    ensures end == at + BYTES_PER_MS && frame == log[at..end]
  {
    WellFramedDiscard(log, at, 0, end - BYTES_PER_MS);
  }

  lemma WellFramedFrom(log: bytes, first: nat, n: nat)
    requires WellFramed(log, first)
    ensures WellFramed(log, first + n * BYTES_PER_MS)
  {
    var later := first + n * BYTES_PER_MS;
    forall k: nat | FrameStart(later, k) + 1 < |log|
      ensures HeaderAt(log, FrameStart(later, k))
    {
      assert FrameStart(later, k) == FrameStart(first, n + k);
    }
  }

  /** The ring's log has fed this reader. */
  ghost predicate Following(s: BufferSession, id: nat, f: Feed)
    reads s, s.ring, s.ring.data, s.ring.readerOffset
  {
    s.Valid() && id < |s.pos| && Fed(s.log, f)
  }

  /** And the reader stands where the last fetch ended. */
  ghost predicate UpToDate(s: BufferSession, id: nat, f: Feed)
    reads s, s.ring, s.ring.data, s.ring.readerOffset
  {
    Following(s, id, f) && s.pos[id] == FetchFrom(f, |f.ends|)
  }

  /** The reader stands behind a millisecond whose counter is none. */
  ghost predicate NoMillisecond(log: bytes, from: nat, pos: nat) {
    && BYTES_PER_MS <= pos <= |log|
    && Delivered(log, from, pos, log[pos - BYTES_PER_MS..pos])
    && CIRCLE <= HeaderMs(log[pos - BYTES_PER_MS..pos])
  }

  /** Why the next fetch, starting over `tries` times in all, brought nothing. */
  ghost predicate Excused(log: bytes, f: Feed, pos: nat, tries: nat) {
    var from := FetchFrom(f, |f.ends|);
    Exhausted(f.had, from, pos, tries) || NoMillisecond(log, from, pos)
  }

  ghost predicate GivesUp(s: BufferSession, id: nat, f: Feed, tries: nat)
    reads s
  {
    id < |s.pos| && Excused(s.log, f, s.pos[id], tries)
  }

  /** `GaveUp` stands for a thread not woken often enough, or handed a counter that is no millisecond. */
  datatype Fetched = Got | NoMore | GaveUp

  lemma HadIsThere(log: bytes, f: Feed)
    requires Fed(log, f)
    ensures |f.ends| == |f.got| && f.had <= |log|
  {
  }

  method Fetch(s: BufferSession, id: nat, wakeups: nat, ghost f: Feed) returns (r: Fetched, frame: bytes, ghost f': Feed)
    requires UpToDate(s, id, f)
    modifies s, s.ring, s.ring.data, s.ring.readerOffset
    ensures Following(s, id, f')
    ensures if r.Got? then UpToDate(s, id, f') && Good(frame) && f' == More(f, frame, s.pos[id]) else f' == f
    ensures r.NoMore? ==> !s.ring.recordingActive
    ensures r.GaveUp? ==> GivesUp(s, id, f, wakeups)
  {
    hide Fed;
    ghost var before := s.log;
    HadIsThere(before, f);
    var outcome;
    ghost var look;
    outcome, frame, look := GetValidMillisecond(s, id, wakeups);
    FedLater(before, s.log, f);
    f' := f;
    if outcome.Found? && HeaderMs(frame) < CIRCLE {
      FedMore(s.log, f, frame, s.pos[id]);
      f' := More(f, frame, s.pos[id]);
      r := Got;
    } else {
      r := if outcome.Stopped? then NoMore else GaveUp;
    }
  }

  // ------------------------------------------------------------------
  // The machine on a growing delivery
  // ------------------------------------------------------------------

  /** In step k the machine holds the last frame delivered so far. */
  ghost predicate InHand(got: seq<bytes>, start: Ms, k: nat) {
    Delivers(got) && Held(got, start, k) + 1 == |got| && forall j :: 0 <= j < k ==> !RunsOut(got, start, j)
  }

  /** One more frame changes nothing up to step k. */
  lemma {:induction false} GrowKeepsPast(got: seq<bytes>, f: bytes, start: Ms, k: nat)
    requires Delivers(got) && Good(f) && forall j :: 0 <= j < k ==> !RunsOut(got, start, j)
    ensures Delivers(got + [f])
    ensures Held(got + [f], start, k) == Held(got, start, k) && SlotData(got + [f], start, k) == SlotData(got, start, k)
    ensures Hits(got + [f], start, k) == Hits(got, start, k) && !RunsOut(got + [f], start, k)
    decreases k
  {
    hide Current;
    hide Decode;
    if k > 0 {
      GrowKeepsPast(got, f, start, k - 1);
      assert !RunsOut(got, start, k - 1);
    }
  }

  /** Rows up to k are the same, and nothing has run out before k. */
  ghost predicate PastKept(got: seq<bytes>, got': seq<bytes>, start: Ms, k: nat) {
    && Delivers(got) && Delivers(got') && got <= got'
    && (forall j :: 0 <= j <= k ==> SlotData(got', start, j) == SlotData(got, start, j))
    && (forall j :: 0 <= j < k ==> !RunsOut(got', start, j))
  }

  lemma GrowStep(got: seq<bytes>, f: bytes, start: Ms, k: nat)
    requires InHand(got, start, k) && Good(f) && Hits(got, start, k)
    ensures InHand(got + [f], start, k + 1) && PastKept(got, got + [f], start, k)
  {
    hide Current;
    hide SlotData;
    var got' := got + [f];
    GrowKeepsPast(got, f, start, k);
    forall j | 0 <= j <= k
      ensures SlotData(got', start, j) == SlotData(got, start, j) && !RunsOut(got', start, j)
    {
      GrowKeepsPast(got, f, start, j);
    }
  }

  lemma SkipStep(got: seq<bytes>, start: Ms, k: nat)
    requires InHand(got, start, k) && !Hits(got, start, k)
    ensures InHand(got, start, k + 1) && PastKept(got, got, start, k)
  {
  }

  /** The frame at hand, in the place of stream i's last one. */
  ghost predicate Showing(s: BufferSession, id: nat, f: Feed, frame: bytes, start: Ms, k: nat)
    reads s, s.ring, s.ring.data, s.ring.readerOffset
  {
    UpToDate(s, id, f) && InHand(f.got, start, k) && frame == f.got[|f.got| - 1]
  }

  /** The frame at hand is for a later millisecond, and still at hand. */
  ghost predicate NotYet(frame: bytes, frame': bytes, currentMs: Ms) {
    frame' == frame && (Good(frame) ==> HeaderMs(frame) != currentMs)
  }

  /** One stream after row k: fetch another frame if this one was used. */
  method FetchIfUsed(s: BufferSession, id: nat, frame: bytes, currentMs: Ms, wakeups: nat,
                     ghost f: Feed, ghost start: Ms, ghost k: nat)
    returns (r: Fetched, frame': bytes, left: nat, ghost f': Feed)
    requires Showing(s, id, f, frame, start, k) && currentMs == Current(start, k)
    modifies s, s.ring, s.ring.data, s.ring.readerOffset
    ensures Following(s, id, f') && PastKept(f.got, f'.got, start, k) && f'.from == f.from && f'.had == f.had
    ensures r.Got? ==> Showing(s, id, f', frame', start, k + 1)
    ensures r.NoMore? ==> IsOut(f'.got, start, k) && !s.ring.recordingActive
    ensures left <= wakeups
    ensures r.Got? && left == wakeups ==> NotYet(frame, frame', currentMs)
    ensures wakeups + |f.got| <= left + |f'.got| + (if r.Got? then 0 else 1)
    ensures r.GaveUp? ==> GivesUp(s, id, f', left)
  {
    hide Hits;
    hide RunsOut;
    hide InHand;
    hide PastKept;
    hide Fed;
    hide Current;
    UsedMeansHit(f.got, start, k);
    r, frame', left, f' := Got, frame, wakeups, f;
    if HeaderMs(frame) != currentMs {
      SkipStep(f.got, start, k);
      return;
    }
    NothingNew(f.got, start, k);
    if wakeups == 0 {
      r := GaveUp;
      return;
    }
    left := wakeups - 1;
    r, frame', f' := Fetch(s, id, left, f);
    if r.Got? {
      GrowStep(f.got, frame', start, k);
    }
  }

  /** A stream's last frame is used in step k when the counters agree, and then there is no other yet. */
  lemma UsedMeansHit(got: seq<bytes>, start: Ms, k: nat)
    requires InHand(got, start, k)
    ensures Delivers(got) && Good(got[|got| - 1])
    ensures Hits(got, start, k) <==> HeaderMs(got[|got| - 1]) == Current(start, k)
    ensures RunsOut(got, start, k) <==> Hits(got, start, k)
  {
  }

  lemma NothingNew(got: seq<bytes>, start: Ms, k: nat)
    requires InHand(got, start, k)
    ensures PastKept(got, got, start, k)
  {
  }

  // ------------------------------------------------------------------
  // Four streams
  // ------------------------------------------------------------------

  /** No two of these sessions share memory. */
  ghost predicate Apart(sessions: seq<BufferSession>) {
    forall i, j :: 0 <= i < j < |sessions| ==>
      && sessions[i] != sessions[j] && sessions[i].ring != sessions[j].ring
      && sessions[i].ring.data != sessions[j].ring.data
      && sessions[i].ring.readerOffset != sessions[j].ring.readerOffset
  }

  /** The memory these sessions use lies within this. */
  ghost predicate Within(sessions: seq<BufferSession>, memory: set<object>) {
    forall i :: 0 <= i < |sessions| ==>
      && sessions[i] in memory && sessions[i].ring in memory
      && sessions[i].ring.data in memory && sessions[i].ring.readerOffset in memory
  }

  ghost predicate AllFollowing(ins: seq<BufferSession>, memory: set<object>, ids: seq<nat>, feeds: seq<Feed>)
    requires Within(ins, memory)
    reads memory
  {
    && |ins| == |ids| == |feeds| == STREAMS
    && forall i :: 0 <= i < STREAMS ==> Following(ins[i], ids[i], feeds[i])
  }

  ghost predicate AllShowing(ins: seq<BufferSession>, memory: set<object>, ids: seq<nat>,
                             feeds: seq<Feed>, current: seq<bytes>, start: Ms, k: nat)
    requires Within(ins, memory)
    reads memory
  {
    && |ins| == |ids| == |feeds| == |current| == STREAMS
    && forall i :: 0 <= i < STREAMS ==> Showing(ins[i], ids[i], feeds[i], current[i], start, k)
  }

  ghost predicate AllPastKept(feeds: seq<Feed>, feeds': seq<Feed>, start: Ms, k: nat) {
    && |feeds| == |feeds'| == STREAMS
    && (forall i :: 0 <= i < STREAMS ==> PastKept(feeds[i].got, feeds'[i].got, start, k))
    && (forall i :: 0 <= i < STREAMS ==> feeds'[i].from == feeds[i].from && feeds'[i].had == feeds[i].had)
  }

  /** How many milliseconds were fetched in all. */
  ghost function Fetches(feeds: seq<Feed>): nat
    requires |feeds| == STREAMS
  {
    |feeds[0].got| + |feeds[1].got| + |feeds[2].got| + |feeds[3].got|
  }

  lemma FetchesChange(feeds: seq<Feed>, i: nat, f: Feed)
    requires |feeds| == STREAMS && i < STREAMS
    ensures Fetches(feeds[i := f]) == Fetches(feeds) - |feeds[i].got| + |f.got|
  {
  }

  /** Some stream's next fetch brought nothing. */
  ghost predicate SomeGivesUp(ins: seq<BufferSession>, memory: set<object>, ids: seq<nat>, feeds: seq<Feed>, tries: nat)
    requires Within(ins, memory)
    reads memory
  {
    exists i :: 0 <= i < |feeds| && i < |ins| && i < |ids| && GivesUp(ins[i], ids[i], feeds[i], tries)
  }

  ghost predicate IsOut(got: seq<bytes>, start: Ms, k: nat) {
    Delivers(got) && RunsOut(got, start, k)
  }

  /** Some stream needs another frame after row k, and its recording has stopped. */
  ghost predicate SomeRunsOut(ins: seq<BufferSession>, memory: set<object>, feeds: seq<Feed>, start: Ms, k: nat)
    requires Within(ins, memory)
    reads memory
  {
    exists i :: 0 <= i < |feeds| && i < |ins| && IsOut(feeds[i].got, start, k) && !ins[i].ring.recordingActive
  }

  /** Fetch the next frame of every stream that was used; no more when some stream has none. */
  method FetchUsed(ins: seq<BufferSession>, ghost memory: set<object>, ids: seq<nat>, current: seq<bytes>, currentMs: Ms, wakeups: nat,
                   ghost feeds: seq<Feed>, ghost start: Ms, ghost k: nat)
    returns (r: Fetched, current': seq<bytes>, left: nat, ghost feeds': seq<Feed>)
    requires Apart(ins) && Within(ins, memory) && AllShowing(ins, memory, ids, feeds, current, start, k) && currentMs == Current(start, k)
    modifies memory
    ensures AllFollowing(ins, memory, ids, feeds') && AllPastKept(feeds, feeds', start, k)
    ensures r.Got? ==> AllShowing(ins, memory, ids, feeds', current', start, k + 1)
    ensures r.NoMore? ==> SomeRunsOut(ins, memory, feeds', start, k)
    ensures left <= wakeups
    ensures r.Got? && left == wakeups ==> NotYet(current[0], current'[0], currentMs)
    ensures wakeups + Fetches(feeds) <= left + Fetches(feeds') + (if r.Got? then 0 else STREAMS)
    ensures r.GaveUp? ==> SomeGivesUp(ins, memory, ids, feeds', left)
  {
    hide GivesUp;
    hide Fetches;
    hide Following;
    hide Showing;
    hide PastKept;
    hide IsOut;
    hide Current;
    hide NotYet;
    r, current', left, feeds' := Got, current, wakeups, feeds;
    for i := 0 to STREAMS
      invariant |current'| == |feeds'| == STREAMS
      invariant forall j :: 0 <= j < i ==> Following(ins[j], ids[j], feeds'[j])
      invariant forall j :: 0 <= j < i ==> PastKept(feeds[j].got, feeds'[j].got, start, k)
      invariant forall j :: 0 <= j < i ==> feeds'[j].from == feeds[j].from && feeds'[j].had == feeds[j].had
      invariant forall j :: i <= j < STREAMS ==> feeds'[j] == feeds[j] && current'[j] == current[j]
      invariant forall j :: i <= j < STREAMS ==> Showing(ins[j], ids[j], feeds[j], current[j], start, k)
      invariant !r.GaveUp?
      invariant r.Got? ==> forall j :: 0 <= j < i ==> Showing(ins[j], ids[j], feeds'[j], current'[j], start, k + 1)
      invariant r.NoMore? ==> exists j :: 0 <= j < i && IsOut(feeds'[j].got, start, k) && !ins[j].ring.recordingActive
      invariant left <= wakeups && wakeups + Fetches(feeds) <= left + Fetches(feeds') + (if r.Got? then 0 else i)
      invariant r.Got? && left == wakeups && 0 < i ==> NotYet(current[0], current'[0], currentMs)
    {
      var q, frame;
      ghost var f;
      q, frame, left, f := FetchIfUsed(ins[i], ids[i], current'[i], currentMs, left, feeds[i], start, k);
      FetchesChange(feeds', i, f);
      current', feeds' := current'[i := frame], feeds'[i := f];
      if q.GaveUp? {
        r := GaveUp;
        assert GivesUp(ins[i], ids[i], feeds'[i], left);
        RestKept(ins, ids, feeds, current, start, k, i + 1);
        return;
      }
      if q.NoMore? {
        r := NoMore;
      }
    }
  }

  lemma RestKept(ins: seq<BufferSession>, ids: seq<nat>, feeds: seq<Feed>, current: seq<bytes>, start: Ms, k: nat, from: nat)
    requires |ins| == |ids| == |feeds| == |current| == STREAMS
    requires forall j :: from <= j < STREAMS ==> Showing(ins[j], ids[j], feeds[j], current[j], start, k)
    ensures forall j :: from <= j < STREAMS ==>
              Following(ins[j], ids[j], feeds[j]) && PastKept(feeds[j].got, feeds[j].got, start, k)
  {
    hide PastKept;
    hide InHand;
    hide Fed;
    forall j | from <= j < STREAMS
      ensures Following(ins[j], ids[j], feeds[j]) && PastKept(feeds[j].got, feeds[j].got, start, k)
    {
      assert Showing(ins[j], ids[j], feeds[j], current[j], start, k);
      NothingNew(feeds[j].got, start, k);
    }
  }

  // ------------------------------------------------------------------
  // A recording
  // ------------------------------------------------------------------

  ghost function Deliveries(feeds: seq<Feed>): (d: seq<seq<bytes>>)
    requires |feeds| == STREAMS
    ensures |d| == STREAMS && forall i :: 0 <= i < STREAMS ==> d[i] == feeds[i].got
  {
    [feeds[0].got, feeds[1].got, feeds[2].got, feeds[3].got]
  }

  /** What a recording has come to: the counter it started at, what was fetched, and what became of the rows. */
  datatype Run = Run(start: Ms, feeds: seq<Feed>, rows: seq<Row>, kept: seq<bool>, seen: seq<seq<nat>>)

  ghost predicate AllGot(feeds: seq<Feed>) {
    |feeds| == STREAMS && AllDeliver(Deliveries(feeds))
  }

  /** The rows written are the machine's, at the steps that were kept. */
  ghost predicate RowsAreRight(run: Run) {
    && AllGot(run.feeds)
    && IsEarliest(FirstCounters(Deliveries(run.feeds)), run.start)
    && Recorded(run.rows, RowsOf(Deliveries(run.feeds), run.start), KeptSteps(run.kept))
  }

  /** The recording did not end before row k. */
  ghost predicate LastedTo(run: Run, k: nat) {
    AllGot(run.feeds) && Lasts(Deliveries(run.feeds), run.start, k)
  }

  ghost predicate EndedAt(run: Run, k: nat) {
    AllGot(run.feeds) && Ends(Deliveries(run.feeds), run.start, k)
  }

  /** Fetching more changes no row up to k, nor where the recording started, and it has not ended before. */
  lemma SameRows(feeds: seq<Feed>, feeds': seq<Feed>, start: Ms, k: nat)
    requires AllPastKept(feeds, feeds', start, k)
    ensures AllGot(feeds) && AllGot(feeds')
    ensures forall j: nat :: j <= k ==> RowAt(Deliveries(feeds'), start, j) == RowAt(Deliveries(feeds), start, j)
    ensures FirstCounters(Deliveries(feeds')) == FirstCounters(Deliveries(feeds))
    ensures Lasts(Deliveries(feeds'), start, k)
  {
    hide SlotData;
    hide RunsOut;
    hide HeaderMs;
    var d, d' := Deliveries(feeds), Deliveries(feeds');
    forall i | 0 <= i < STREAMS
      ensures Delivers(d[i]) && Delivers(d'[i]) && d'[i][0] == d[i][0]
    {
      assert PastKept(feeds[i].got, feeds'[i].got, start, k);
    }
    assert FirstFrames(d') == FirstFrames(d);
    forall j: nat | j <= k
      ensures RowAt(d', start, j) == RowAt(d, start, j)
    {
      assert forall i :: 0 <= i < STREAMS ==> PastKept(feeds[i].got, feeds'[i].got, start, k);
    }
    forall j | 0 <= j < k
      ensures !Ends(d', start, j)
    {
      assert forall i :: 0 <= i < STREAMS ==> PastKept(feeds[i].got, feeds'[i].got, start, k);
    }
  }

  lemma RowsStayRight(run: Run, run': Run, k: nat)
    requires RowsAreRight(run) && |run.kept| == k + 1 && AllPastKept(run.feeds, run'.feeds, run.start, k)
    requires run' == run.(feeds := run'.feeds)
    ensures RowsAreRight(run') && LastedTo(run', k)
  {
    SameRows(run.feeds, run'.feeds, run.start, k);
    StepsBelow(run.kept);
    hide RowAt;
    hide KeptSteps;
    hide FirstCounters;
    hide IsEarliest;
    hide Lasts;
    hide AllPastKept;
  }

  /** A stream has delivered its first frame, which is at hand. */
  ghost predicate First(s: BufferSession, id: nat, f: Feed, frame: bytes)
    reads s, s.ring, s.ring.data, s.ring.readerOffset
  {
    UpToDate(s, id, f) && f.got == [frame] && Good(frame)
  }

  /** Some stream has delivered nothing, and when that is the end, its recording has stopped. */
  ghost predicate NotBegun(ins: seq<BufferSession>, memory: set<object>, ids: seq<nat>, feeds: seq<Feed>, r: Fetched, wakeups: nat)
    requires Within(ins, memory)
    reads memory
  {
    exists i :: 0 <= i < |feeds| && i < |ins| && i < |ids| && Failed(ins[i], ids[i], feeds[i], r, wakeups)
  }

  /** The first fetch of this stream brought nothing. */
  ghost predicate Failed(s: BufferSession, id: nat, f: Feed, r: Fetched, wakeups: nat)
    reads s, s.ring
  {
    f.got == [] && (r.NoMore? ==> !s.ring.recordingActive) && (r.GaveUp? ==> GivesUp(s, id, f, wakeups))
  }

  method FetchOne(s: BufferSession, id: nat, wakeups: nat, ghost f: Feed) returns (r: Fetched, frame: bytes, ghost f': Feed)
    requires UpToDate(s, id, f) && f.got == []
    modifies s, s.ring, s.ring.data, s.ring.readerOffset
    ensures Following(s, id, f') && f'.from == f.from && f'.had == f.had
    ensures r.Got? ==> First(s, id, f', frame)
    ensures !r.Got? ==> Failed(s, id, f', r, wakeups)
  {
    r, frame, f' := Fetch(s, id, wakeups, f);
  }

  /** The first frame of every stream. */
  method FetchFirst(ins: seq<BufferSession>, ghost memory: set<object>, ids: seq<nat>,
                    wakeups: nat, ghost from: seq<nat>, ghost had: seq<nat>)
    returns (r: Fetched, current: seq<bytes>, ghost feeds: seq<Feed>)
    requires |ins| == |ids| == |from| == |had| == STREAMS && Apart(ins) && Within(ins, memory)
    requires forall i :: 0 <= i < STREAMS ==> UpToDate(ins[i], ids[i], Feed(from[i], had[i], [], []))
    modifies memory
    ensures AllFollowing(ins, memory, ids, feeds) && forall i :: 0 <= i < STREAMS ==> feeds[i].from == from[i] && feeds[i].had == had[i]
    ensures r.Got? ==> |current| == STREAMS && forall i :: 0 <= i < STREAMS ==> First(ins[i], ids[i], feeds[i], current[i])
    ensures !r.Got? ==> NotBegun(ins, memory, ids, feeds, r, wakeups)
  {
    hide UpToDate;
    hide Following;
    hide First;
    r := Got;
    current := [];
    feeds := seq(STREAMS, i requires 0 <= i < STREAMS => Feed(from[i], had[i], [], []));
    for i := 0 to STREAMS
      invariant |current| == i && |feeds| == STREAMS && r.Got?
      invariant forall j :: 0 <= j < STREAMS ==> feeds[j].from == from[j] && feeds[j].had == had[j]
      invariant forall j :: 0 <= j < i ==> First(ins[j], ids[j], feeds[j], current[j])
      invariant forall j :: 0 <= j < i ==> Following(ins[j], ids[j], feeds[j])
      invariant forall j :: i <= j < STREAMS ==> UpToDate(ins[j], ids[j], feeds[j]) && feeds[j].got == []
    {
      var frame;
      ghost var f;
      r, frame, f := FetchOne(ins[i], ids[i], wakeups, feeds[i]);
      current, feeds := current + [frame], feeds[i := f];
      if !r.Got? {
        RestFollow(ins, ids, feeds, i + 1);
        return;
      }
    }
  }

  lemma RestFollow(ins: seq<BufferSession>, ids: seq<nat>, feeds: seq<Feed>, from: nat)
    requires |ins| == |ids| == |feeds| == STREAMS
    requires forall j :: from <= j < STREAMS ==> UpToDate(ins[j], ids[j], feeds[j])
    ensures forall j :: from <= j < STREAMS ==> Following(ins[j], ids[j], feeds[j])
  {
    hide Fed;
  }

  lemma FirstShows(s: BufferSession, id: nat, f: Feed, frame: bytes, start: Ms)
    requires First(s, id, f, frame)
    ensures Showing(s, id, f, frame, start, 0)
  {
  }

  /** The output ring is none of the input rings. */
  ghost predicate Outside(out: BufferSession, memory: set<object>) {
    out !in memory && out.ring !in memory && out.ring.data !in memory && out.ring.readerOffset !in memory
  }

  /** Between two rows of a recording. */
  ghost predicate Processing(ins: seq<BufferSession>, memory: set<object>, ids: seq<nat>, out: BufferSession,
                             current: seq<bytes>, base: bytes, pos: seq<nat>, from: seq<nat>, had: seq<nat>, run: Run)
    requires Within(ins, memory)
    reads memory, out, out.ring, out.ring.data, out.ring.readerOffset
  {
    && AllShowing(ins, memory, ids, run.feeds, current, run.start, |run.kept|)
    && RowsAreRight(run) && BegunAt(run, from, had)
    && Written(out, base, pos, run.rows, run.kept, run.seen)
  }

  ghost predicate BegunAt(run: Run, from: seq<nat>, had: seq<nat>) {
    |run.feeds| == |from| == |had| == STREAMS && forall i :: 0 <= i < STREAMS ==> run.feeds[i].from == from[i] && run.feeds[i].had == had[i]
  }

  lemma ShowsAtHand(ins: seq<BufferSession>, memory: set<object>, ids: seq<nat>, feeds: seq<Feed>, current: seq<bytes>, start: Ms, k: nat)
    requires Within(ins, memory) && AllShowing(ins, memory, ids, feeds, current, start, k)
    ensures AllGot(feeds) && AtHand(Deliveries(feeds), current, start, k)
    ensures forall i :: 0 <= i < STREAMS ==> Good(current[i])
  {
    hide Held;
    hide RunsOut;
    hide Fed;
    hide Good;
    var d := Deliveries(feeds);
    forall i | 0 <= i < STREAMS
      ensures Delivers(d[i]) && current[i] == d[i][Held(d[i], start, k)] && Good(current[i])
    {
      assert Showing(ins[i], ids[i], feeds[i], current[i], start, k);
      UsedMeansHit(feeds[i].got, start, k);
    }
  }

  /** Row k of the machine goes out. */
  method PutRow(out: BufferSession, processedData: array<nat>, msFromStart: nat, ghost base: bytes, ghost pos: seq<nat>, ghost run: Run)
    returns (ghost run': Run)
    requires RowsAreRight(run) && Written(out, base, pos, run.rows, run.kept, run.seen)
    requires msFromStart == |run.kept| && processedData[..] == RowAt(Deliveries(run.feeds), run.start, msFromStart).data
    modifies out, out.ring, out.ring.data, out.ring.readerOffset
    ensures RowsAreRight(run') && Written(out, base, pos, run'.rows, run'.kept, run'.seen)
    ensures run'.feeds == run.feeds && run'.start == run.start && |run'.kept| == |run.kept| + 1
  {
    hide Written;
    hide RowData;
    hide KeptSteps;
    hide IsEarliest;
    ghost var rows, kept, seen;
    rows, kept, seen := WriteRow(out, Row(msFromStart, processedData[..]), base, pos, run.rows, run.kept, run.seen);
    run' := Run(run.start, run.feeds, rows, kept, seen);
  }

  /** One pass of the recording loop: fill the row, write it, fetch what was used. */
  method OneRow(ins: seq<BufferSession>, ghost memory: set<object>, ids: seq<nat>, out: BufferSession,
                current: seq<bytes>, currentMs: Ms, msFromStart: nat, processedData: array<nat>, wakeups: nat,
                ghost base: bytes, ghost pos: seq<nat>, ghost from: seq<nat>, ghost had: seq<nat>, ghost run: Run)
    returns (r: Fetched, current': seq<bytes>, left: nat, ghost run': Run)
    requires Apart(ins) && Within(ins, memory) && Outside(out, memory)
    requires processedData !in memory && processedData != out.ring.readerOffset
    requires processedData.Length == STREAMS * SAMPLES_PER_MS
    requires Processing(ins, memory, ids, out, current, base, pos, from, had, run)
    requires msFromStart == |run.kept| && currentMs == Current(run.start, msFromStart)
    modifies memory, processedData, out, out.ring, out.ring.data, out.ring.readerOffset
    ensures run'.start == run.start && |run'.kept| == msFromStart + 1
    ensures RowsAreRight(run') && BegunAt(run', from, had) && LastedTo(run', msFromStart)
    ensures AllFollowing(ins, memory, ids, run'.feeds) && Written(out, base, pos, run'.rows, run'.kept, run'.seen)
    ensures r.Got? ==> Processing(ins, memory, ids, out, current', base, pos, from, had, run')
    ensures r.NoMore? ==> EndedAt(run', msFromStart) && SomeRunsOut(ins, memory, run'.feeds, run'.start, msFromStart)
    ensures left <= wakeups && (r.Got? && left == wakeups ==> NotYet(current[0], current'[0], currentMs))
    ensures wakeups + Fetches(run.feeds) <= left + Fetches(run'.feeds) + (if r.Got? then 0 else STREAMS)
    ensures r.GaveUp? ==> SomeGivesUp(ins, memory, ids, run'.feeds, left)
  {
    hide SomeGivesUp;
    hide Fetches;
    hide RowAt;
    hide AtHand;
    hide Showing;
    hide Written;
    hide RowsAreRight;
    hide PastKept;
    hide Following;
    hide IsOut;
    hide SomeRunsOut;
    ShowsAtHand(ins, memory, ids, run.feeds, current, run.start, msFromStart);
    FillRow(current, currentMs, processedData, Deliveries(run.feeds), run.start, msFromStart);
    ghost var mid := PutRow(out, processedData, msFromStart, base, pos, run);
    ghost var feeds;
    r, current', left, feeds := FetchUsed(ins, memory, ids, current, currentMs, wakeups, run.feeds, run.start, msFromStart);
    run' := mid.(feeds := feeds);
    RowsStayRight(mid, run', msFromStart);
    if r.NoMore? {
      OutIsEnd(ins, memory, run', msFromStart);
    }
  }

  lemma OutIsEnd(ins: seq<BufferSession>, memory: set<object>, run: Run, k: nat)
    requires Within(ins, memory) && AllGot(run.feeds) && SomeRunsOut(ins, memory, run.feeds, run.start, k)
    ensures EndedAt(run, k)
  {
  }

  /**
   A recording, from the first fetches on.  It has not started when some first
   fetch fails; otherwise it goes on until a stream has no more, or the thread
   gives up: some stream's counter is no millisecond, or less than ten
   milliseconds are left of what was there at the call, or what it was woken and
   fetched in all, flushes included, uses `wakeups` up.
   */
  method ProcessRecording(ins: seq<BufferSession>, ghost memory: set<object>, ids: seq<nat>, out: BufferSession,
                          wakeups: nat, ghost from: seq<nat>, ghost had: seq<nat>)
    returns (r: Fetched, started: bool, ghost run: Run, ghost left: nat)
    requires |ins| == |ids| == |from| == |had| == STREAMS && Apart(ins) && Within(ins, memory) && Outside(out, memory)
    requires forall i :: 0 <= i < STREAMS ==> ReadsFrom(ins[i], ids[i], from[i], had[i])
    requires out.Valid() && out.flight.src == []
    modifies memory, out, out.ring, out.ring.data, out.ring.readerOffset
    ensures AllFollowing(ins, memory, ids, run.feeds) && BegunAt(run, from, had)
    ensures Written(out, old(out.log), old(out.pos), run.rows, run.kept, run.seen)
    ensures started ==> 0 < |run.kept| && RowsAreRight(run) && LastedTo(run, |run.kept| - 1)
    ensures started && r.NoMore? ==> EndedAt(run, |run.kept| - 1) && SomeRunsOut(ins, memory, run.feeds, run.start, |run.kept| - 1)
    ensures started && r.GaveUp? ==> SomeGivesUp(ins, memory, ids, run.feeds, left) && wakeups <= left + Fetches(run.feeds)
    ensures started ==> !r.Got?
    ensures !started ==> !r.Got? && run.kept == [] && NotBegun(ins, memory, ids, run.feeds, r, wakeups)
  {
    hide SomeGivesUp;
    hide Fetches;
    hide ReadsFrom;
    hide BufferSession.Valid;
    hide UpToDate;
    hide Written;
    hide RowsAreRight;
    hide Following;
    hide Showing;
    hide LastedTo;
    hide EndedAt;
    hide SomeRunsOut;
    hide NotBegun;
    ghost var base, pos := out.log, out.pos;
    AllAtStart(ins, ids, from, had);
    NothingWritten(out);
    var current, start;
    r, current, start, run := StartRecording(ins, memory, ids, wakeups, from, had);
    started, left := r.Got?, wakeups;
    if started {
      r, run, left := RecordRows(ins, memory, ids, out, current, start, wakeups, base, pos, from, had, run);
    }
  }

  /** The reader stands here, in a log this long. */
  ghost predicate ReadsFrom(s: BufferSession, id: nat, from: nat, had: nat)
    reads s, s.ring, s.ring.data, s.ring.readerOffset
  {
    s.Valid() && id < |s.pos| && s.pos[id] == from && |s.log| == had
  }

  /** Before the first fetch nothing is missing. */
  lemma AllAtStart(ins: seq<BufferSession>, ids: seq<nat>, from: seq<nat>, had: seq<nat>)
    requires |ins| == |ids| == |from| == |had| == STREAMS
    requires forall i :: 0 <= i < STREAMS ==> ReadsFrom(ins[i], ids[i], from[i], had[i])
    ensures forall i :: 0 <= i < STREAMS ==> UpToDate(ins[i], ids[i], Feed(from[i], had[i], [], []))
  {
    hide BufferSession.Valid;
  }

  /** The first frames, and the counter to start at. */
  method StartRecording(ins: seq<BufferSession>, ghost memory: set<object>, ids: seq<nat>,
                        wakeups: nat, ghost from: seq<nat>, ghost had: seq<nat>)
    returns (r: Fetched, current: seq<bytes>, start: Ms, ghost run: Run)
    requires |ins| == |ids| == |from| == |had| == STREAMS && Apart(ins) && Within(ins, memory)
    requires forall i :: 0 <= i < STREAMS ==> UpToDate(ins[i], ids[i], Feed(from[i], had[i], [], []))
    modifies memory
    ensures AllFollowing(ins, memory, ids, run.feeds) && BegunAt(run, from, had)
    ensures run.rows == [] && run.kept == [] && run.seen == []
    ensures !r.Got? ==> NotBegun(ins, memory, ids, run.feeds, r, wakeups)
    ensures r.Got? ==> AllShowing(ins, memory, ids, run.feeds, current, start, 0) && RowsAreRight(run) && run.start == start
  {
    hide UpToDate;
    hide First;
    hide Showing;
    hide Following;
    hide RowsAreRight;
    ghost var feeds;
    r, current, feeds := FetchFirst(ins, memory, ids, wakeups, from, had);
    start := 0;
    if r.Got? {
      FirstsAreGood(ins, memory, ids, feeds, current);
      start := FirstMs(current);
    }
    run := Run(start, feeds, [], [], []);
    if r.Got? {
      FirstsShow(ins, memory, ids, current, run);
    }
  }

  lemma FirstsAreGood(ins: seq<BufferSession>, memory: set<object>, ids: seq<nat>, feeds: seq<Feed>, current: seq<bytes>)
    requires |ins| == |ids| == |feeds| == |current| == STREAMS && Within(ins, memory)
    requires forall i :: 0 <= i < STREAMS ==> First(ins[i], ids[i], feeds[i], current[i])
    ensures AllGot(feeds) && forall i :: 0 <= i < STREAMS ==> Good(current[i])
    ensures FirstFrames(Deliveries(feeds)) == current
  {
    hide UpToDate;
    forall i | 0 <= i < STREAMS
      ensures Good(current[i]) && Delivers(Deliveries(feeds)[i])
    {
      assert First(ins[i], ids[i], feeds[i], current[i]);
    }
    assert FirstFrames(Deliveries(feeds)) == current;
  }

  lemma FirstsShow(ins: seq<BufferSession>, memory: set<object>, ids: seq<nat>, current: seq<bytes>, run: Run)
    requires |ins| == |ids| == |run.feeds| == |current| == STREAMS && Within(ins, memory)
    requires forall i :: 0 <= i < STREAMS ==> First(ins[i], ids[i], run.feeds[i], current[i])
    requires forall i :: 0 <= i < STREAMS ==> Good(current[i])
    requires IsEarliest(Counters(current), run.start) && run.rows == [] && run.kept == []
    ensures AllShowing(ins, memory, ids, run.feeds, current, run.start, 0) && RowsAreRight(run)
  {
    hide IsEarliest;
    hide First;
    hide Showing;
    FirstsAreGood(ins, memory, ids, run.feeds, current);
    forall i | 0 <= i < STREAMS
      ensures Showing(ins[i], ids[i], run.feeds[i], current[i], run.start, 0)
    {
      FirstShows(ins[i], ids[i], run.feeds[i], current[i], run.start);
    }
  }

  /** The recording loop, from the counter it was told to start at. */
  method RecordRows(ins: seq<BufferSession>, ghost memory: set<object>, ids: seq<nat>, out: BufferSession,
                    first: seq<bytes>, start: Ms, wakeups: nat,
                    ghost base: bytes, ghost pos: seq<nat>, ghost from: seq<nat>, ghost had: seq<nat>, ghost run: Run)
    returns (r: Fetched, ghost run': Run, left: nat)
    requires Apart(ins) && Within(ins, memory) && Outside(out, memory)
    requires Processing(ins, memory, ids, out, first, base, pos, from, had, run) && run.kept == [] && start == run.start
    modifies memory, out, out.ring, out.ring.data, out.ring.readerOffset
    ensures AllFollowing(ins, memory, ids, run'.feeds) && BegunAt(run', from, had)
    ensures Written(out, base, pos, run'.rows, run'.kept, run'.seen)
    ensures 0 < |run'.kept| && RowsAreRight(run') && LastedTo(run', |run'.kept| - 1)
    ensures r.NoMore? ==> EndedAt(run', |run'.kept| - 1) && SomeRunsOut(ins, memory, run'.feeds, run'.start, |run'.kept| - 1)
    ensures !r.Got? && wakeups <= left + Fetches(run'.feeds)
    ensures r.GaveUp? ==> SomeGivesUp(ins, memory, ids, run'.feeds, left)
  {
    hide SomeGivesUp;
    hide Fetches;
    hide Showing;
    hide Written;
    hide RowsAreRight;
    hide LastedTo;
    hide EndedAt;
    hide SomeRunsOut;
    hide NotBegun;
    hide Following;
    var processedData := new nat[STREAMS * SAMPLES_PER_MS];
    FourFetched(ins, memory, ids, run.feeds, first, start, 0);
    var current := first;
    left := wakeups;
    var currentMs: Ms := start;
    var msFromStart := 0;
    r, run' := Got, run;
    while r.Got?
      invariant run'.start == start && |run'.kept| == msFromStart && currentMs == Current(start, msFromStart)
      invariant BegunAt(run', from, had)
      invariant r.Got? ==> Processing(ins, memory, ids, out, current, base, pos, from, had, run')
      invariant !r.Got? ==> AllFollowing(ins, memory, ids, run'.feeds) && Written(out, base, pos, run'.rows, run'.kept, run'.seen)
      invariant !r.Got? ==> 0 < msFromStart && RowsAreRight(run') && LastedTo(run', msFromStart - 1)
      invariant r.NoMore? ==> EndedAt(run', msFromStart - 1) && SomeRunsOut(ins, memory, run'.feeds, start, msFromStart - 1)
      invariant wakeups + Fetches(run.feeds) <= left + Fetches(run'.feeds) + (if r.Got? then 0 else STREAMS)
      invariant r.GaveUp? ==> SomeGivesUp(ins, memory, ids, run'.feeds, left)
      decreases r.Got?, left, Distance(currentMs, current)
    {
      ghost var before := current;
      ShowsAtHand(ins, memory, ids, run'.feeds, current, start, msFromStart);
      r, current, left, run' :=
        OneRow(ins, memory, ids, out, current, currentMs, msFromStart, processedData, left, base, pos, from, had, run');
      if r.Got? {
        OneCloser(start, msFromStart, before, current);
      }
      msFromStart := msFromStart + 1;
      currentMs := NextMs(currentMs);
    }
  }

  lemma FourFetched(ins: seq<BufferSession>, memory: set<object>, ids: seq<nat>, feeds: seq<Feed>, current: seq<bytes>, start: Ms, k: nat)
    requires Within(ins, memory) && AllShowing(ins, memory, ids, feeds, current, start, k)
    ensures STREAMS <= Fetches(feeds)
  {
    ShowsAtHand(ins, memory, ids, feeds, current, start, k);
    forall i | 0 <= i < STREAMS
      ensures 0 < |feeds[i].got|
    {
      assert Delivers(Deliveries(feeds)[i]);
    }
  }

  /** How many rows the first stream's frame is still away. */
  ghost function Distance(currentMs: Ms, current: seq<bytes>): nat {
    if current != [] && Good(current[0]) then Earliest.After(currentMs, HeaderMs(current[0])) else 0
  }

  lemma OneCloser(start: Ms, k: nat, current: seq<bytes>, current': seq<bytes>)
    requires current != [] && current' != [] && Good(current[0])
    ensures NotYet(current[0], current'[0], Current(start, k)) ==> Distance(Current(start, k + 1), current') < Distance(Current(start, k), current)
  {
    if HeaderMs(current[0]) != Current(start, k) {
      CurrentSteps(start, k, HeaderMs(current[0]));
    }
  }

  // ------------------------------------------------------------------
  // When it gives up
  // ------------------------------------------------------------------

  /** Every fetch takes a whole millisecond out of the log. */
  lemma {:induction false} FetchedBytes(log: bytes, f: Feed, n: nat)
    requires Fed(log, f) && n <= |f.got|
    ensures n * BYTES_PER_MS <= FetchFrom(f, n) && (0 < n ==> FetchFrom(f, n) <= |log|)
    decreases n
  {
    if n > 0 {
      FetchedBytes(log, f, n - 1);
      assert Delivered(log, FetchFrom(f, n - 1), f.ends[n - 1], f.got[n - 1]);
    }
  }

  /**
   With more patience than the logs hold milliseconds, the thread gives up only
   on a counter that is no millisecond, or when less than ten milliseconds are
   left of what one of the rings held at the call.
   */
  lemma PatienceSuffices(logs: seq<bytes>, feeds: seq<Feed>, i: nat, pos: nat, left: nat, wakeups: nat)
    requires |logs| == |feeds| == STREAMS && i < STREAMS && forall j :: 0 <= j < STREAMS ==> Fed(logs[j], feeds[j])
    requires Excused(logs[i], feeds[i], pos, left) && pos <= |logs[i]| && wakeups <= left + Fetches(feeds)
    requires |logs[0]| + |logs[1]| + |logs[2]| + |logs[3]| < wakeups * BYTES_PER_MS
    ensures feeds[i].had < pos + 30750 || NoMillisecond(logs[i], FetchFrom(feeds[i], |feeds[i].ends|), pos)
  {
    hide NoMillisecond;
    hide Fed;
    forall j | 0 <= j < STREAMS
      ensures |feeds[j].ends| == |feeds[j].got|
      ensures |feeds[j].got| * BYTES_PER_MS <= FetchFrom(feeds[j], |feeds[j].ends|) && |feeds[j].got| * BYTES_PER_MS <= |logs[j]|
    {
      HadIsThere(logs[j], feeds[j]);
      FetchedBytes(logs[j], feeds[j], |feeds[j].got|);
    }
  }
}
