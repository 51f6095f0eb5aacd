/**
 Aligning four lossy streams by their millisecond counters.

 Each stream delivers frames whose headers carry a counter modulo 1000.  The
 processor starts at the earliest of the four first frames and then steps one
 millisecond at a time; a stream whose current frame does not carry the current
 counter leaves a hole in the row.
 */
module Processor {
  import opened Bytes
  import opened Frames
  import opened Earliest
  import Modular

  const STREAMS: nat := 4

  /** A whole frame with a counter below 1000. */
  predicate Good(f: bytes) {
    |f| == BYTES_PER_MS && HeaderMs(f) < CIRCLE
  }

  /** What one stream delivers until its recording ends; the first fetch succeeds. */
  predicate Delivers(frames: seq<bytes>) {
    frames != [] && forall n :: 0 <= n < |frames| ==> Good(frames[n])
  }

  predicate AllDeliver(d: seq<seq<bytes>>) {
    |d| == STREAMS && forall i :: 0 <= i < STREAMS ==> Delivers(d[i])
  }

  datatype Row = Row(stamp: nat, data: seq<nat>)

  function Hole(): seq<nat> {
    seq(SAMPLES_PER_MS, _ => 0)
  }

  // ------------------------------------------------------------------
  // The machine
  // ------------------------------------------------------------------

  function NextMs(currentMs: Ms): Ms {
    (currentMs + 1) % CIRCLE
  }

  /** The counter in step k. */
  function Current(start: Ms, k: nat): Ms {
    if k == 0 then start else NextMs(Current(start, k - 1))
  }

  lemma {:induction false} CurrentIsWrapped(start: Ms, k: nat)
    ensures Current(start, k) == (start + k) % CIRCLE
    decreases k
  {
    if k > 0 {
      CurrentIsWrapped(start, k - 1);
      Modular.ModAdd(start + k - 1, 1, CIRCLE);
    }
  }

  /** Which frame of its delivery a stream holds in step k. */
  function Held(frames: seq<bytes>, start: Ms, k: nat): nat
    requires Delivers(frames)
    ensures Held(frames, start, k) < |frames|
  {
    if k == 0 then 0 else
      var n := Held(frames, start, k - 1);
      if HeaderMs(frames[n]) == Current(start, k - 1) && n + 1 < |frames| then n + 1 else n
  }

  predicate Hits(frames: seq<bytes>, start: Ms, k: nat)
    requires Delivers(frames)
  {
    HeaderMs(frames[Held(frames, start, k)]) == Current(start, k)
  }

  /** In step k the stream asks for another frame and there is none: the recording ends with this row. */
  predicate RunsOut(frames: seq<bytes>, start: Ms, k: nat)
    requires Delivers(frames)
  {
    Hits(frames, start, k) && Held(frames, start, k) + 1 == |frames|
  }

  function SlotData(frames: seq<bytes>, start: Ms, k: nat): (data: seq<nat>)
    requires Delivers(frames)
    ensures |data| == SAMPLES_PER_MS
  {
    if Hits(frames, start, k) then Decode(frames[Held(frames, start, k)]) else Hole()
  }

  /** processedData: one slot per stream. */
  function RowData(d: seq<seq<bytes>>, start: Ms, k: nat): (data: seq<nat>)
    requires AllDeliver(d)
    ensures |data| == STREAMS * SAMPLES_PER_MS
  {
    SlotData(d[0], start, k) + SlotData(d[1], start, k) + SlotData(d[2], start, k) + SlotData(d[3], start, k)
  }

  function RowAt(d: seq<seq<bytes>>, start: Ms, k: nat): Row
    requires AllDeliver(d)
  {
    Row(k, RowData(d, start, k))
  }

  /** The part of a row that belongs to stream i. */
  function Piece(data: seq<nat>, i: nat): seq<nat>
    requires |data| == STREAMS * SAMPLES_PER_MS && i < STREAMS
  {
    data[i * SAMPLES_PER_MS..(i + 1) * SAMPLES_PER_MS]
  }

  lemma FourPieces(data: seq<nat>)
    requires |data| == STREAMS * SAMPLES_PER_MS
    ensures data == Piece(data, 0) + Piece(data, 1) + Piece(data, 2) + Piece(data, 3)
  {
  }

  lemma PiecesOfFour(a: seq<nat>, b: seq<nat>, c: seq<nat>, e: seq<nat>)
    requires |a| == |b| == |c| == |e| == SAMPLES_PER_MS
    ensures var data := a + b + c + e;
            Piece(data, 0) == a && Piece(data, 1) == b && Piece(data, 2) == c && Piece(data, 3) == e
  {
  }

  predicate Ends(d: seq<seq<bytes>>, start: Ms, k: nat)
    requires AllDeliver(d)
  {
    exists i :: 0 <= i < STREAMS && RunsOut(d[i], start, k)
  }

  /** The steps whose rows were written. */
  function KeptSteps(kept: seq<bool>): seq<nat> {
    if kept == [] then [] else
      var n := |kept| - 1;
      KeptSteps(kept[..n]) + (if kept[n] then [n] else [])
  }

  lemma {:induction false} StepsBelow(kept: seq<bool>)
    ensures forall j :: 0 <= j < |KeptSteps(kept)| ==> KeptSteps(kept)[j] < |kept|
  {
    if kept != [] {
      StepsBelow(kept[..|kept| - 1]);
    }
  }

  /** The machine's rows, by step. */
  function RowsOf(d: seq<seq<bytes>>, start: Ms): nat -> Row
    requires AllDeliver(d)
  {
    (k: nat) => RowAt(d, start, k)
  }

  /** The rows written are those of the given steps. */
  ghost predicate Recorded(rows: seq<Row>, rowOf: nat -> Row, steps: seq<nat>) {
    |rows| == |steps| && forall j :: 0 <= j < |rows| ==> rows[j] == rowOf(steps[j])
  }

  // ------------------------------------------------------------------
  // One row
  // ------------------------------------------------------------------

  /** Every stream has the frame at hand that the machine says it holds in step k. */
  ghost predicate AtHand(d: seq<seq<bytes>>, current: seq<bytes>, start: Ms, k: nat)
    requires AllDeliver(d)
  {
    |current| == STREAMS && forall i :: 0 <= i < STREAMS ==> current[i] == d[i][Held(d[i], start, k)]
  }

  /** bzero, then one slot after the other. */
  method FillRow(current: seq<bytes>, currentMs: Ms, processedData: array<nat>, ghost d: seq<seq<bytes>>, ghost start: Ms, ghost k: nat)
    requires AllDeliver(d) && AtHand(d, current, start, k) && currentMs == Current(start, k)
    requires processedData.Length == STREAMS * SAMPLES_PER_MS
    modifies processedData
    ensures processedData[..] == RowAt(d, start, k).data
  {
    forall p | 0 <= p < processedData.Length {
      processedData[p] := 0;
    }
    for i := 0 to STREAMS
      invariant forall j :: 0 <= j < i ==> Piece(processedData[..], j) == SlotData(d[j], start, k)
      invariant forall j :: i <= j < STREAMS ==> Piece(processedData[..], j) == Hole()
    {
      FillSlot(current[i], currentMs, processedData, i, d[i], start, k);
    }
    FourPieces(processedData[..]);
  }

  /** The slot of stream i, which is still all zeros. */
  method FillSlot(frame: bytes, currentMs: Ms, processedData: array<nat>, i: nat, ghost frames: seq<bytes>, ghost start: Ms, ghost k: nat)
    requires Delivers(frames) && frame == frames[Held(frames, start, k)] && currentMs == Current(start, k)
    requires i < STREAMS && processedData.Length == STREAMS * SAMPLES_PER_MS
    requires Piece(processedData[..], i) == Hole()
    modifies processedData
    ensures Piece(processedData[..], i) == SlotData(frames, start, k)
    ensures forall j :: 0 <= j < STREAMS && j != i ==> Piece(processedData[..], j) == Piece(old(processedData[..]), j)
  {
    if HeaderMs(frame) == currentMs {
      var swapped := DecodeFrame(frame);
      CopySlot(processedData, i, swapped);
    }
  }

  method CopySlot(processedData: array<nat>, i: nat, data: seq<nat>)
    requires i < STREAMS && processedData.Length == STREAMS * SAMPLES_PER_MS && |data| == SAMPLES_PER_MS
    modifies processedData
    ensures Piece(processedData[..], i) == data
    ensures forall j :: 0 <= j < STREAMS && j != i ==> Piece(processedData[..], j) == Piece(old(processedData[..]), j)
  {
    forall p | 0 <= p < SAMPLES_PER_MS {
      processedData[i * SAMPLES_PER_MS + p] := data[p];
    }
    forall j | 0 <= j < STREAMS && j != i
      ensures Piece(processedData[..], j) == Piece(old(processedData[..]), j)
    {
      assert forall p :: j * SAMPLES_PER_MS <= p < (j + 1) * SAMPLES_PER_MS ==> processedData[p] == old(processedData[p]);
    }
  }

  // ------------------------------------------------------------------
  // How long a recording lasts
  // ------------------------------------------------------------------

  /** How many frames the four streams still have to give. */
  ghost function Remaining(d: seq<seq<bytes>>, start: Ms, k: nat): nat
    requires AllDeliver(d)
  {
    (|d[0]| - Held(d[0], start, k)) + (|d[1]| - Held(d[1], start, k))
    + (|d[2]| - Held(d[2], start, k)) + (|d[3]| - Held(d[3], start, k))
  }

  ghost function Patience(d: seq<seq<bytes>>, start: Ms, k: nat): nat
    requires AllDeliver(d)
  {
    After(Current(start, k), HeaderMs(d[0][Held(d[0], start, k)]))
  }

  /** Until the recording ends, each step fetches a frame or brings the first stream's frame one step closer. */
  lemma Progress(d: seq<seq<bytes>>, start: Ms, k: nat)
    requires AllDeliver(d) && !Ends(d, start, k)
    ensures Remaining(d, start, k + 1) <= Remaining(d, start, k)
    ensures Remaining(d, start, k + 1) < Remaining(d, start, k) || Patience(d, start, k + 1) < Patience(d, start, k)
  {
    assert forall i :: 0 <= i < STREAMS ==> !RunsOut(d[i], start, k);
    forall i | 0 <= i < STREAMS
      ensures Held(d[i], start, k) <= Held(d[i], start, k + 1)
      ensures Hits(d[i], start, k) ==> Held(d[i], start, k) < Held(d[i], start, k + 1)
    {
    }
    if !Hits(d[0], start, k) {
      CurrentSteps(start, k, HeaderMs(d[0][Held(d[0], start, k)]));
    }
  }

  lemma CurrentSteps(start: Ms, k: nat, target: Ms)
    requires Current(start, k) != target
    ensures After(Current(start, k + 1), target) < After(Current(start, k), target)
  {
  }

  /** No step before k ends the recording. */
  ghost predicate Lasts(d: seq<seq<bytes>>, start: Ms, k: nat)
    requires AllDeliver(d)
  {
    forall j :: 0 <= j < k ==> !Ends(d, start, j)
  }

  /** With finitely many frames the recording ends. */
  lemma {:induction false} RecordingEnds(d: seq<seq<bytes>>, start: Ms, k: nat) returns (n: nat)
    requires AllDeliver(d)
    ensures k <= n && Ends(d, start, n)
    decreases Remaining(d, start, k), Patience(d, start, k)
  {
    hide Remaining;
    hide Patience;
    if Ends(d, start, k) {
      n := k;
    } else {
      Progress(d, start, k);
      n := RecordingEnds(d, start, k + 1);
    }
  }

  function Counters(frames: seq<bytes>): (counters: seq<Ms>)
    requires |frames| == STREAMS && forall i :: 0 <= i < STREAMS ==> Good(frames[i])
    ensures |counters| == STREAMS && forall i :: 0 <= i < STREAMS ==> Good(frames[i]) && counters[i] == HeaderMs(frames[i])
  {
    assert Good(frames[0]) && Good(frames[1]) && Good(frames[2]) && Good(frames[3]);
    [HeaderMs(frames[0]), HeaderMs(frames[1]), HeaderMs(frames[2]), HeaderMs(frames[3])]
  }

  function FirstFrames(d: seq<seq<bytes>>): (frames: seq<bytes>)
    requires AllDeliver(d)
    ensures |frames| == STREAMS && forall i :: 0 <= i < STREAMS ==> Good(frames[i]) && frames[i] == d[i][0]
  {
    assert Delivers(d[0]) && Delivers(d[1]) && Delivers(d[2]) && Delivers(d[3]);
    [d[0][0], d[1][0], d[2][0], d[3][0]]
  }

  function FirstCounters(d: seq<seq<bytes>>): (counters: seq<Ms>)
    requires AllDeliver(d)
    ensures |counters| == STREAMS && forall i :: 0 <= i < STREAMS ==> counters[i] == HeaderMs(d[i][0])
  {
    Counters(FirstFrames(d))
  }

  method FirstMs(current: seq<bytes>) returns (start: Ms)
    requires |current| == STREAMS && forall i :: 0 <= i < STREAMS ==> Good(current[i])
    ensures IsEarliest(Counters(current), start)
  {
    var startMilliseconds := new Ms[STREAMS];
    for i := 0 to STREAMS
      invariant forall j :: 0 <= j < i ==> startMilliseconds[j] == HeaderMs(current[j])
    {
      startMilliseconds[i] := HeaderMs(current[i]);
    }
    assert startMilliseconds[..] == Counters(current);
    start := GetEarliestMs(startMilliseconds);
  }
}
