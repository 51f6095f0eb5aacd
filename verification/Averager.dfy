/**
 Averaging blocks of rows, from ring to ring.

 The averager reads rows out of its input ring as blocks of bytes, adds up
 `ratio` rows element by element in unsigned 64-bit arithmetic, divides, stamps
 the result with the second its first row fell in, and writes it if the output
 ring has room.
 */
module Averager {
  import opened Bytes
  import Earliest
  import Frames
  import opened Processor
  import opened RowOutput
  import opened RowStream
  import opened Session
  import Modular

  /** The true sum of element i. */
  ghost function SumAt(rows: seq<Row>, i: nat): nat
    requires Shaped(rows) && i < VALUES
  {
    if rows == [] then 0 else
      var n := |rows| - 1;
      SumAt(rows[..n], i) + rows[n].data[i]
  }

  /** What the accumulator holds: the sum with 64-bit wrap-around. */
  ghost predicate Accumulates(acc: seq<nat>, rows: seq<Row>)
    requires Shaped(rows)
  {
    |acc| == VALUES && forall i :: 0 <= i < VALUES ==> acc[i] == SumAt(rows, i) % U64
  }

  /** The output row of one block. */
  ghost predicate IsBlockMean(out: Row, rows: seq<Row>)
    requires Shaped(rows) && rows != []
  {
    && out.stamp == rows[0].stamp / 1000
    && |out.data| == VALUES
    && forall i :: 0 <= i < VALUES ==> out.data[i] == SumAt(rows, i) % U64 / |rows|
  }

  /** This is the output row of block b. */
  ghost predicate MeanOfBlock(out: Row, rows: seq<Row>, ratio: nat, b: nat)
    requires Shaped(rows) && 1 <= ratio
  {
    b * ratio + ratio <= |rows| && IsBlockMean(out, rows[b * ratio..b * ratio + ratio])
  }

  /** The blocks so far: one mean for each that was kept. */
  ghost predicate BlocksDone(means: seq<Row>, rows: seq<Row>, ratio: nat, kept: seq<bool>)
    requires Shaped(rows) && 1 <= ratio
  {
    && |kept| * ratio <= |rows| && |means| == |KeptSteps(kept)|
    && forall j :: 0 <= j < |means| ==> MeanOfBlock(means[j], rows, ratio, KeptSteps(kept)[j])
  }

  /** And no other block is complete: the output of a whole recording. */
  ghost predicate AreBlockMeans(means: seq<Row>, rows: seq<Row>, ratio: nat, kept: seq<bool>)
    requires Shaped(rows) && 1 <= ratio
  {
    BlocksDone(means, rows, ratio, kept) && |rows| < |kept| * ratio + ratio
  }

  /** bzero */
  method Clear(averagedData: array<nat>)
    requires averagedData.Length == VALUES
    modifies averagedData
    ensures Accumulates(averagedData[..], [])
  {
    forall i | 0 <= i < VALUES {
      averagedData[i] := 0;
    }
  }

  /** averagedData[i] += inputSecond[i + 1] */
  method Accumulate(averagedData: array<nat>, row: Row, ghost rows: seq<Row>)
    requires averagedData.Length == VALUES && |row.data| == VALUES
    requires Shaped(rows) && Accumulates(averagedData[..], rows)
    modifies averagedData
    ensures Shaped(rows + [row]) && Accumulates(averagedData[..], rows + [row])
  {
    assert (rows + [row])[..|rows|] == rows;
    for i := 0 to VALUES
      invariant forall k :: 0 <= k < i ==> averagedData[k] == SumAt(rows + [row], k) % U64
      invariant forall k :: i <= k < VALUES ==> averagedData[k] == SumAt(rows, k) % U64
    {
      Modular.ModAdd(SumAt(rows, i), row.data[i], U64);
      averagedData[i] := (averagedData[i] + row.data[i]) % U64;
    }
  }

  /** averagedData[i] /= ratio */
  method Divide(averagedData: array<nat>, stamp: nat, ghost rows: seq<Row>, ratio: nat) returns (out: Row)
    requires averagedData.Length == VALUES && 1 <= ratio == |rows|
    requires Shaped(rows) && Accumulates(averagedData[..], rows) && stamp == rows[0].stamp / 1000
    modifies averagedData
    ensures IsBlockMean(out, rows)
  {
    for i := 0 to VALUES
      invariant forall k :: 0 <= k < i ==> averagedData[k] == SumAt(rows, k) % U64 / ratio
      invariant forall k :: i <= k < VALUES ==> averagedData[k] == SumAt(rows, k) % U64
    {
      averagedData[i] := averagedData[i] / ratio;
    }
    out := Row(stamp, averagedData[..]);
  }

  // ------------------------------------------------------------------
  // Reading rows out of the ring
  // ------------------------------------------------------------------

  /** Where row j is, of the rows from `from` on. */
  ghost function Place(from: nat, j: nat): nat {
    from + j * ROW_BYTES
  }

  ghost function BlockAt(log: bytes, at: nat): (block: bytes)
    requires at + ROW_BYTES <= |log|
    ensures |block| == ROW_BYTES
  {
    log[at..at + ROW_BYTES]
  }

  /** These rows are the blocks of the log from `from` on. */
  ghost predicate AreBlocks(log: bytes, from: nat, rows: seq<Row>) {
    forall j :: 0 <= j < |rows| ==>
      Place(from, j) + ROW_BYTES <= |log| && rows[j] == RowOf(BlockAt(log, Place(from, j)))
  }

  /** The reader has read these rows since it stood at `from`. */
  ghost predicate Reading(s: BufferSession, id: nat, from: nat, rows: seq<Row>)
    reads s, s.ring, s.ring.data, s.ring.readerOffset
  {
    && s.Valid() && id < |s.pos| && s.pos[id] == Place(from, |rows|)
    && AreBlocks(s.log, from, rows) && Shaped(rows)
  }

  lemma BlocksLater(log: bytes, log': bytes, from: nat, rows: seq<Row>)
    requires AreBlocks(log, from, rows) && log <= log'
    ensures AreBlocks(log', from, rows)
  {
    hide RowOf;
    forall j | 0 <= j < |rows|
      ensures Place(from, j) + ROW_BYTES <= |log'| && rows[j] == RowOf(BlockAt(log', Place(from, j)))
    {
      assert BlockAt(log', Place(from, j)) == BlockAt(log, Place(from, j));
    }
  }

  lemma RowIsShaped(b: bytes)
    requires |b| == ROW_BYTES
    ensures |RowOf(b).data| == VALUES
  {
  }

  lemma BlocksMore(log: bytes, from: nat, rows: seq<Row>, b: bytes)
    requires AreBlocks(log, from, rows) && Shaped(rows)
    requires Place(from, |rows|) + ROW_BYTES <= |log| && b == BlockAt(log, Place(from, |rows|))
    ensures AreBlocks(log, from, rows + [RowOf(b)]) && Shaped(rows + [RowOf(b)])
  {
    RowIsShaped(b);
    hide RowOf;
  }

  /** The recording has stopped and less than a row is left. */
  ghost predicate Finished(s: BufferSession, id: nat)
    reads s, s.ring
  {
    id < |s.pos| && !s.ring.recordingActive && |s.log| < s.pos[id] + ROW_BYTES
  }

  /** What was unread at the call is no whole row any more. */
  ghost predicate UsedUp(had: nat, pos: nat) {
    had < pos + ROW_BYTES
  }

  /** Wait for a row, or for the end of the recording, and copy the row out; a row that is there is taken at once. */
  method NextRow(s: BufferSession, id: nat, wakeups: nat, ghost from: nat, ghost rows: seq<Row>)
    returns (got: bool, row: Row, left: nat)
    requires Reading(s, id, from, rows) && 0 < wakeups
    modifies s, s.ring, s.ring.data, s.ring.readerOffset
    ensures Reading(s, id, from, if got then rows + [row] else rows) && old(s.log) <= s.log
    ensures id < |s.pos| && s.pos[id] == old(s.pos[id]) + (if got then ROW_BYTES else 0)
    ensures left <= wakeups && (got ==> |row.data| == VALUES && left < wakeups)
    ensures left < wakeups - 1 ==> UsedUp(|old(s.log)|, old(s.pos[id]))
    ensures !got ==> UsedUp(|old(s.log)|, old(s.pos[id])) && (left == 0 || Finished(s, id))
  {
    hide RowOf;
    ghost var before := s.log;
    row := Row(0, []);
    var look;
    ghost var looks;
    look, left, looks := s.Await(id, ROW_BYTES, wakeups);
    BlocksLater(before, s.log, from, rows);
    got := ROW_BYTES <= look.available;
    if got {
      before := s.log;
      var inputSecond := s.TakeBlock(id, ROW_BYTES);
      BlocksLater(before, s.log, from, rows);
      BlocksMore(s.log, from, rows, inputSecond);
      row := RowOf(inputSecond);
      left := if left > 0 then left - 1 else 0;
    }
  }

  // ------------------------------------------------------------------
  // The loop over a recording
  // ------------------------------------------------------------------

  lemma RowArrives(means: seq<Row>, rows: seq<Row>, row: Row, ratio: nat, kept: seq<bool>)
    requires Shaped(rows) && |row.data| == VALUES && 1 <= ratio && BlocksDone(means, rows, ratio, kept)
    ensures Shaped(rows + [row]) && BlocksDone(means, rows + [row], ratio, kept)
  {
    hide IsBlockMean;
    hide KeptSteps;
    forall j | 0 <= j < |means|
      ensures MeanOfBlock(means[j], rows + [row], ratio, KeptSteps(kept)[j])
    {
      var at := KeptSteps(kept)[j] * ratio;
      assert MeanOfBlock(means[j], rows, ratio, KeptSteps(kept)[j]);
      assert (rows + [row])[at..at + ratio] == rows[at..at + ratio];
    }
  }

  lemma OneMoreBlock(b: nat, ratio: nat)
    ensures (b + 1) * ratio == b * ratio + ratio
  {
  }

  lemma BlockPut(means: seq<Row>, rows: seq<Row>, ratio: nat, kept: seq<bool>, row: Row, k: bool)
    requires Shaped(rows) && 1 <= ratio && BlocksDone(means, rows, ratio, kept) && MeanOfBlock(row, rows, ratio, |kept|)
    ensures BlocksDone(means + (if k then [row] else []), rows, ratio, kept + [k])
  {
    KeptSnoc(kept, k);
    OneMoreBlock(|kept|, ratio);
    hide MeanOfBlock;
    hide KeptSteps;
  }

  /** What has been read, what was written of it, and what became of the blocks. */
  datatype Averages = Averages(rows: seq<Row>, means: seq<Row>, kept: seq<bool>, seen: seq<seq<nat>>)

  /** Between two rows: the accumulator holds what has come of the next block. */
  ghost predicate Averaging(acc: seq<nat>, stamp: nat, recordingMs: nat, ratio: nat, a: Averages)
    requires 1 <= ratio
  {
    && Shaped(a.rows) && BlocksDone(a.means, a.rows, ratio, a.kept)
    && recordingMs == |a.rows| - |a.kept| * ratio
    && (0 < recordingMs ==>
          Accumulates(acc, a.rows[|a.kept| * ratio..]) && stamp == a.rows[|a.kept| * ratio].stamp / 1000)
  }

  /** Add a row to the block under way, or begin a block with it. */
  method AddRow(averagedData: array<nat>, blockTimestamp: nat, recordingMs: nat, row: Row, ratio: nat, ghost a: Averages)
    returns (blockTimestamp': nat)
    requires averagedData.Length == VALUES && |row.data| == VALUES && 1 <= ratio
    requires Averaging(averagedData[..], blockTimestamp, recordingMs, ratio, a)
    modifies averagedData
    ensures Averaging(averagedData[..], blockTimestamp', recordingMs + 1, ratio, a.(rows := a.rows + [row]))
  {
    hide Accumulates;
    hide BlocksDone;
    ghost var at := |a.kept| * ratio;
    ghost var block := a.rows[at..];
    blockTimestamp' := blockTimestamp;
    if recordingMs == 0 {
      Clear(averagedData);
      blockTimestamp' := row.stamp / 1000;
      assert block == [];
    }
    Accumulate(averagedData, row, block);
    RowArrives(a.means, a.rows, row, ratio, a.kept);
    assert (a.rows + [row])[at..] == block + [row];
  }

  /** A block is complete: divide, and write the mean if the ring has room. */
  method PutBlock(averagedData: array<nat>, blockTimestamp: nat, ratio: nat, out: BufferSession,
                  ghost base: bytes, ghost pos: seq<nat>, ghost a: Averages)
    returns (ghost a': Averages)
    requires averagedData.Length == VALUES && 1 <= ratio
    requires averagedData != out.ring.readerOffset
    requires Averaging(averagedData[..], blockTimestamp, ratio, ratio, a)
    requires Written(out, base, pos, a.means, a.kept, a.seen)
    modifies averagedData, out, out.ring, out.ring.data, out.ring.readerOffset
    ensures a'.rows == a.rows && Averaging(averagedData[..], blockTimestamp, 0, ratio, a')
    ensures Written(out, base, pos, a'.means, a'.kept, a'.seen)
  {
    hide Accumulates;
    hide IsBlockMean;
    hide BlocksDone;
    hide KeptSteps;
    hide Written;
    ghost var at := |a.kept| * ratio;
    var row := Divide(averagedData, blockTimestamp, a.rows[at..], ratio);
    assert a.rows[at..] == a.rows[at..at + ratio];
    MeanIsShaped(row, a.rows[at..]);
    ghost var means, kept, seen;
    means, kept, seen := WriteRow(out, row, base, pos, a.means, a.kept, a.seen);
    a' := Averages(a.rows, means, kept, seen);
    BlockPut(a.means, a.rows, ratio, a.kept, row, kept[|a.kept|]);
    OneMoreBlock(|a.kept|, ratio);
  }

  /** A row is added to its block, and a complete block is written. */
  method UseRow(averagedData: array<nat>, blockTimestamp: nat, recordingMs: nat, row: Row, ratio: nat, out: BufferSession,
                ghost base: bytes, ghost pos: seq<nat>, ghost a: Averages)
    returns (blockTimestamp': nat, recordingMs': nat, ghost a': Averages)
    requires averagedData.Length == VALUES && |row.data| == VALUES && averagedData != out.ring.readerOffset
    requires recordingMs < ratio && Averaging(averagedData[..], blockTimestamp, recordingMs, ratio, a)
    requires Written(out, base, pos, a.means, a.kept, a.seen)
    modifies averagedData, out, out.ring, out.ring.data, out.ring.readerOffset
    ensures recordingMs' < ratio && Averaging(averagedData[..], blockTimestamp', recordingMs', ratio, a')
    ensures a'.rows == a.rows + [row] && Written(out, base, pos, a'.means, a'.kept, a'.seen)
  {
    hide Averaging;
    hide Written;
    blockTimestamp' := AddRow(averagedData, blockTimestamp, recordingMs, row, ratio, a);
    a' := a.(rows := a.rows + [row]);
    recordingMs' := recordingMs + 1;
    if recordingMs' == ratio {
      a' := PutBlock(averagedData, blockTimestamp', ratio, out, base, pos, a');
      recordingMs' := 0;
    }
  }

  /**
   One recording, for at most `wakeups` rows and wake-ups: rows are read until
   the recording has ended and less than a row is left.  Otherwise `wakeups` rows
   were read, or all that was there at the call.  Block b is written if the
   output ring has room for it; a block left unfinished is dropped.
   */
  method AverageRecording(s: BufferSession, id: nat, out: BufferSession, ratio: nat, wakeups: nat)
    returns (ended: bool, ghost a: Averages)
    requires s.Valid() && id < |s.pos| && out.Valid() && out.flight.src == [] && 1 <= ratio
    requires s != out && s.ring != out.ring && s.ring.data != out.ring.data && s.ring.readerOffset != out.ring.readerOffset
    modifies s, s.ring, s.ring.data, s.ring.readerOffset, out, out.ring, out.ring.data, out.ring.readerOffset
    ensures old(s.log) <= s.log && Reading(s, id, old(s.pos[id]), a.rows)
    ensures ended ==> Finished(s, id)
    ensures !ended ==> wakeups <= |a.rows| || UsedUp(|old(s.log)|, s.pos[id])
    ensures Written(out, old(out.log), old(out.pos), a.means, a.kept, a.seen)
    ensures AreBlockMeans(a.means, a.rows, ratio, a.kept)
  {
    hide BufferSession.Valid;
    ghost var from, had, base, pos := s.pos[id], |s.log|, out.log, out.pos;
    NothingWritten(out);
    NothingRead(s, id);
    var averagedData := new nat[VALUES];
    var recordingMs: nat, blockTimestamp: nat, left: nat := 0, 0, wakeups;
    ended := false;
    a := Averages([], [], [], []);
    NothingAveraged(averagedData[..], ratio);
    hide Reading;
    hide Written;
    hide Averaging;
    hide AreBlockMeans;
    hide Finished;
    while 0 < left && !ended
      invariant old(s.log) <= s.log && Reading(s, id, from, a.rows)
      invariant ended ==> Finished(s, id)
      invariant id < |s.pos| && had <= |s.log|
      invariant wakeups <= |a.rows| + left || UsedUp(had, s.pos[id])
      invariant Written(out, base, pos, a.means, a.kept, a.seen)
      invariant recordingMs < ratio && Averaging(averagedData[..], blockTimestamp, recordingMs, ratio, a)
      decreases left, !ended
    {
      var got, row;
      got, row, left := NextRow(s, id, left, from, a.rows);
      ended := !got && 0 < left;
      if got {
        blockTimestamp, recordingMs, a := UseRow(averagedData, blockTimestamp, recordingMs, row, ratio, out, base, pos, a);
      }
    }
    PartialBlockDropped(averagedData[..], blockTimestamp, recordingMs, ratio, a);
  }

  lemma NothingRead(s: BufferSession, id: nat)
    requires s.Valid() && id < |s.pos|
    ensures Reading(s, id, s.pos[id], [])
  {
  }

  lemma NothingAveraged(acc: seq<nat>, ratio: nat)
    requires 1 <= ratio
    ensures Averaging(acc, 0, 0, ratio, Averages([], [], [], []))
  {
  }

  lemma PartialBlockDropped(acc: seq<nat>, stamp: nat, recordingMs: nat, ratio: nat, a: Averages)
    requires 1 <= ratio && Averaging(acc, stamp, recordingMs, ratio, a) && recordingMs < ratio
    ensures Shaped(a.rows) && AreBlockMeans(a.means, a.rows, ratio, a.kept)
  {
    hide BlocksDone;
  }

  lemma MeanIsShaped(row: Row, rows: seq<Row>)
    requires Shaped(rows) && rows != [] && IsBlockMean(row, rows)
    ensures |row.data| == VALUES
  {
  }
  // ------------------------------------------------------------------
  // What the outputs mean
  // ------------------------------------------------------------------

  /** Samples of 46 bits, as the processor produces them. */
  ghost predicate Small(rows: seq<Row>)
    requires Shaped(rows)
  {
    forall j, i :: 0 <= j < |rows| && 0 <= i < VALUES ==> rows[j].data[i] < 0x4000_0000_0000
  }

  /** What a stream puts into a row is small. */
  lemma SlotIsSmall(frames: seq<bytes>, start: Earliest.Ms, k: nat, j: nat)
    requires Delivers(frames) && j < Frames.SAMPLES_PER_MS
    ensures SlotData(frames, start, k)[j] < 0x4000_0000_0000
  {
    if Hits(frames, start, k) {
      Frames.SamplesAreSmall(frames[Held(frames, start, k)], j);
    }
  }

  /** The processor's rows are rows for the byte ring, and small. */
  lemma ProcessorRowsAreSmall(d: seq<seq<bytes>>, start: Earliest.Ms, k: nat)
    requires AllDeliver(d) && k < U64
    ensures IsRow(RowAt(d, start, k))
    ensures forall i :: 0 <= i < VALUES ==> RowAt(d, start, k).data[i] < 0x4000_0000_0000
  {
    var data := RowAt(d, start, k).data;
    hide RowAt;
    forall i | 0 <= i < VALUES
      ensures data[i] < 0x4000_0000_0000
    {
      ValueIsSmall(d, start, k, i / Frames.SAMPLES_PER_MS, i % Frames.SAMPLES_PER_MS);
    }
  }

  /** Value j of stream i. */
  lemma ValueIsSmall(d: seq<seq<bytes>>, start: Earliest.Ms, k: nat, i: nat, j: nat)
    requires AllDeliver(d) && i < STREAMS && j < Frames.SAMPLES_PER_MS
    ensures RowAt(d, start, k).data[i * Frames.SAMPLES_PER_MS + j] < 0x4000_0000_0000
  {
    hide RowData;
    hide SlotData;
    SlotIsSmall(d[i], start, k, j);
    PieceOfRow(d, start, k, i);
    assert Piece(RowAt(d, start, k).data, i)[j] == RowAt(d, start, k).data[i * Frames.SAMPLES_PER_MS + j];
  }

  lemma PieceOfRow(d: seq<seq<bytes>>, start: Earliest.Ms, k: nat, i: nat)
    requires AllDeliver(d) && i < STREAMS
    ensures Piece(RowAt(d, start, k).data, i) == SlotData(d[i], start, k)
  {
    hide SlotData;
    PiecesOfFour(SlotData(d[0], start, k), SlotData(d[1], start, k), SlotData(d[2], start, k), SlotData(d[3], start, k));
    hide Piece;
  }

  lemma {:induction false} SumIsBounded(rows: seq<Row>, i: nat)
    requires Shaped(rows) && Small(rows) && i < VALUES
    ensures SumAt(rows, i) <= |rows| * 0x3FFF_FFFF_FFFF
  {
    if rows != [] {
      SumIsBounded(rows[..|rows| - 1], i);
    }
  }

  /** Up to 2^18 rows the accumulator cannot wrap, and the output is the element-wise floor mean. */
  lemma MeanIsExact(out: Row, rows: seq<Row>, i: nat)
    requires Shaped(rows) && Small(rows) && 1 <= |rows| <= 0x4_0000 && i < VALUES
    requires IsBlockMean(out, rows)
    ensures SumAt(rows, i) < U64
    ensures out.data[i] * |rows| <= SumAt(rows, i) < (out.data[i] + 1) * |rows|
  {
    SumIsBounded(rows, i);
    Modular.ModUnique(SumAt(rows, i), 0, SumAt(rows, i), U64);
    FloorQuotient(SumAt(rows, i), |rows|);
  }

  lemma FloorQuotient(sum: nat, n: nat)
    requires 1 <= n
    ensures sum / n * n <= sum < (sum / n + 1) * n
  {
  }

  /** With room for every block, output b is the mean of rows b * ratio to (b + 1) * ratio, and no other rows count. */
  lemma EveryBlockIsMean(means: seq<Row>, rows: seq<Row>, ratio: nat, kept: seq<bool>)
    requires Shaped(rows) && 1 <= ratio && AreBlockMeans(means, rows, ratio, kept)
    requires forall k :: 0 <= k < |kept| ==> kept[k]
    ensures |means| * ratio <= |rows| < |means| * ratio + ratio
    ensures forall b :: 0 <= b < |means| ==> MeanOfBlock(means[b], rows, ratio, b)
  {
    hide MeanOfBlock;
    AllKept(kept);
    hide KeptSteps;
  }

  lemma {:induction false} AllKept(kept: seq<bool>)
    requires forall k :: 0 <= k < |kept| ==> kept[k]
    ensures |KeptSteps(kept)| == |kept| && forall k :: 0 <= k < |kept| ==> KeptSteps(kept)[k] == k
  {
    if kept != [] {
      AllKept(kept[..|kept| - 1]);
    }
  }
}
