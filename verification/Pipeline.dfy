/**
 From four input rings to averages, end to end.

 What the processor thread put on its output log, read back by the averager
 thread, averaged and written: every value is the mean of the samples that the
 streams delivered for the milliseconds of that block.
 */
module Pipeline {
  import opened Bytes
  import opened Earliest
  import opened Frames
  import opened Resync
  import opened Processor
  import opened Alignment
  import opened ProcessorThread
  import opened RowStream
  import opened Averager

  // ------------------------------------------------------------------
  // True time
  // ------------------------------------------------------------------

  ghost predicate HasIndex(index: seq<nat>, t: nat) {
    exists n :: 0 <= n < |index| && index[n] == t
  }

  ghost function IndexAt(index: seq<nat>, t: nat): (n: nat)
    requires HasIndex(index, t)
    ensures n < |index| && index[n] == t
  {
    var n :| 0 <= n < |index| && index[n] == t;
    n
  }

  /** A run as `ProcessRecording` leaves it, whose frames have these true indices. */
  ghost predicate Sound(run: Run, index: seq<seq<nat>>, first: nat) {
    && RowsAreRight(run) && 0 < |run.kept| <= U64 && LastedTo(run, |run.kept| - 1)
    && AllIndexed(Deliveries(run.feeds), index)
    && (forall i :: 0 <= i < STREAMS ==> index[i] != []) && StartTogether(index, first)
  }

  /** Stream i's frames have true indices. */
  ghost predicate Indexed(run: Run, index: seq<seq<nat>>, i: nat) {
    i < |run.feeds| && i < |index| && Delivers(run.feeds[i].got) && |index[i]| == |run.feeds[i].got|
  }

  /** What stream i delivered for true index t, zeros where it delivered nothing. */
  ghost function TrueSlot(run: Run, index: seq<seq<nat>>, i: nat, t: nat): (slot: seq<nat>)
    ensures |slot| == SAMPLES_PER_MS
  {
    if Indexed(run, index, i) && HasIndex(index[i], t) then Frames.Decode(run.feeds[i].got[IndexAt(index[i], t)]) else Hole()
  }

  /** The sum of sample x of stream i over some steps of a run that started at true index `first`. */
  ghost function TrueSum(run: Run, index: seq<seq<nat>>, first: nat, i: nat, steps: seq<nat>, x: nat): nat
    requires x < SAMPLES_PER_MS
  {
    if steps == [] then 0 else
      var n := |steps| - 1;
      TrueSum(run, index, first, i, steps[..n], x) + TrueSlot(run, index, i, first + steps[n])[x]
  }

  // ------------------------------------------------------------------
  // Frames
  // ------------------------------------------------------------------

  /** n indices from t0 on. */
  ghost function Successive(t0: nat, n: nat): (index: seq<nat>)
    ensures |index| == n && forall k :: 0 <= k < n ==> index[k] == t0 + k
  {
    seq(n, k requires 0 <= k < n => t0 + k)
  }

  /** The millisecond that begins here, if it is complete, carries this counter. */
  ghost predicate CountsAt(log: bytes, at: nat, t: nat) {
    at + BYTES_PER_MS <= |log| ==> HeaderMs(log[at..at + BYTES_PER_MS]) == t % CIRCLE
  }

  /** Reading a gapless log from a header on: the n-th millisecond delivered is the n-th there. */
  lemma GaplessIndexes(log: bytes, f: Feed, t0: nat)
    requires Fed(log, f) && Delivers(f.got) && WellFramed(log, f.from)
    requires forall n: nat :: CountsAt(log, FrameStart(f.from, n), t0 + n)
    ensures Indexes(f.got, Successive(t0, |f.got|)) && ShortLosses(Successive(t0, |f.got|))
  {
    hide Fed;
    hide WellFramed;
    forall n | 0 <= n < |f.got|
      ensures HeaderMs(f.got[n]) == (t0 + n) % CIRCLE
    {
      assert Good(f.got[n]);
      EndsInLog(log, f, n);
      AlignedFeedMissesNothing(log, f, n);
      assert CountsAt(log, FrameStart(f.from, n), t0 + n);
    }
  }

  lemma EndsInLog(log: bytes, f: Feed, n: nat)
    requires Fed(log, f) && n < |f.got|
    ensures n < |f.ends| && f.ends[n] <= |log|
  {
    assert Delivered(log, FetchFrom(f, n), f.ends[n], f.got[n]);
  }

  // ------------------------------------------------------------------
  // Rows
  // ------------------------------------------------------------------

  /** This row holds, in its four pieces, what the streams delivered for its step. */
  ghost predicate TrueRow(row: Row, run: Run, index: seq<seq<nat>>, first: nat, k: nat) {
    && row.stamp == k && |row.data| == VALUES
    && forall i :: 0 <= i < STREAMS ==> Piece(row.data, i) == TrueSlot(run, index, i, first + k)
  }

  lemma {:induction false} StreamsAreIndexed(run: Run, index: seq<seq<nat>>, first: nat)
    requires Sound(run, index, first)
    ensures forall i :: 0 <= i < STREAMS ==> Indexed(run, index, i)
  {
    forall i | 0 <= i < STREAMS
      ensures Indexed(run, index, i)
    {
      assert Deliveries(run.feeds)[i] == run.feeds[i].got;
    }
  }

  lemma RowPerStep(run: Run, index: seq<seq<nat>>, first: nat)
    requires Sound(run, index, first)
    ensures |KeptSteps(run.kept)| == |run.rows|
  {
  }

  lemma PieceIsTrue(run: Run, index: seq<seq<nat>>, first: nat, k: nat, i: nat)
    requires Sound(run, index, first) && k < |run.kept| && i < STREAMS
    ensures Piece(RowAt(Deliveries(run.feeds), run.start, k).data, i) == TrueSlot(run, index, i, first + k)
  {
    StreamsAreIndexed(run, index, first);
    TimeAlignment(Deliveries(run.feeds), index, first, run.start, k, i);
    hide RowAt;
    hide Piece;
  }

  lemma RowIsTrue(run: Run, index: seq<seq<nat>>, first: nat, j: nat)
    requires Sound(run, index, first) && j < |run.rows| == |KeptSteps(run.kept)|
    ensures TrueRow(run.rows[j], run, index, first, KeptSteps(run.kept)[j])
  {
    var k := KeptSteps(run.kept)[j];
    StepsBelow(run.kept);
    assert run.rows[j] == RowAt(Deliveries(run.feeds), run.start, k);
    hide KeptSteps;
    hide TrueSlot;
    hide RowsAreRight;
    forall i | 0 <= i < STREAMS
      ensures Piece(run.rows[j].data, i) == TrueSlot(run, index, i, first + k)
    {
      PieceIsTrue(run, index, first, k, i);
    }
  }

  /** The rows of a run survive their bytes, and their samples are small. */
  lemma RowsAreRows(run: Run, j: nat)
    requires RowsAreRight(run) && |run.kept| <= U64 && j < |run.rows|
    ensures IsRow(run.rows[j]) && SmallRow(run.rows[j])
  {
    StepsBelow(run.kept);
    ProcessorRowsAreSmall(Deliveries(run.feeds), run.start, KeptSteps(run.kept)[j]);
  }

  ghost predicate SmallRow(row: Row) {
    |row.data| == VALUES && forall x :: 0 <= x < VALUES ==> row.data[x] < 0x4000_0000_0000
  }

  lemma SmallRows(rows: seq<Row>)
    requires forall j :: 0 <= j < |rows| ==> SmallRow(rows[j])
    ensures Shaped(rows) && Small(rows)
  {
    assert forall j :: 0 <= j < |rows| ==> SmallRow(rows[j]);
  }

  // ------------------------------------------------------------------
  // Reading the rows back
  // ------------------------------------------------------------------

  ghost predicate AllRows(rows: seq<Row>) {
    forall i :: 0 <= i < |rows| ==> IsRow(rows[i])
  }

  lemma AllShaped(rows: seq<Row>)
    requires AllRows(rows)
    ensures Shaped(rows)
  {
  }

  lemma RowsBefore(k: nat, n: nat)
    requires k < n
    ensures k * ROW_BYTES + ROW_BYTES <= n * ROW_BYTES
  {
  }

  lemma RowInLog(base: bytes, rows: seq<Row>, k: nat)
    requires AllRows(rows) && k < |rows|
    ensures Place(|base|, k) + ROW_BYTES <= |base + AllBytes(rows)|
    ensures BlockAt(base + AllBytes(rows), Place(|base|, k)) == RowBytes(rows[k])
  {
    hide IsRow;
    hide RowBytes;
    AllBytesLength(rows) by { AllShaped(rows); }
    RowsBefore(k, |rows|);
    BlockIsRow(rows, k);
    hide AllBytes;
    SliceBehind(base, AllBytes(rows), k * ROW_BYTES, ROW_BYTES);
  }

  lemma SliceBehind(base: bytes, rest: bytes, at: nat, n: nat)
    requires at + n <= |rest|
    ensures (base + rest)[|base| + at..|base| + at + n] == rest[at..at + n]
  {
  }

  lemma SameBlock(log: bytes, log': bytes, at: nat)
    requires (log <= log' || log' <= log) && at + ROW_BYTES <= |log| && at + ROW_BYTES <= |log'|
    ensures BlockAt(log, at) == BlockAt(log', at)
  {
  }

  lemma PlacesAdd(base: nat, m: nat, j: nat)
    ensures Place(Place(base, m), j) == Place(base, m + j)
  {
  }

  /** The averager's rows are these rows, from the m-th on. */
  ghost predicate ReadFrom(rows: seq<Row>, m: nat, read: seq<Row>) {
    m + |read| <= |rows| && forall j :: 0 <= j < |read| ==> read[j] == rows[m + j]
  }

  /** The block at a boundary is the row that was written there. */
  lemma BlockIsRowWritten(base: bytes, log: bytes, log': bytes, rows: seq<Row>, k: nat)
    requires log == base + AllBytes(rows) && (log <= log' || log' <= log) && AllRows(rows) && k < |rows|
    requires Place(|base|, k) + ROW_BYTES <= |log'|
    ensures RowOf(BlockAt(log', Place(|base|, k))) == rows[k]
  {
    hide RowBytes;
    hide AllBytes;
    hide RowOf;
    hide IsRow;
    hide Place;
    hide BlockAt;
    assert IsRow(rows[k]);
    RowRoundTrip(rows[k]);
    RowInLog(base, rows, k);
    SameBlock(log, log', Place(|base|, k));
  }

  /** So the blocks read from a boundary on are the rows written from there on. */
  lemma BlocksAreRows(base: bytes, log: bytes, log': bytes, rows: seq<Row>, m: nat, read: seq<Row>)
    requires log == base + AllBytes(rows) && (log <= log' || log' <= log) && AllRows(rows)
    requires AreBlocks(log', Place(|base|, m), read) && m + |read| <= |rows|
    ensures ReadFrom(rows, m, read)
  {
    hide AllBytes;
    hide AllRows;
    hide RowOf;
    hide BlockAt;
    hide Place;
    forall j | 0 <= j < |read|
      ensures read[j] == rows[m + j]
    {
      var at := Place(Place(|base|, m), j);
      assert at + ROW_BYTES <= |log'| && read[j] == RowOf(BlockAt(log', at));
      PlacesAdd(|base|, m, j);
      BlockIsRowWritten(base, log, log', rows, m + j);
    }
  }

  // ------------------------------------------------------------------
  // Averages
  // ------------------------------------------------------------------

  /** These rows hold what the streams delivered at these steps. */
  ghost predicate HoldTrue(rows: seq<Row>, run: Run, index: seq<seq<nat>>, first: nat, steps: seq<nat>) {
    |rows| == |steps| && forall j :: 0 <= j < |rows| ==> TrueRow(rows[j], run, index, first, steps[j])
  }

  lemma {:induction false} SumIsTrue(rows: seq<Row>, run: Run, index: seq<seq<nat>>, first: nat, steps: seq<nat>, i: nat, x: nat)
    requires HoldTrue(rows, run, index, first, steps) && Shaped(rows) && i < STREAMS && x < SAMPLES_PER_MS
    ensures SumAt(rows, i * SAMPLES_PER_MS + x) == TrueSum(run, index, first, i, steps, x)
    decreases |rows|
  {
    hide TrueSlot;
    if rows != [] {
      var n := |rows| - 1;
      SumIsTrue(rows[..n], run, index, first, steps[..n], i, x);
      assert TrueRow(rows[n], run, index, first, steps[n]);
      assert Piece(rows[n].data, i)[x] == rows[n].data[i * SAMPLES_PER_MS + x];
    }
  }

  /** A block of a run's rows, as the averager read it. */
  lemma BlockHoldsTrue(run: Run, index: seq<seq<nat>>, first: nat, read: seq<Row>, m: nat, q: nat, ratio: nat)
    requires Sound(run, index, first) && ReadFrom(run.rows, m, read) && q + ratio <= |read|
    ensures m + q + ratio <= |KeptSteps(run.kept)|
    ensures HoldTrue(read[q..q + ratio], run, index, first, KeptSteps(run.kept)[m + q..m + q + ratio])
    ensures Shaped(read[q..q + ratio]) && Small(read[q..q + ratio])
  {
    hide Sound;
    hide KeptSteps;
    hide TrueRow;
    hide SmallRow;
    RowPerStep(run, index, first);
    var rows, steps := read[q..q + ratio], KeptSteps(run.kept)[m + q..m + q + ratio];
    forall j | 0 <= j < ratio
      ensures TrueRow(rows[j], run, index, first, steps[j]) && SmallRow(rows[j])
    {
      RowIsSound(run, index, first, m + q + j);
      assert rows[j] == read[q + j] == run.rows[m + (q + j)];
    }
    SmallRows(rows);
  }

  lemma RowIsSound(run: Run, index: seq<seq<nat>>, first: nat, j: nat)
    requires Sound(run, index, first) && j < |run.rows| == |KeptSteps(run.kept)|
    ensures TrueRow(run.rows[j], run, index, first, KeptSteps(run.kept)[j]) && SmallRow(run.rows[j])
  {
    hide KeptSteps;
    hide TrueRow;
    hide SmallRow;
    hide RowsAreRight;
    RowIsTrue(run, index, first, j);
    RowsAreRows(run, j);
  }

  /**
   This average belongs to the block of `ratio` rows written from the at-th on:
   its value for stream i and sample x is the floor mean of what the stream
   delivered for their true milliseconds, and its stamp is the second of the first.
   */
  ghost predicate TrueMean(mean: Row, run: Run, index: seq<seq<nat>>, first: nat, at: nat, ratio: nat, i: nat, x: nat) {
    && 1 <= ratio && at + ratio <= |KeptSteps(run.kept)| && i < STREAMS && x < SAMPLES_PER_MS && |mean.data| == VALUES
    && mean.stamp == KeptSteps(run.kept)[at] / 1000
    && var sum, value := TrueSum(run, index, first, i, KeptSteps(run.kept)[at..at + ratio], x), mean.data[i * SAMPLES_PER_MS + x];
       value * ratio <= sum < (value + 1) * ratio
  }

  lemma AverageIsTrue(run: Run, index: seq<seq<nat>>, first: nat, block: seq<Row>, at: nat, ratio: nat, mean: Row, i: nat, x: nat)
    requires 1 <= ratio <= 0x4_0000 && |block| == ratio && at + ratio <= |KeptSteps(run.kept)|
    requires HoldTrue(block, run, index, first, KeptSteps(run.kept)[at..at + ratio]) && Shaped(block) && Small(block)
    requires IsBlockMean(mean, block) && i < STREAMS && x < SAMPLES_PER_MS
    ensures TrueMean(mean, run, index, first, at, ratio, i, x)
  {
    hide KeptSteps;
    hide TrueSum;
    hide SumAt;
    hide TrueSlot;
    hide Piece;
    var steps := KeptSteps(run.kept)[at..at + ratio];
    assert TrueRow(block[0], run, index, first, steps[0]);
    SumIsTrue(block, run, index, first, steps, i, x);
    MeanIsExact(mean, block, i * SAMPLES_PER_MS + x);
  }

  lemma RunIsRows(run: Run)
    requires RowsAreRight(run) && |run.kept| <= U64
    ensures AllRows(run.rows)
  {
    hide IsRow;
    hide RowsAreRight;
    forall j | 0 <= j < |run.rows|
      ensures IsRow(run.rows[j])
    {
      RowsAreRows(run, j);
    }
  }

  /**
   End to end: the processor wrote a run's rows behind `base` on its output log,
   and the averager read from the m-th of them on.  Then every average it wrote is
   true, for every stream and every sample.
   */
  lemma AveragesAreTrue(run: Run, index: seq<seq<nat>>, first: nat, base: bytes, log: bytes, log': bytes,
                        m: nat, ratio: nat, a: Averages, b: nat, at: nat, i: nat, x: nat)
    requires Sound(run, index, first)
    requires log == base + AllBytes(run.rows) && (log <= log' || log' <= log)
    requires AreBlocks(log', Place(|base|, m), a.rows) && m + |a.rows| <= |run.rows|
    requires Shaped(a.rows) && 1 <= ratio <= 0x4_0000 && AreBlockMeans(a.means, a.rows, ratio, a.kept)
    requires b < |a.means| == |KeptSteps(a.kept)| && at == m + KeptSteps(a.kept)[b] * ratio
    requires i < STREAMS && x < SAMPLES_PER_MS
    ensures TrueMean(a.means[b], run, index, first, at, ratio, i, x)
  {
    hide KeptSteps;
    hide AreBlocks;
    hide AllBytes;
    hide AllRows;
    hide RowsAreRight;
    hide LastedTo;
    hide AllIndexed;
    hide StartTogether;
    hide TrueMean;
    hide IsBlockMean;
    RunIsRows(run);
    BlocksAreRows(base, log, log', run.rows, m, a.rows);
    hide ReadFrom;
    assert MeanOfBlock(a.means[b], a.rows, ratio, KeptSteps(a.kept)[b]);
    var q := at - m;
    BlockHoldsTrue(run, index, first, a.rows, m, q, ratio);
    AverageIsTrue(run, index, first, a.rows[q..q + ratio], at, ratio, a.means[b], i, x);
  }
}
