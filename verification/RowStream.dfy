/**
 Rows on their way from the processor to the averager through a byte ring.

 A row goes out in two confirmed pieces, its stamp and its data, and the
 averager takes fixed-size blocks of bytes without looking for boundaries.  The
 machine below interleaves the two threads; the theorem is that every block the
 averager reads is one whole row, across wraps, dropped rows and restarts.
 */
module RowStream {
  import opened Bytes
  import opened Processor

  const U64: nat := 0x1_0000_0000_0000_0000
  const VALUES: nat := 4096
  const ROW_BYTES: nat := 32776

  // ------------------------------------------------------------------
  // Rows as bytes: unsigned 64-bit little-endian numbers
  // ------------------------------------------------------------------

  function ToBytes(n: nat, width: nat): (b: bytes)
    ensures |b| == width
  {
    if width == 0 then [] else [n % 256] + ToBytes(n / 256, width - 1)
  }

  function FromBytes(b: bytes): nat {
    if b == [] then 0 else b[0] + 256 * FromBytes(b[1..])
  }

  function Pow256(k: nat): nat {
    if k == 0 then 1 else 256 * Pow256(k - 1)
  }

  lemma {:induction false} NumberRoundTrip(n: nat, width: nat)
    requires n < Pow256(width)
    ensures FromBytes(ToBytes(n, width)) == n
    decreases width
  {
    if width > 0 {
      NumberRoundTrip(n / 256, width - 1);
      assert ToBytes(n, width)[1..] == ToBytes(n / 256, width - 1);
    }
  }

  function Encode(values: seq<nat>): (b: bytes)
    ensures |b| == 8 * |values|
  {
    if values == [] then [] else ToBytes(values[0], 8) + Encode(values[1..])
  }

  function Decode(b: bytes): (values: seq<nat>)
    requires |b| % 8 == 0
    ensures |values| == |b| / 8
  {
    if b == [] then [] else [FromBytes(b[..8])] + Decode(b[8..])
  }

  ghost predicate AllU64(values: seq<nat>) {
    forall i :: 0 <= i < |values| ==> values[i] < U64
  }

  lemma {:induction false} ValuesRoundTrip(values: seq<nat>)
    requires AllU64(values)
    ensures Decode(Encode(values)) == values
  {
    if values != [] {
      var b := Encode(values);
      assert b[..8] == ToBytes(values[0], 8) && b[8..] == Encode(values[1..]);
      assert Pow256(8) == U64;
      NumberRoundTrip(values[0], 8);
      ValuesRoundTrip(values[1..]);
    }
  }

  ghost predicate IsRow(row: Row) {
    row.stamp < U64 && |row.data| == VALUES && AllU64(row.data)
  }

  ghost predicate Shaped(rows: seq<Row>) {
    forall j :: 0 <= j < |rows| ==> |rows[j].data| == VALUES
  }

  function RowBytes(row: Row): bytes {
    Encode([row.stamp] + row.data)
  }

  function RowOf(b: bytes): Row
    requires |b| == ROW_BYTES
  {
    var values := Decode(b);
    Row(values[0], values[1..])
  }

  lemma RowRoundTrip(row: Row)
    requires IsRow(row)
    ensures |RowBytes(row)| == ROW_BYTES && RowOf(RowBytes(row)) == row
  {
    ValuesRoundTrip([row.stamp] + row.data);
  }

  /** The two pieces in which a row goes out make up the row. */
  lemma TwoPieces(row: Row)
    ensures RowBytes(row) == ToBytes(row.stamp, 8) + Encode(row.data)
  {
    var values := [row.stamp] + row.data;
    assert values[1..] == row.data;
  }

  // ------------------------------------------------------------------
  // The machine
  // ------------------------------------------------------------------

  datatype Mode = Waiting | Reading | Draining

  /**
   The processed ring as the two threads see it.  `half` is a row whose stamp
   is confirmed and whose data is not; `got` is what the averager has read
   since the recording it is in began, from the row number `first` on.
   */
  datatype State = State(
    recording: bool, half: Option<Row>, rows: seq<Row>, log: bytes,
    mode: Mode, pos: nat, first: nat, got: seq<Row>)

  datatype Event =
    | RecordingStarts
    | StampConfirmed(row: Row)
    | DataConfirmed
    | RecordingEnds
    | AveragerStarts
    | AveragerReads
    | AveragerStops
    | AveragerDrains

  ghost predicate Enabled(s: State, e: Event) {
    match e
    case RecordingStarts => !s.recording
    case StampConfirmed(row) => s.recording && s.half.None? && IsRow(row)
    case DataConfirmed => s.half.Some?
    case RecordingEnds => s.recording && s.half.None?
    case AveragerStarts => s.mode.Waiting? && s.recording
    case AveragerReads => s.mode.Reading? && s.pos + ROW_BYTES <= |s.log|
    case AveragerStops => s.mode.Reading? && !s.recording && |s.log| < s.pos + ROW_BYTES
    case AveragerDrains => s.mode.Draining?
  }

  ghost function Next(s: State, e: Event): State
    requires Enabled(s, e)
  {
    match e
    case RecordingStarts => s.(recording := true)
    case StampConfirmed(row) => s.(half := Some(row), log := s.log + ToBytes(row.stamp, 8))
    case DataConfirmed => s.(half := None, rows := s.rows + [s.half.value], log := s.log + Encode(s.half.value.data))
    case RecordingEnds => s.(recording := false)
    case AveragerStarts => s.(mode := Reading, first := s.pos / ROW_BYTES, got := [])
    case AveragerReads =>
      s.(pos := s.pos + ROW_BYTES, got := s.got + [RowOf(s.log[s.pos..s.pos + ROW_BYTES])])
    case AveragerStops => s.(mode := Draining)
    case AveragerDrains => s.(pos := |s.log|, mode := if s.recording then Draining else Waiting)
  }

  ghost predicate Runs(s: State, events: seq<Event>)
    decreases |events|
  {
    events == [] || (Enabled(s, events[0]) && Runs(Next(s, events[0]), events[1..]))
  }

  ghost function After(s: State, events: seq<Event>): State
    requires Runs(s, events)
    decreases |events|
  {
    if events == [] then s else After(Next(s, events[0]), events[1..])
  }

  ghost function AllBytes(rows: seq<Row>): bytes {
    if rows == [] then [] else AllBytes(rows[..|rows| - 1]) + RowBytes(rows[|rows| - 1])
  }

  /** The averager registers between two rows, after any number of earlier ones; while nothing is recorded it always does. */
  ghost predicate Registered(s: State) {
    && s.half.None? && s.mode.Waiting?
    && (forall i :: 0 <= i < |s.rows| ==> IsRow(s.rows[i]))
    && s.log == AllBytes(s.rows) && s.pos == |s.log|
  }

  // ------------------------------------------------------------------
  // The invariant
  // ------------------------------------------------------------------

  ghost predicate WholeRows(s: State) {
    && (forall i :: 0 <= i < |s.rows| ==> IsRow(s.rows[i]))
    && (s.half.Some? ==> s.recording && IsRow(s.half.value))
    && s.log == AllBytes(s.rows) + (if s.half.Some? then ToBytes(s.half.value.stamp, 8) else [])
  }

  ghost predicate OnBoundary(s: State) {
    match s.mode
    case Waiting => s.pos % ROW_BYTES == 0
    case Reading =>
      && s.pos == (s.first + |s.got|) * ROW_BYTES
      && s.first + |s.got| <= |s.rows| && s.got == s.rows[s.first..s.first + |s.got|]
    case Draining => true
  }

  ghost predicate Inv(s: State) {
    WholeRows(s) && OnBoundary(s) && s.pos <= |s.log|
  }

  lemma {:induction false} AllBytesLength(rows: seq<Row>)
    requires Shaped(rows)
    ensures |AllBytes(rows)| == |rows| * ROW_BYTES
  {
    if rows != [] {
      AllBytesLength(rows[..|rows| - 1]);
    }
  }

  /** Block i of the rows' bytes is row i. */
  lemma {:induction false} BlockIsRow(rows: seq<Row>, i: nat)
    requires (forall k :: 0 <= k < |rows| ==> IsRow(rows[k])) && i < |rows|
    ensures i * ROW_BYTES + ROW_BYTES <= |AllBytes(rows)|
    ensures AllBytes(rows)[i * ROW_BYTES..i * ROW_BYTES + ROW_BYTES] == RowBytes(rows[i])
    decreases |rows|
  {
    var n := |rows| - 1;
    AllBytesLength(rows);
    AllBytesLength(rows[..n]);
    if i < n {
      BlockIsRow(rows[..n], i);
    }
  }

  lemma StampKeepsRows(s: State, row: Row)
    requires WholeRows(s) && Enabled(s, StampConfirmed(row))
    ensures WholeRows(Next(s, StampConfirmed(row)))
  {
    assert s.log + ToBytes(row.stamp, 8) == AllBytes(s.rows) + ToBytes(row.stamp, 8);
  }

  lemma DataKeepsRows(s: State)
    requires WholeRows(s) && Enabled(s, DataConfirmed)
    ensures WholeRows(Next(s, DataConfirmed))
  {
    var row := s.half.value;
    var rows' := s.rows + [row];
    TwoPieces(row);
    assert rows'[..|s.rows|] == s.rows;
    assert AllBytes(rows') == AllBytes(s.rows) + RowBytes(row);
    var s' := Next(s, DataConfirmed);
    assert s'.log == AllBytes(s.rows) + (ToBytes(row.stamp, 8) + Encode(row.data));
    assert s'.log == AllBytes(rows') + [];
  }

  /** The log stays rows, perhaps with a stamp behind them, wherever the averager stands. */
  lemma StepKeepsRows(s: State, e: Event)
    requires WholeRows(s) && Enabled(s, e)
    ensures WholeRows(Next(s, e))
  {
    match e
    case StampConfirmed(row) => StampKeepsRows(s, row);
    case DataConfirmed => DataKeepsRows(s);
    case _ =>
  }

  /** The processor's steps leave what the averager has read in place. */
  lemma ProcessorKeepsInv(s: State, e: Event)
    requires Inv(s) && Enabled(s, e)
    requires e.RecordingStarts? || e.RecordingEnds? || e.StampConfirmed? || e.DataConfirmed?
    ensures Inv(Next(s, e))
  {
    StepKeepsRows(s, e);
    hide WholeRows;
    var s' := Next(s, e);
    assert s.mode.Reading? ==> s'.rows[s.first..s.first + |s.got|] == s.rows[s.first..s.first + |s.got|];
  }

  /** The log's block i is row i. */
  lemma BlockOfLog(s: State, i: nat)
    requires WholeRows(s) && i * ROW_BYTES + ROW_BYTES <= |s.log|
    ensures i < |s.rows| && s.log[i * ROW_BYTES..i * ROW_BYTES + ROW_BYTES] == RowBytes(s.rows[i])
  {
    AllBytesLength(s.rows);
    BlockIsRow(s.rows, i);
    assert s.log[i * ROW_BYTES..i * ROW_BYTES + ROW_BYTES]
        == AllBytes(s.rows)[i * ROW_BYTES..i * ROW_BYTES + ROW_BYTES];
  }

  /** The block at the averager's position, when that is a boundary, is the row of that number. */
  lemma ReadIsRow(s: State, i: nat)
    requires WholeRows(s) && i * ROW_BYTES + ROW_BYTES <= |s.log|
    ensures i < |s.rows|
    ensures RowOf(s.log[i * ROW_BYTES..i * ROW_BYTES + ROW_BYTES]) == s.rows[i]
  {
    BlockOfLog(s, i);
    RowRoundTrip(s.rows[i]);
  }

  lemma ReadKeepsInv(s: State)
    requires Inv(s) && Enabled(s, AveragerReads)
    ensures Inv(Next(s, AveragerReads))
  {
    var i := s.first + |s.got|;
    ReadIsRow(s, i);
    assert s.rows[s.first..i] + [s.rows[i]] == s.rows[s.first..i + 1];
  }

  /** Outside the reading loop the averager stands on a boundary whenever it leaves the drain. */
  lemma ModeKeepsInv(s: State, e: Event)
    requires Inv(s) && Enabled(s, e) && (e.AveragerStarts? || e.AveragerStops? || e.AveragerDrains?)
    ensures Inv(Next(s, e))
  {
    AllBytesLength(s.rows);
  }

  lemma StepKeepsInv(s: State, e: Event)
    requires Inv(s) && Enabled(s, e)
    ensures Inv(Next(s, e))
  {
    match e
    case AveragerStarts => ModeKeepsInv(s, e);
    case AveragerReads => ReadKeepsInv(s);
    case AveragerStops => ModeKeepsInv(s, e);
    case AveragerDrains => ModeKeepsInv(s, e);
    case _ => ProcessorKeepsInv(s, e);
  }

  lemma {:induction false} RunKeepsInv(s: State, events: seq<Event>)
    requires Inv(s) && Runs(s, events)
    ensures Inv(After(s, events))
    decreases |events|
  {
    if events != [] {
      StepKeepsInv(s, events[0]);
      RunKeepsInv(Next(s, events[0]), events[1..]);
    }
  }

  /** Whenever nothing is being recorded, the log is whole rows. */
  lemma IdleLogIsWholeRows(s: State, events: seq<Event>)
    requires Registered(s) && Runs(s, events)
    ensures var s' := After(s, events); !s'.recording ==> |s'.log| == |s'.rows| * ROW_BYTES
  {
    RegisteredIsInv(s);
    RunKeepsInv(s, events);
    AllBytesLength(After(s, events).rows);
  }

  lemma RegisteredIsInv(s: State)
    requires Registered(s)
    ensures Inv(s)
  {
    AllBytesLength(s.rows);
  }

  /** What the averager has read in a recording is an unbroken run of the processor's rows, whole and in order. */
  lemma ReadsAreRows(s: State, events: seq<Event>)
    requires Registered(s) && Runs(s, events)
    ensures var s' := After(s, events);
            s'.mode.Reading? ==>
              s'.first + |s'.got| <= |s'.rows| && s'.got == s'.rows[s'.first..s'.first + |s'.got|]
  {
    RegisteredIsInv(s);
    RunKeepsInv(s, events);
  }

  // ------------------------------------------------------------------
  // Registering inside a row
  // ------------------------------------------------------------------

  /** The stamp of row j, which may be the row still going out. */
  ghost predicate HasStamp(s: State, j: nat) {
    j < |s.rows| || (j == |s.rows| && s.half.Some?)
  }

  ghost function StampOf(s: State, j: nat): nat
    requires HasStamp(s, j)
  {
    if j < |s.rows| then s.rows[j].stamp else s.half.value.stamp
  }

  /** A row's data, its first value taken for a stamp, with the next row's stamp behind it. */
  ghost function Shifted(row: Row, nextStamp: nat): Row
    requires |row.data| == VALUES
  {
    Row(row.data[0], row.data[1..] + [nextStamp])
  }

  /** The averager stands eight bytes into a row, and all it has read are shifted rows. */
  ghost predicate OffBoundary(s: State) {
    match s.mode
    case Waiting => s.pos % ROW_BYTES == 8
    case Reading =>
      && s.pos == (s.first + |s.got|) * ROW_BYTES + 8
      && forall k :: 0 <= k < |s.got| ==> IsShifted(s, k)
    case Draining => true
  }

  /** The k-th block read is row first + k shifted. */
  ghost predicate IsShifted(s: State, k: nat)
    requires k < |s.got|
  {
    var i := s.first + k;
    i < |s.rows| && |s.rows[i].data| == VALUES && HasStamp(s, i + 1) && s.got[k] == Shifted(s.rows[i], StampOf(s, i + 1))
  }

  lemma {:induction false} EncodeJoin(a: seq<nat>, b: seq<nat>)
    ensures Encode(a + b) == Encode(a) + Encode(b)
  {
    if a == [] {
      assert a + b == b;
    } else {
      assert (a + b)[1..] == a[1..] + b && (a + b)[0] == a[0];
      EncodeJoin(a[1..], b);
      assert Encode(a + b) == ToBytes(a[0], 8) + (Encode(a[1..]) + Encode(b));
    }
  }

  /** A row's data bytes and the next stamp's, taken for a row. */
  lemma ShiftedBytes(row: Row, nextStamp: nat)
    requires IsRow(row) && nextStamp < U64
    ensures |Encode(row.data) + ToBytes(nextStamp, 8)| == ROW_BYTES
    ensures RowOf(Encode(row.data) + ToBytes(nextStamp, 8)) == Shifted(row, nextStamp)
  {
    var values := row.data + [nextStamp];
    assert [nextStamp][1..] == [] && Encode([nextStamp]) == ToBytes(nextStamp, 8);
    EncodeJoin(row.data, [nextStamp]);
    ValuesRoundTrip(values);
    assert values[0] == row.data[0] && values[1..] == row.data[1..] + [nextStamp];
  }

  lemma DataBytes(s: State, i: nat)
    requires WholeRows(s) && i * ROW_BYTES + ROW_BYTES <= |s.log|
    ensures i < |s.rows| && s.log[i * ROW_BYTES + 8..i * ROW_BYTES + ROW_BYTES] == Encode(s.rows[i].data)
  {
    BlockOfLog(s, i);
    TwoPieces(s.rows[i]);
    hide WholeRows;
    hide RowBytes;
    var at := i * ROW_BYTES;
    SliceOfSlice(s.log, at, at + 8, at + ROW_BYTES);
  }

  lemma SliceOfSlice(b: bytes, x: nat, y: nat, z: nat)
    requires x <= y <= z <= |b|
    ensures b[x..z][y - x..] == b[y..z] && b[x..z] == b[x..y] + b[y..z]
  {
  }

  /** What stands in the log behind row i's stamp: its data, then the next stamp. */
  lemma DataThenStamp(s: State, i: nat)
    requires WholeRows(s) && i * ROW_BYTES + 8 + ROW_BYTES <= |s.log|
    ensures i < |s.rows| && HasStamp(s, i + 1)
    ensures s.log[i * ROW_BYTES + 8..i * ROW_BYTES + 8 + ROW_BYTES] == Encode(s.rows[i].data) + ToBytes(StampOf(s, i + 1), 8)
  {
    hide Encode;
    hide ToBytes;
    DataBytes(s, i);
    NextStamp(s, i + 1);
    hide WholeRows;
    var at := i * ROW_BYTES;
    assert at + ROW_BYTES == (i + 1) * ROW_BYTES;
    SliceOfSlice(s.log, at + 8, at + ROW_BYTES, at + 8 + ROW_BYTES);
  }

  lemma NextStamp(s: State, j: nat)
    requires WholeRows(s) && j * ROW_BYTES + 8 <= |s.log|
    ensures HasStamp(s, j) && StampOf(s, j) < U64
    ensures s.log[j * ROW_BYTES..j * ROW_BYTES + 8] == ToBytes(StampOf(s, j), 8)
  {
    hide Encode;
    AllBytesLength(s.rows);
    if j < |s.rows| {
      StampBytes(s, j);
    }
  }

  lemma StampBytes(s: State, j: nat)
    requires WholeRows(s) && j * ROW_BYTES + ROW_BYTES <= |s.log|
    ensures j < |s.rows| && s.log[j * ROW_BYTES..j * ROW_BYTES + 8] == ToBytes(s.rows[j].stamp, 8)
  {
    BlockOfLog(s, j);
    TwoPieces(s.rows[j]);
    hide WholeRows;
    hide RowBytes;
    var at := j * ROW_BYTES;
    SliceOfSlice(s.log, at, at + 8, at + ROW_BYTES);
  }

  lemma ReadStaysOff(s: State)
    requires WholeRows(s) && OffBoundary(s) && Enabled(s, AveragerReads)
    ensures OffBoundary(Next(s, AveragerReads))
  {
    var i, s' := s.first + |s.got|, Next(s, AveragerReads);
    NextStamp(s, i + 1);
    DataThenStamp(s, i);
    ShiftedBytes(s.rows[i], StampOf(s, i + 1));
    forall k | 0 <= k < |s'.got|
      ensures IsShifted(s', k)
    {
      assert k < |s.got| ==> IsShifted(s, k);
    }
  }

  lemma StepStaysOff(s: State, e: Event)
    requires WholeRows(s) && OffBoundary(s) && Enabled(s, e) && !e.AveragerDrains?
    ensures OffBoundary(Next(s, e))
  {
    if e.AveragerReads? {
      ReadStaysOff(s);
    } else if s.mode.Reading? {
      var s' := Next(s, e);
      forall k | 0 <= k < |s'.got|
        ensures IsShifted(s', k)
      {
        assert IsShifted(s, k);
      }
    }
  }

  ghost predicate NoDrain(events: seq<Event>) {
    forall k :: 0 <= k < |events| ==> !events[k].AveragerDrains?
  }

  lemma {:induction false} RunStaysOff(s: State, events: seq<Event>)
    requires WholeRows(s) && OffBoundary(s) && Runs(s, events) && NoDrain(events)
    ensures WholeRows(After(s, events)) && OffBoundary(After(s, events))
    decreases |events|
  {
    hide WholeRows;
    hide OffBoundary;
    hide Next;
    hide Enabled;
    if events != [] {
      StepKeepsRows(s, events[0]);
      StepStaysOff(s, events[0]);
      RunStaysOff(Next(s, events[0]), events[1..]);
    }
  }

  /** An averager about to wait for its first recording, having just registered in a log of rows, or inside a row. */
  ghost predicate JustRegistered(s: State) {
    WholeRows(s) && s.mode.Waiting? && s.pos == |s.log|
  }

  /**
   An averager that registers between a row's stamp and its data reads, until it
   drains, one row's data and the next row's stamp in every block.
   */
  lemma MidRowRegistrationMisreads(s: State, events: seq<Event>)
    requires JustRegistered(s) && s.half.Some? && Runs(s, events) && NoDrain(events)
    ensures var s' := After(s, events);
            s'.mode.Reading? ==> forall k :: 0 <= k < |s'.got| ==> IsShifted(s', k)
  {
    MidRowPosition(s);
    RunStaysOff(s, events);
  }

  lemma MidRowPosition(s: State)
    requires WholeRows(s) && s.half.Some?
    ensures |s.log| % ROW_BYTES == 8
  {
    AllBytesLength(s.rows);
  }

  /** What has been read in the current recording is an unbroken run of the processor's rows. */
  ghost predicate ReadRight(s: State) {
    s.mode.Reading? ==> s.first + |s.got| <= |s.rows| && s.got == s.rows[s.first..s.first + |s.got|]
  }

  ghost predicate AlwaysReadsRight(s: State) {
    forall events :: Runs(s, events) && NoDrain(events) ==> ReadRight(After(s, events))
  }

  /** A next row whose stamp is not the last value of the row going out. */
  ghost function Follower(row: Row): (next: Row)
    requires IsRow(row)
    ensures IsRow(next) && next.stamp != row.data[VALUES - 1]
  {
    Row(if row.data[VALUES - 1] == 0 then 1 else 0, row.data)
  }

  /** After registering inside a row, the first block can already be wrong. */
  lemma FirstBlockWrong(s: State)
    requires JustRegistered(s) && s.half.Some?
    ensures !AlwaysReadsRight(s)
  {
    var row := s.half.value;
    var events := [AveragerStarts, DataConfirmed, StampConfirmed(Follower(row)), AveragerReads];
    AllBytesLength(s.rows);
    StepByStep(s, events[0], events[1], events[2], events[3]);
    MidRowRegistrationMisreads(s, events);
    var s' := After(s, events);
    assert IsShifted(s', 0);
    assert s'.rows[s'.first] == row && s'.got[0].data[VALUES - 1] != row.data[VALUES - 1];
    assert !ReadRight(s');
  }

  lemma OneStepMore(s: State, e: Event, events: seq<Event>)
    requires Enabled(s, e) && Runs(Next(s, e), events)
    ensures Runs(s, [e] + events) && After(s, [e] + events) == After(Next(s, e), events)
  {
    assert ([e] + events)[1..] == events;
  }

  lemma StepByStep(s: State, a: Event, b: Event, c: Event, d: Event)
    requires Enabled(s, a) && Enabled(Next(s, a), b) && Enabled(Next(Next(s, a), b), c)
    requires Enabled(Next(Next(Next(s, a), b), c), d)
    ensures Runs(s, [a, b, c, d]) && After(s, [a, b, c, d]) == Next(Next(Next(Next(s, a), b), c), d)
  {
    hide Enabled;
    hide Next;
    var t := Next(Next(s, a), b);
    OneStepMore(Next(t, c), d, []);
    OneStepMore(t, c, [d]);
    OneStepMore(Next(s, a), b, [c, d]);
    OneStepMore(s, a, [b, c, d]);
    assert [d] + [] == [d] && [c] + [d] == [c, d] && [b] + [c, d] == [b, c, d] && [a] + [b, c, d] == [a, b, c, d];
  }

  /** The averager reads right in every run, until it drains, exactly when it registers between two rows. */
  lemma ReadsRightIffBetweenRows(s: State)
    requires JustRegistered(s)
    ensures AlwaysReadsRight(s) <==> s.half.None?
  {
    if s.half.None? {
      forall events | Runs(s, events) && NoDrain(events)
        ensures ReadRight(After(s, events))
      {
        ReadsAreRows(s, events);
      }
    } else {
      FirstBlockWrong(s);
    }
  }
}
