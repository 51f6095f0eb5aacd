/**
 Rows on their way into a byte ring: the processor and the averager write them
 in the same way.

 A row is written when the ring has more room than the row takes, its stamp
 and its data one after the other; otherwise it is dropped as a whole.
 */
module RowOutput {
  import opened Bytes
  import opened RingLog
  import opened Session
  import opened Processor
  import opened RowStream

  /** How far the log has come once the kept rows of a run are in it. */
  ghost function Reached(written: nat, kept: seq<bool>): nat {
    written + |KeptSteps(kept)| * ROW_BYTES
  }

  /** Row k is kept exactly when the ring, behind the rows kept before it, has room for it and one byte more. */
  ghost predicate RowsAccounted(len: nat, written: nat, kept: seq<bool>, seen: seq<seq<nat>>) {
    && |seen| == |kept|
    && forall k :: 0 <= k < |kept| ==>
         (kept[k] <==> Room(len, Reached(written, kept[..k]), ROW_BYTES + 1, seen[k]))
  }

  /** Since `base` was its log the ring has been given these rows, the kept ones. */
  ghost predicate Written(out: BufferSession, base: bytes, pos: seq<nat>, rows: seq<Row>, kept: seq<bool>, seen: seq<seq<nat>>)
    reads out, out.ring, out.ring.data, out.ring.readerOffset
  {
    && out.Valid() && out.flight.src == []
    && Shaped(rows) && |rows| == |KeptSteps(kept)|
    && out.log == base + AllBytes(rows)
    && RowsAccounted(out.ring.data.Length, |base|, kept, seen)
    && Onwards(pos, seen, out.pos, |base|)
  }

  lemma NothingWritten(out: BufferSession)
    requires out.Valid() && out.flight.src == []
    ensures Written(out, out.log, out.pos, [], [], [])
  {
    assert out.log + AllBytes([]) == out.log;
  }

  lemma KeptSnoc(kept: seq<bool>, k: bool)
    ensures KeptSteps(kept + [k]) == KeptSteps(kept) + (if k then [|kept|] else [])
  {
    assert (kept + [k])[..|kept|] == kept;
  }

  lemma RowsAccountedSnoc(len: nat, written: nat, kept: seq<bool>, seen: seq<seq<nat>>, k: bool, here: seq<nat>)
    requires RowsAccounted(len, written, kept, seen)
    requires k <==> Room(len, Reached(written, kept), ROW_BYTES + 1, here)
    ensures RowsAccounted(len, written, kept + [k], seen + [here])
  {
    hide Room;
    hide Reached;
    hide KeptSteps;
    var kept' := kept + [k];
    forall i | 0 <= i <= |kept|
      ensures kept'[..i] == kept[..i]
    {
    }
    assert kept[..|kept|] == kept;
  }

  lemma RowSnoc(base: bytes, log: bytes, rows: seq<Row>, row: Row)
    requires Shaped(rows) && |row.data| == VALUES && log == base + AllBytes(rows)
    ensures Shaped(rows + [row]) && log + RowBytes(row) == base + AllBytes(rows + [row])
  {
    hide RowBytes;
    AllBytesSnoc(rows, row);
    hide AllBytes;
    Regroup(base, AllBytes(rows), RowBytes(row));
  }

  lemma AllBytesSnoc(rows: seq<Row>, row: Row)
    ensures AllBytes(rows + [row]) == AllBytes(rows) + RowBytes(row)
  {
    hide RowBytes;
    assert (rows + [row])[..|rows|] == rows;
  }

  lemma Regroup(a: bytes, b: bytes, c: bytes)
    ensures a + (b + c) == a + b + c
  {
  }

  lemma LogReached(base: bytes, log: bytes, rows: seq<Row>, kept: seq<bool>)
    requires Shaped(rows) && |rows| == |KeptSteps(kept)| && log == base + AllBytes(rows)
    ensures |log| == Reached(|base|, kept)
  {
    hide KeptSteps;
    AllBytesLength(rows);
  }

  /** One row: the check, then two copies, each confirmed before the next. */
  method WriteRow(out: BufferSession, row: Row,
                  ghost base: bytes, ghost pos: seq<nat>, ghost rows: seq<Row>, ghost kept: seq<bool>, ghost seen: seq<seq<nat>>)
    returns (ghost rows': seq<Row>, ghost kept': seq<bool>, ghost seen': seq<seq<nat>>)
    requires Written(out, base, pos, rows, kept, seen) && |row.data| == VALUES
    modifies out, out.ring, out.ring.data, out.ring.readerOffset
    ensures Written(out, base, pos, rows', kept', seen')
    ensures |kept'| == |kept| + 1 && kept' == kept + [kept'[|kept|]]
    ensures KeptSteps(kept') == KeptSteps(kept) + (if kept'[|kept|] then [|kept|] else [])
    ensures rows' == rows + (if kept'[|kept|] then [row] else [])
  {
    hide RowBytes;
    hide Reached;
    hide KeptSteps;
    hide AllBytes;
    LogReached(base, out.log, rows, kept);
    RowSnoc(base, out.log, rows, row);
    ghost var here;
    ghost var before, mid := out.log, out.pos;
    var fits;
    fits, here := WriteIfFits(out, row);
    kept', seen' := kept + [fits], seen + [here];
    rows' := if fits then rows + [row] else rows;
    KeptSnoc(kept, fits);
    RowsAccountedSnoc(out.ring.data.Length, |base|, kept, seen, fits, here);
    OnwardsSnoc(pos, seen, mid, here, out.pos, |base|, |before|);
  }

  method WriteIfFits(out: BufferSession, row: Row) returns (fits: bool, ghost here: seq<nat>)
    requires out.Valid() && out.flight.src == [] && |row.data| == VALUES
    modifies out, out.ring, out.ring.data, out.ring.readerOffset
    ensures out.Valid() && out.flight.src == []
    ensures fits <==> Room(out.ring.data.Length, |old(out.log)|, ROW_BYTES + 1, here)
    ensures Advanced(old(out.pos), here, |old(out.log)|) && Advanced(here, out.pos, |old(out.log)|)
    ensures out.log == if fits then old(out.log) + RowBytes(row) else old(out.log)
  {
    hide Room;
    fits, here := out.CheckFits(ROW_BYTES + 1);
    if fits {
      WritePieces(out, row);
    }
  }

  method WritePieces(out: BufferSession, row: Row)
    requires out.Valid() && out.flight.src == [] && |row.data| == VALUES && ROW_BYTES + 1 <= out.flight.room
    modifies out, out.ring, out.ring.data, out.ring.readerOffset
    ensures out.Valid() && out.flight.src == []
    ensures Advanced(old(out.pos), out.pos, |old(out.log)|)
    ensures out.log == old(out.log) + RowBytes(row)
  {
    var stamp, data := ToBytes(row.stamp, 8), Encode(row.data);
    hide ToBytes;
    hide Encode;
    TwoPieces(row);
    out.Append(stamp);
    ghost var mid, log := out.pos, out.log;
    out.Append(data);
    AdvancedOn(old(out.pos), mid, out.pos, |old(out.log)|, |log|);
    assert old(out.log) + stamp + data == old(out.log) + (stamp + data);
  }

  /** Room for all rows at the start, and no row is dropped. */
  lemma {:induction false} NoRowDropped(len: nat, written: nat, kept: seq<bool>, pos: seq<nat>, seen: seq<seq<nat>>, pos': seq<nat>, n: nat)
    requires RowsAccounted(len, written, kept, seen) && Onwards(pos, seen, pos', written)
    requires Room(len, written, |kept| * ROW_BYTES + 1, pos) && n <= |kept|
    ensures |KeptSteps(kept[..n])| == n && forall k :: 0 <= k < n ==> kept[k]
  {
    hide Room;
    hide KeptSteps;
    hide Reached;
    if n == 0 {
      NoneKept();
    } else {
      var before := kept[..n - 1];
      NoRowDropped(len, written, kept, pos, seen, pos', n - 1);
      RoomStays(len, written, |kept| * ROW_BYTES + 1, pos, seen[n - 1]);
      OneMoreRowFits(len, written, before, |kept|, seen[n - 1]);
      assert kept[n - 1];
      assert kept[..n] == before + [kept[n - 1]];
      KeptSnoc(before, kept[n - 1]);
    }
  }

  lemma NoneKept()
    ensures KeptSteps([]) == []
  {
  }

  lemma OneMoreRowFits(len: nat, written: nat, kept: seq<bool>, n: nat, pos: seq<nat>)
    requires Room(len, written, n * ROW_BYTES + 1, pos) && |KeptSteps(kept)| < n
    ensures Room(len, Reached(written, kept), ROW_BYTES + 1, pos)
  {
    assert |KeptSteps(kept)| * ROW_BYTES + ROW_BYTES <= n * ROW_BYTES;
  }
}
