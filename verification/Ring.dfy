/**
 The broadcast ring buffer: one writer, up to READER_MAX_CAP readers, and one
 guard slot that keeps "full" and "empty" apart.

 The class has the fields of the C structure and updates them in place.  Its
 methods are proved against functions of the plain offsets; the lemmas say what
 those offsets mean for a writer that has confirmed `written` bytes in all and a
 reader that has consumed `read` of them.
 */
module Ring {
  import opened Bytes
  import opened Modular

  const READER_MAX_CAP: nat := 128

  /** How many slots after `from` slot k comes, going around once. */
  function Ahead(len: nat, from: nat, k: nat): nat
    requires from < len && k < len
  {
    if from <= k then k - from else k - from + len
  }

  /** The slot that the absolute stream position p falls on. */
  function Slot(len: nat, p: nat): nat
    requires 0 < len
  {
    p % len
  }

  /** Free bytes for one reader: the subtraction is unsigned in the source, so it never goes negative. */
  function SpaceFor(len: nat, head: nat, tail: nat): nat
    requires head < len && tail < len
  {
    var raw := (tail - head + len) % len;
    if raw == 0 then len - 1 else raw - 1
  }

  /** Free bytes for the slowest of the given readers. */
  function WriterSpace(len: nat, head: nat, tails: seq<nat>): (space: nat)
    requires head < len && forall i :: 0 <= i < |tails| ==> tails[i] < len
    ensures space <= len - 1
    ensures forall i :: 0 <= i < |tails| ==> space <= SpaceFor(len, head, tails[i])
    ensures space == len - 1 || exists i :: 0 <= i < |tails| && space == SpaceFor(len, head, tails[i])
  {
    if tails == [] then len - 1 else
      var n := |tails| - 1;
      var before := WriterSpace(len, head, tails[..n]);
      var mine := SpaceFor(len, head, tails[n]);
      if mine < before then mine else before
  }

  function AvailableData(len: nat, head: nat, tail: nat): nat
    requires head < len && tail < len
  {
    if tail < head then head - tail
    else if tail > head then len - tail + head
    else 0
  }

  /** How much of a read of `want` bytes lies in one piece. */
  function ReadLength(len: nat, head: nat, tail: nat, want: nat): nat
    requires head < len && tail < len
  {
    if tail < head || len - tail >= want then want else len - tail
  }

  /** Memory after `src` has been laid down from `head` on, wrapping at the end. */
  function Written(mem: bytes, head: nat, src: bytes): bytes
    requires head < |mem| && |src| <= |mem|
  {
    seq(|mem|, k requires 0 <= k < |mem| =>
      var d := Ahead(|mem|, head, k);
      if d < |src| then src[d] else mem[k])
  }

  // ------------------------------------------------------------------
  // What the offsets mean
  // ------------------------------------------------------------------

  /** The guard slot at work: the free space is the capacity less one, less what this reader has not read. */
  lemma SpaceForIsFree(len: nat, written: nat, read: nat)
    requires 0 < len && read <= written < read + len
    ensures SpaceFor(len, written % len, read % len) == len - 1 - (written - read)
  {
    var d := written - read;
    ModAddCases(read, d, len);
    var gap := read % len - written % len + len;
    if d == 0 {
      ModUnique(gap, 1, 0, len);
    } else if read % len + d < len {
      ModUnique(gap, 0, len - d, len);
    } else {
      ModUnique(gap, 1, len - d, len);
    }
  }

  /** What is reported as available is exactly what has been written and not read. */
  lemma AvailableIsUnread(len: nat, written: nat, read: nat)
    requires 0 < len && read <= written < read + len
    ensures AvailableData(len, written % len, read % len) == written - read
  {
    ModAddCases(read, written - read, len);
  }

  /** A read of available bytes is cut only at the end of memory, and is never cut to nothing. */
  lemma ReadLengthIsContiguous(len: nat, head: nat, tail: nat, want: nat)
    requires head < len && tail < len && want <= AvailableData(len, head, tail)
    ensures var n := ReadLength(len, head, tail, want);
            n <= want && tail + n <= len && (0 < want ==> 0 < n) && (n < want ==> tail + n == len)
  {
  }

  /** Byte j of what is written lands j slots after the head. */
  lemma WrittenAt(mem: bytes, head: nat, src: bytes, j: nat)
    requires head < |mem| && |src| <= |mem| && j < |src|
    ensures Written(mem, head, src)[Slot(|mem|, head + j)] == src[j]
  {
    ModUnique(head, 0, head, |mem|);
    ModAddCases(head, j, |mem|);
  }

  /** Slots that the write does not reach keep their bytes. */
  lemma WrittenElsewhere(mem: bytes, head: nat, src: bytes, k: nat)
    requires head < |mem| && |src| <= |mem| && k < |mem|
    requires forall p :: head <= p < head + |src| ==> Slot(|mem|, p) != k
    ensures Written(mem, head, src)[k] == mem[k]
  {
    var d := Ahead(|mem|, head, k);
    ModUnique(head, 0, head, |mem|);
    ModAddCases(head, d, |mem|);
    assert Slot(|mem|, head + d) == k;
  }

  // ------------------------------------------------------------------
  // The structure itself
  // ------------------------------------------------------------------

  class CircularBuffer {
    const data: array<byte>
    const readerOffset: array<nat>
    var head: nat
    var readerCnt: nat
    var recordingActive: bool

    ghost predicate Valid()
      reads this, data, readerOffset
    {
      && 2 <= data.Length
      && head < data.Length
      && readerOffset.Length == READER_MAX_CAP
      && readerCnt <= READER_MAX_CAP
      && forall i :: 0 <= i < readerCnt ==> readerOffset[i] < data.Length
    }

    ghost function Tails(): seq<nat>
      requires Valid()
      reads this, data, readerOffset
    {
      readerOffset[..readerCnt]
    }

    constructor (bufferSize: nat)
      requires 2 <= bufferSize
      ensures Valid() && fresh(data) && fresh(readerOffset)
      ensures data[..] == seq(bufferSize, _ => 48) && head == 0 && Tails() == [] && !recordingActive
    {
      data := new byte[bufferSize](_ => 48);
      readerOffset := new nat[READER_MAX_CAP](_ => bufferSize);
      head, readerCnt, recordingActive := 0, 0, false;
    }

    /** memcpy into the ring's memory. */
    method CopyIn(at: nat, src: bytes)
      requires at + |src| <= data.Length
      modifies data
      ensures data[..] == old(data[..at]) + src + old(data[at + |src|..])
    {
      for j := 0 to |src|
        invariant data[..] == old(data[..at]) + src[..j] + old(data[at + j..])
      {
        data[at + j] := src[j];
      }
    }

    method MemWrite(src: bytes)
      requires Valid() && |src| <= data.Length
      modifies data
      ensures Valid() && data[..] == Written(old(data[..]), head, src)
    {
      if |src| == 0 {
        return;
      }
      var spaceToEnd := data.Length - head;
      if |src| <= spaceToEnd {
        CopyIn(head, src);
      } else {
        CopyIn(head, src[..spaceToEnd]);
        CopyIn(0, src[spaceToEnd..]);
      }
    }

    method ConfirmWrite(writeLen: nat)
      requires Valid()
      modifies `head
      ensures Valid() && head == (old(head) + writeLen) % data.Length
    {
      head := (head + writeLen) % data.Length;
    }

    method SpaceForWriter() returns (minSpace: nat)
      requires Valid()
      ensures minSpace == WriterSpace(data.Length, head, Tails())
    {
      minSpace := data.Length - 1;
      for i := 0 to readerCnt
        invariant minSpace == WriterSpace(data.Length, head, Tails()[..i])
      {
        var tail := readerOffset[i];
        var raw := (tail - head + data.Length) % data.Length;
        var space := if raw == 0 then data.Length - 1 else raw - 1;
        assert space == SpaceFor(data.Length, head, tail);
        assert Tails()[..i + 1][..i] == Tails()[..i];
        if space < minSpace {
          minSpace := space;
        }
      }
      assert Tails()[..readerCnt] == Tails();
    }

    method ConfirmRead(readerId: nat, readLen: nat)
      requires Valid() && readerId < readerCnt
      modifies readerOffset
      ensures Valid()
      ensures Tails() == old(Tails())[readerId := (old(Tails()[readerId]) + readLen) % data.Length]
    {
      readerOffset[readerId] := (readerOffset[readerId] + readLen) % data.Length;
    }

    method Available(readerId: nat) returns (available: nat)
      requires Valid() && readerId < readerCnt
      ensures available == AvailableData(data.Length, head, Tails()[readerId])
    {
      available := 0;
      if readerOffset[readerId] < head {
        available := head - readerOffset[readerId];
      } else if readerOffset[readerId] > head {
        available := data.Length - readerOffset[readerId] + head;
      }
    }

    /** Where a read starts in memory, and how much of it is in one piece. */
    method ReadData(readerId: nat, want: nat) returns (at: nat, readLen: nat)
      requires Valid() && readerId < readerCnt
      ensures at == Tails()[readerId]
      ensures readLen == ReadLength(data.Length, head, at, want)
    {
      at := readerOffset[readerId];
      if at < head {
        return at, want;
      }
      if data.Length - at >= want {
        return at, want;
      }
      readLen := data.Length - at;
    }

    /** What every consumer does first: join at the writer's position. */
    method Register() returns (readerId: nat)
      requires Valid() && readerCnt < READER_MAX_CAP
      modifies `readerCnt, readerOffset
      ensures Valid() && readerId == old(readerCnt) && Tails() == old(Tails()) + [head]
    {
      readerId := readerCnt;
      readerOffset[readerId] := head;
      readerCnt := readerCnt + 1;
    }

    /** The end of a drain: the reader is moved up to the writer. */
    method AlignToHead(readerId: nat)
      requires Valid() && readerId < readerCnt
      modifies readerOffset
      ensures Valid() && Tails() == old(Tails())[readerId := head]
    {
      readerOffset[readerId] := head;
    }
  }
}
