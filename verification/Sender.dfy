/**
 The server's sender: one thread that turns a ring into packets.

 It notices recordings by looking at the ring's flag, announces them with START
 and END, and in between ships whatever its reader position has not passed yet.
 */
module Sender {
  import opened Bytes
  import opened Ring
  import opened RingLog
  import opened Session
  import opened Watching
  import opened Wire

  // ------------------------------------------------------------------
  // The packet grammar (INACTIVE | START DATA* END)*
  // ------------------------------------------------------------------

  /** One turn of the grammar. */
  datatype Group = Idle | Recording(id: Value, chunks: seq<bytes>)

  function DataPackets(chunks: seq<bytes>): seq<Packet> {
    if chunks == [] then [] else DataPackets(chunks[..|chunks| - 1]) + [Data(chunks[|chunks| - 1])]
  }

  function GroupPackets(g: Group): seq<Packet> {
    match g
    case Idle => [Inactive]
    case Recording(id, chunks) => [Start(id)] + DataPackets(chunks) + [End]
  }

  function Flatten(groups: seq<Group>): seq<Packet> {
    if groups == [] then [] else Flatten(groups[..|groups| - 1]) + GroupPackets(groups[|groups| - 1])
  }

  /** The packets so far make up whole groups, and perhaps a recording still going on. */
  ghost predicate Shape(packets: seq<Packet>, groups: seq<Group>, open: Option<(Value, seq<bytes>)>) {
    packets == Flatten(groups) + (match open
      case None => []
      case Some((id, chunks)) => [Start(id)] + DataPackets(chunks))
  }

  /** What has been sent is a prefix of a sequence of whole groups. */
  lemma ShapeIsPrefix(packets: seq<Packet>, groups: seq<Group>, open: Option<(Value, seq<bytes>)>)
    requires Shape(packets, groups, open)
    ensures packets <= Flatten(match open
                               case None => groups
                               case Some((id, chunks)) => groups + [Recording(id, chunks)])
  {
    match open
    case None =>
    case Some((id, chunks)) =>
      var more := groups + [Recording(id, chunks)];
      assert more[..|groups|] == groups;
      assert Flatten(more) == packets + [End];
  }

  lemma ShapeIdle(packets: seq<Packet>, groups: seq<Group>)
    requires Shape(packets, groups, None)
    ensures Shape(packets + [Inactive], groups + [Idle], None)
  {
    assert (groups + [Idle])[..|groups|] == groups;
  }

  lemma ShapeStart(packets: seq<Packet>, groups: seq<Group>, id: Value)
    requires Shape(packets, groups, None)
    ensures Shape(packets + [Start(id)], groups, Some((id, [])))
  {
    assert [Start(id)] + DataPackets([]) == [Start(id)];
  }

  lemma ShapeData(packets: seq<Packet>, groups: seq<Group>, id: Value, chunks: seq<bytes>, chunk: bytes)
    requires Shape(packets, groups, Some((id, chunks)))
    ensures Shape(packets + [Data(chunk)], groups, Some((id, chunks + [chunk])))
  {
    assert (chunks + [chunk])[..|chunks|] == chunks;
    assert DataPackets(chunks + [chunk]) == DataPackets(chunks) + [Data(chunk)];
  }

  lemma ShapeEnd(packets: seq<Packet>, groups: seq<Group>, id: Value, chunks: seq<bytes>)
    requires Shape(packets, groups, Some((id, chunks)))
    ensures Shape(packets + [End], groups + [Recording(id, chunks)], None)
  {
    var g := Recording(id, chunks);
    assert (groups + [g])[..|groups|] == groups;
    assert Flatten(groups + [g]) == Flatten(groups) + GroupPackets(g);
  }

  // ------------------------------------------------------------------
  // What the sender has to show for itself
  // ------------------------------------------------------------------

  /** The packets sent, and where they leave the grammar. */
  datatype Trace = Trace(packets: seq<Packet>, groups: seq<Group>, open: Option<(Value, seq<bytes>)>)

  /** What the socket carries since `base` is these packets. */
  ghost predicate OnWire(sent: bytes, base: bytes, packets: seq<Packet>) {
    AllSendable(packets) && sent == base + EncodeAll(packets)
  }

  /** Their payloads are exactly what the reader has passed since it joined. */
  ghost predicate Shipped(log: bytes, start: nat, pos: nat, packets: seq<Packet>) {
    start <= pos <= |log| && Payloads(packets) == log[start..pos]
  }

  lemma OnWireSnoc(sent: bytes, base: bytes, packets: seq<Packet>, p: Packet)
    requires OnWire(sent, base, packets) && Sendable(p)
    ensures OnWire(sent + EncodePacket(p), base, packets + [p])
  {
    EncodeSnoc(packets, p);
    Regroup(base, EncodeAll(packets), EncodePacket(p));
  }

  lemma ShippedLater(log: bytes, log': bytes, start: nat, pos: nat, packets: seq<Packet>)
    requires Shipped(log, start, pos, packets) && log <= log'
    ensures Shipped(log', start, pos, packets)
  {
    assert log'[start..pos] == log[start..pos];
  }

  lemma ShippedControl(log: bytes, start: nat, pos: nat, packets: seq<Packet>, p: Packet)
    requires Shipped(log, start, pos, packets) && !p.Data?
    ensures Shipped(log, start, pos, packets + [p])
  {
    PayloadsSnoc(packets, p);
  }

  lemma ShippedPiece(log: bytes, start: nat, pos: nat, packets: seq<Packet>, piece: bytes)
    requires Shipped(log, start, pos, packets) && pos + |piece| <= |log| && piece == log[pos..pos + |piece|]
    ensures Shipped(log, start, pos + |piece|, packets + [Data(piece)])
  {
    PayloadsSnoc(packets, Data(piece));
    assert log[start..pos] + log[pos..pos + |piece|] == log[start..pos + |piece|];
  }

  lemma ShippedMore(log: bytes, during: bytes, after: bytes, start: nat, pos: nat, packets: seq<Packet>, piece: bytes)
    requires Shipped(log, start, pos, packets) && log <= during <= after
    requires pos + |piece| <= |during| && piece == during[pos..pos + |piece|]
    ensures Shipped(after, start, pos + |piece|, packets + [Data(piece)])
  {
    ShippedLater(log, during, start, pos, packets);
    ShippedPiece(during, start, pos, packets, piece);
    ShippedLater(during, after, start, pos + |piece|, packets + [Data(piece)]);
  }

  // ------------------------------------------------------------------
  // What a pass has to send
  // ------------------------------------------------------------------

  ghost predicate AreData(packets: seq<Packet>, sizes: seq<nat>) {
    |packets| == |sizes| && forall k :: 0 <= k < |packets| ==> packets[k].Data? && |packets[k].payload| == sizes[k]
  }

  /**
   The packets of one pass, by what it saw: INACTIVE or START while nothing is
   under way, a DATA packet for each piece read, and END once a drain has caught
   up.
   */
  ghost predicate Answers(p: Pass<int>, packets: seq<Packet>) {
    match p.sight
    case AtRest(active, id) => packets == [if active then Start(id % 0x1_0000_0000) else Inactive]
    case Awake(_) => AreData(packets, p.sizes)
    case Ending(_) =>
      if CaughtUp(p) then packets != [] && packets[|packets| - 1] == End && AreData(packets[..|packets| - 1], p.sizes)
      else AreData(packets, p.sizes)
  }

  /** So many packets. */
  ghost function Answer(p: Pass<int>): nat {
    if p.sight.AtRest? then 1 else if CaughtUp(p) then |p.sizes| + 1 else |p.sizes|
  }

  /** All the packets of these passes, in order. */
  ghost predicate Answered(passes: seq<Pass<int>>, packets: seq<Packet>) {
    if passes == [] then packets == [] else
      var n := |packets| - Answer(passes[|passes| - 1]);
      0 <= n && Answered(passes[..|passes| - 1], packets[..n]) && Answers(passes[|passes| - 1], packets[n..])
  }

  lemma NoAnswers()
    ensures Answered([], [])
  {
  }

  lemma AnsweredMore(passes: seq<Pass<int>>, packets: seq<Packet>, p: Pass<int>, more: seq<Packet>)
    requires Answered(passes, packets) && Answers(p, more)
    ensures Answered(passes + [p], packets + more)
  {
    assert |more| == Answer(p);
    hide CaughtUp;
    hide Answer;
    var passes' := passes + [p];
    assert passes'[..|passes|] == passes;
    assert (packets + more)[..|packets|] == packets && (packets + more)[|packets|..] == more;
  }

  lemma DataMore(packets: seq<Packet>, sizes: seq<nat>, piece: bytes)
    requires AreData(packets, sizes)
    ensures AreData(packets + [Data(piece)], sizes + [|piece|])
  {
  }

  /** The sender's standing between two steps. */
  ghost predicate Sending(s: BufferSession, sock: Socket, id: nat, start: nat, base: bytes, packets: seq<Packet>)
    reads sock, s, s.ring, s.ring.data, s.ring.readerOffset
  {
    && s.Valid() && id < |s.pos|
    && OnWire(sock.sent, base, packets) && Shipped(s.log, start, s.pos[id], packets)
  }

  /** A packet without payload goes out in one sendall. */
  method SendControl(s: BufferSession, sock: Socket, id: nat, packets: seq<Packet>, p: Packet, ghost start: nat, ghost base: bytes)
    returns (packets': seq<Packet>)
    requires !p.Data? && Sending(s, sock, id, start, base, packets)
    modifies sock`sent, s, s.ring, s.ring.data, s.ring.readerOffset
    ensures packets' == packets + [p] && Sending(s, sock, id, start, base, packets')
    ensures old(s.log) <= s.log && s.pos[id] == old(s.pos[id])
  {
    OnWireSnoc(sock.sent, base, packets, p);
    ShippedControl(s.log, start, s.pos[id], packets, p);
    packets' := packets + [p];
    sock.SendAll(EncodePacket(p));
    ghost var before := s.log;
    s.OtherThreads(id);
    ShippedLater(before, s.log, start, s.pos[id], packets');
  }

  /** A DATA packet: header, then the piece of the ring itself, then the confirm. */
  method SendPiece(s: BufferSession, sock: Socket, id: nat, packets: seq<Packet>, want: nat, ghost start: nat, ghost base: bytes)
    returns (packets': seq<Packet>, piece: bytes)
    requires 1 <= want <= DATA_PACKET_DEFAULT_SIZE
    requires Sending(s, sock, id, start, base, packets) && s.pos[id] + want <= |s.log|
    modifies sock`sent, s, s.ring, s.ring.data, s.ring.readerOffset
    ensures packets' == packets + [Data(piece)] && Sending(s, sock, id, start, base, packets')
    ensures old(s.log) <= s.log && s.pos[id] == old(s.pos[id]) + |piece|
    ensures |piece| == OnePiece(s.ring.data.Length, old(s.pos[id]), want)
  {
    hide OnePiece;
    hide BufferSession.Valid;
    hide EncodePacket;
    hide Shipped;
    ghost var before, from := s.log, s.pos[id];
    piece := SendFromRing(s, sock, id, want);
    packets' := packets + [Data(piece)];
    OnWireSnoc(old(sock.sent), base, packets, Data(piece));
    ghost var during := s.log;
    s.FinishBlock(id, |piece|);
    ShippedMore(before, during, s.log, start, from, packets, piece);
  }

  /** The two sendall calls of a DATA packet; the second reads the ring's memory outside the lock. */
  method SendFromRing(s: BufferSession, sock: Socket, id: nat, want: nat) returns (piece: bytes)
    requires s.Valid() && id < |s.pos| && 1 <= want <= DATA_PACKET_DEFAULT_SIZE && s.pos[id] + want <= |s.log|
    modifies sock`sent, s, s.ring, s.ring.data, s.ring.readerOffset
    ensures s.Valid() && old(s.log) <= s.log && id < |s.pos| && s.pos[id] == old(s.pos[id])
    ensures 1 <= |piece| == OnePiece(s.ring.data.Length, s.pos[id], want) <= want && s.pos[id] + |piece| <= |s.log|
    ensures piece == s.log[s.pos[id]..s.pos[id] + |piece|]
    ensures sock.sent == old(sock.sent) + EncodePacket(Data(piece))
  {
    var at, readLen := s.Contiguous(id, want);
    sock.SendAll(Header(PACKET_TYPE_DATA, readLen));
    piece := s.CopyOut(id, at, readLen);
    sock.SendAll(piece);
    Regroup(old(sock.sent), Header(PACKET_TYPE_DATA, readLen), piece);
  }

  /** Where the packets are in the grammar, and the sender in its log. */
  ghost predicate Underway(s: BufferSession, sock: Socket, id: nat, start: nat, base: bytes, t: Trace)
    reads sock, s, s.ring, s.ring.data, s.ring.readerOffset
  {
    Sending(s, sock, id, start, base, t.packets) && Shape(t.packets, t.groups, t.open)
  }

  lemma UnderwayLater(s: BufferSession, sock: Socket, id: nat, start: nat, base: bytes, t: Trace, before: bytes)
    requires s.Valid() && id < |s.pos| && before <= s.log
    requires OnWire(sock.sent, base, t.packets) && Shipped(before, start, s.pos[id], t.packets) && Shape(t.packets, t.groups, t.open)
    ensures Underway(s, sock, id, start, base, t)
  {
    ShippedLater(before, s.log, start, s.pos[id], t.packets);
  }

  /**
   Whatever is left when a recording ends, in chunks, until a check finds
   nothing; then the tail is aligned, which skips nothing, and END goes out.
   */
  method Drain(s: BufferSession, sock: Socket, id: nat, t: Trace, wakeups: nat, ghost start: nat, ghost base: bytes)
    returns (t': Trace, left: nat, ghost sent: seq<Packet>, ghost p: Pass<int>)
    requires Underway(s, sock, id, start, base, t) && t.open.Some?
    modifies sock`sent, s, s.ring, s.ring.data, s.ring.readerOffset
    ensures old(s.log) <= s.log && Underway(s, sock, id, start, base, t')
    ensures p.from == old(s.pos[id]) && p.had == |old(s.log)| && s.pos[id] == p.from + Sum(p.sizes)
    ensures p.sight.Ending? && Took(s.ring.data.Length, p) && wakeups - left == |p.sizes|
    ensures t'.packets == t.packets + sent && Answers(p, sent)
    ensures 0 < left ==> t'.open.None?
  {
    hide OnePiece;
    hide IsChunk;
    hide OnWire;
    hide Shipped;
    hide Shape;
    hide BufferSession.Valid;
    ghost var from, len, had := s.pos[id], s.ring.data.Length, |s.log|;
    ghost var written, sizes;
    t', left, sent, written, sizes := SendRest(s, sock, id, t, wakeups, start, base);
    p := Pass(from, had, Ending(written), sizes);
    var available := s.Backlog(id);
    if available == 0 {
      assert (sent + [End])[..|sizes|] == sent;
      sent := sent + [End];
      t' := Finish(s, sock, id, t', start, base);
    }
  }

  /** The loop of the drain. */
  method SendRest(s: BufferSession, sock: Socket, id: nat, t: Trace, wakeups: nat, ghost start: nat, ghost base: bytes)
    returns (t': Trace, left: nat, ghost sent: seq<Packet>, ghost written: seq<nat>, ghost sizes: seq<nat>)
    requires Underway(s, sock, id, start, base, t) && t.open.Some?
    modifies sock`sent, s, s.ring, s.ring.data, s.ring.readerOffset
    ensures old(s.log) <= s.log && Underway(s, sock, id, start, base, t') && t'.open.Some?
    ensures s.pos[id] == old(s.pos[id]) + Sum(sizes) && wakeups - left == |sizes|
    ensures Drains(s.ring.data.Length, old(s.pos[id]), |old(s.log)|, written, sizes) && written[|sizes|] == |s.log|
    ensures t'.packets == t.packets + sent && AreData(sent, sizes)
    ensures 0 < left ==> s.pos[id] == |s.log|
  {
    hide Drains;
    hide OnePiece;
    hide Shape;
    hide Shipped;
    hide OnWire;
    hide AreData;
    hide BufferSession.Valid;
    RingIsThere(s);
    t', left, sent, sizes := t, wakeups, [], [];
    ghost var before, from, len := s.log, s.pos[id], s.ring.data.Length;
    s.OtherThreads(id);
    UnderwayLater(s, sock, id, start, base, t, before);
    NoData();
    assert t.packets + [] == t.packets;
    var available: nat := s.Backlog(id);
    written := [|s.log|];
    FirstCheck(len, from, |before|, |s.log|);
    while 0 < left && available > 0
      invariant before <= s.log && Underway(s, sock, id, start, base, t') && t'.open.Some?
      invariant s.pos[id] == from + Sum(sizes) && wakeups - left == |sizes|
      invariant Drains(len, from, |before|, written, sizes) && |written| == |sizes| + 1 && written[|sizes|] == |s.log|
      invariant t'.packets == t.packets + sent && AreData(sent, sizes)
      invariant available == |s.log| - s.pos[id]
    {
      var chunkToRead := if available > DRAIN_CHUNK then DRAIN_CHUNK else available;
      ghost var piece;
      t', piece := SendChunk(s, sock, id, t', chunkToRead, start, base);
      SumSnoc(sizes, |piece|);
      NextCheck(len, from, |before|, written, sizes, |piece|, |s.log|);
      DataMore(sent, sizes, piece);
      assert (t.packets + sent) + [Data(piece)] == t.packets + (sent + [Data(piece)]);
      available := s.Backlog(id);
      sent, written, sizes := sent + [Data(piece)], written + [|s.log|], sizes + [|piece|];
      left := left - 1;
    }
  }

  lemma NoData()
    ensures AreData([], [])
  {
  }

  /** Nothing is left: align the tail, which skips nothing, and send END. */
  method Finish(s: BufferSession, sock: Socket, id: nat, t: Trace, ghost start: nat, ghost base: bytes) returns (t': Trace)
    requires Underway(s, sock, id, start, base, t) && t.open.Some?
    requires s.pos[id] == |s.log|
    modifies sock`sent, s, s.ring, s.ring.data, s.ring.readerOffset
    ensures old(s.log) <= s.log && Underway(s, sock, id, start, base, t')
    ensures t'.packets == t.packets + [End] && t'.open.None? && s.pos[id] == |old(s.log)|
  {
    s.Align(id);
    var packets := SendControl(s, sock, id, t.packets, End, start, base);
    var (rec, chunks) := t.open.value;
    ShapeEnd(t.packets, t.groups, rec, chunks);
    t' := Trace(packets, t.groups + [Recording(rec, chunks)], None);
  }

  method SendChunk(s: BufferSession, sock: Socket, id: nat, t: Trace, want: nat, ghost start: nat, ghost base: bytes)
    returns (t': Trace, ghost piece: bytes)
    requires 1 <= want <= DATA_PACKET_DEFAULT_SIZE && t.open.Some?
    requires Underway(s, sock, id, start, base, t) && s.pos[id] + want <= |s.log|
    modifies sock`sent, s, s.ring, s.ring.data, s.ring.readerOffset
    ensures old(s.log) <= s.log && Underway(s, sock, id, start, base, t') && t'.open.Some?
    ensures t'.packets == t.packets + [Data(piece)] && s.pos[id] == old(s.pos[id]) + |piece|
    ensures |piece| == OnePiece(s.ring.data.Length, old(s.pos[id]), want)
  {
    hide OnePiece;
    hide OnWire;
    hide Shipped;
    hide BufferSession.Valid;
    var packets, chunk := SendPiece(s, sock, id, t.packets, want, start, base);
    var (rec, chunks) := t.open.value;
    ShapeData(t.packets, t.groups, rec, chunks, chunk);
    t', piece := Trace(packets, t.groups, Some((rec, chunks + [chunk]))), chunk;
  }

  /** The first packet of a recording, with the number it has now. */
  method Announce(s: BufferSession, sock: Socket, id: nat, t: Trace, ghost start: nat, ghost base: bytes) returns (t': Trace)
    requires Underway(s, sock, id, start, base, t) && t.open.None?
    modifies sock`sent, s, s.ring, s.ring.data, s.ring.readerOffset
    ensures old(s.log) <= s.log && Underway(s, sock, id, start, base, t') && t'.open.Some? && s.pos[id] == old(s.pos[id])
    ensures t'.packets == t.packets + [Start(old(s.recordingId) % 0x1_0000_0000)]
  {
    var rec: Value := s.recordingId % 0x1_0000_0000;
    var packets := SendControl(s, sock, id, t.packets, Start(rec), start, base);
    ShapeStart(t.packets, t.groups, rec);
    t' := Trace(packets, t.groups, Some((rec, [])));
  }

  /** Nothing is recorded, and nothing is under way. */
  method StandBy(s: BufferSession, sock: Socket, id: nat, t: Trace, ghost start: nat, ghost base: bytes) returns (t': Trace)
    requires Underway(s, sock, id, start, base, t) && t.open.None?
    modifies sock`sent, s, s.ring, s.ring.data, s.ring.readerOffset
    ensures old(s.log) <= s.log && Underway(s, sock, id, start, base, t') && t'.open.None? && s.pos[id] == old(s.pos[id])
    ensures t'.packets == t.packets + [Inactive]
  {
    var packets := SendControl(s, sock, id, t.packets, Inactive, start, base);
    ShapeIdle(t.packets, t.groups);
    t' := Trace(packets, t.groups + [Idle], None);
  }

  /** Wait for a full read, and send what of it is in one piece. */
  method AwaitChunk(s: BufferSession, sock: Socket, id: nat, t: Trace, wakeups: nat, ghost start: nat, ghost base: bytes)
    returns (t': Trace, left: nat, ghost sent: seq<Packet>, ghost p: Pass<int>)
    requires Underway(s, sock, id, start, base, t) && t.open.Some?
    modifies sock`sent, s, s.ring, s.ring.data, s.ring.readerOffset
    ensures old(s.log) <= s.log && Underway(s, sock, id, start, base, t') && t'.open.Some?
    ensures p.from == old(s.pos[id]) && p.had == |old(s.log)| && s.pos[id] == p.from + Sum(p.sizes)
    ensures p.sight.Awake? && Took(s.ring.data.Length, p) && wakeups - left == Spent(p) - 1
    ensures t'.packets == t.packets + sent && Answers(p, sent)
  {
    hide OnePiece;
    hide Shape;
    hide Shipped;
    hide OnWire;
    hide AreData;
    hide BufferSession.Valid;
    ghost var before, from := s.log, s.pos[id];
    t', sent := t, [];
    var look;
    ghost var looks;
    look, left, looks := s.Await(id, READ_SIZE, wakeups);
    UnderwayLater(s, sock, id, start, base, t, before);
    NoData();
    assert t.packets + [] == t.packets;
    p := Pass(from, |before|, Awake(looks), []);
    if look.active && READ_SIZE <= look.available {
      ghost var piece;
      t', piece := SendChunk(s, sock, id, t, READ_SIZE, start, base);
      DataMore([], [], piece);
      SumSnoc([], |piece|);
      sent, p := [] + [Data(piece)], p.(sizes := [] + [|piece|]);
    }
  }

  /** One pass of the sender's loop, from its look at the flag on. */
  method ServeStep(s: BufferSession, sock: Socket, id: nat, t: Trace, threadRecordingActive: bool, wakeups: nat,
                   ghost start: nat, ghost base: bytes)
    returns (t': Trace, active: bool, left: nat, ghost sent: seq<Packet>, ghost p: Pass<int>)
    requires Underway(s, sock, id, start, base, t) && (threadRecordingActive <==> t.open.Some?) && 0 < wakeups
    modifies sock`sent, s, s.ring, s.ring.data, s.ring.readerOffset
    ensures old(s.log) <= s.log && Underway(s, sock, id, start, base, t')
    ensures active == GoesOn(p) && (0 < left ==> (active <==> t'.open.Some?))
    ensures p.from == old(s.pos[id]) && p.had == |old(s.log)| && s.pos[id] == p.from + Sum(p.sizes)
    ensures if threadRecordingActive then (if old(s.ring.recordingActive) then p.sight.Awake? else p.sight.Ending?)
            else p.sight.AtRest? && p.sight.active == old(s.ring.recordingActive)
    ensures Took(s.ring.data.Length, p) && 1 <= wakeups - left == Spent(p)
    ensures t'.packets == t.packets + sent && Answers(p, sent)
  {
    hide Shape;
    hide Shipped;
    hide OnWire;
    hide AreData;
    hide BufferSession.Valid;
    t', left := t, wakeups - 1;
    ghost var before, from := s.log, s.pos[id];
    var bufferRecordingActive := s.ring.recordingActive;
    active := bufferRecordingActive;
    if !threadRecordingActive && !bufferRecordingActive {
      t' := StandBy(s, sock, id, t, start, base);
      sent, p := [Inactive], Pass(from, |before|, AtRest(false, 0), []);
    } else if !threadRecordingActive && bufferRecordingActive {
      s.OtherThreads(id);
      UnderwayLater(s, sock, id, start, base, t, before);
      p := Pass(from, |before|, AtRest(true, s.recordingId), []);
      sent := [Start(s.recordingId % 0x1_0000_0000)];
      t' := Announce(s, sock, id, t, start, base);
    } else if threadRecordingActive && bufferRecordingActive {
      t', left, sent, p := AwaitChunk(s, sock, id, t, left, start, base);
    } else {
      t', left, sent, p := Drain(s, sock, id, t, left, start, base);
    }
  }

  /**
   The whole life of one connection on which sends succeed, for `wakeups` passes,
   wake-ups and chunks in all: whatever the other threads do, the packets are
   those its passes have to send on what they saw, so they follow the grammar,
   and their payloads are the ring's log from the position where the sender
   joined.
   */
  method Serve(s: BufferSession, sock: Socket, wakeups: nat)
    returns (t: Trace, id: nat, ghost start: nat, ghost passes: seq<Pass<int>>)
    requires s.Valid() && s.ring.readerCnt < READER_MAX_CAP
    modifies sock`sent, s, s.ring, s.ring.data, s.ring.readerOffset
    ensures Sending(s, sock, id, start, old(sock.sent), t.packets)
    ensures old(s.log) <= s.log && |old(s.log)| == start
    ensures Shape(t.packets, t.groups, t.open)
    ensures Watched(s.ring.data.Length, start, passes) && AllSpent(passes) == wakeups && s.pos[id] == Reached(start, passes)
    ensures Answered(passes, t.packets)
  {
    hide Watched;
    hide Took;
    hide Under;
    hide GoesOn;
    hide Reached;
    hide AllSpent;
    hide Spent;
    hide Sum;
    hide Answered;
    hide Answers;
    start := |s.log|;
    id := s.Join();
    ghost var base, len := sock.sent, s.ring.data.Length;
    t, passes := Trace([], [], None), [];
    assert base + [] == base;
    NoPasses<int>(len, start);
    NoAnswers();
    hide Shape;
    hide Shipped;
    hide OnWire;
    hide BufferSession.Valid;
    var threadRecordingActive, left: nat := false, wakeups;
    while 0 < left
      invariant old(s.log) <= s.log && Underway(s, sock, id, start, base, t)
      invariant threadRecordingActive == Under(passes) && (0 < left ==> (threadRecordingActive <==> t.open.Some?))
      invariant Watched(len, start, passes) && AllSpent(passes) + left == wakeups && s.pos[id] == Reached(start, passes)
      invariant Answered(passes, t.packets)
    {
      ghost var before, packets := s.log, t.packets;
      ghost var sent, p;
      s.OtherThreads(id);
      UnderwayLater(s, sock, id, start, base, t, before);
      t, threadRecordingActive, left, sent, p := ServeStep(s, sock, id, t, threadRecordingActive, left, start, base);
      WatchedMore(len, start, passes, p);
      AnsweredMore(passes, packets, p, sent);
      passes := passes + [p];
    }
  }

  // ------------------------------------------------------------------
  // From ring to ring
  // ------------------------------------------------------------------

  /**
   A server's sender, a connection, and a client's receiver.  The client's ring
   gains the server's log from where the sender joined to where its reader
   stands, less whole payloads that did not fit.  Nothing is missing exactly when
   every payload fits as it comes in, and never when all that was sent fits at
   the start.  The packets are those of the sender's passes, so a raised flag that
   a pass sees has been announced; and whatever the server's log held when a drain
   had caught up has been sent.  The client's flag is up exactly while the last
   recording announced has not ended.
   */
  method Transfer(server: BufferSession, client: BufferSession, known: set<int>, wakeups: nat)
    returns (t: Trace, kept: seq<bool>, ghost seen: seq<seq<nat>>, ghost serverLog: bytes, ghost start: nat, ghost end: nat,
             ghost passes: seq<Pass<int>>)
    requires server.Valid() && server.ring.readerCnt < READER_MAX_CAP
    requires client.Valid() && client.flight.src == []
    requires server != client && server.ring != client.ring
    requires server.ring.data != client.ring.data && server.ring.readerOffset != client.ring.readerOffset
    modifies server, server.ring, server.ring.data, server.ring.readerOffset
    modifies client, client.ring, client.ring.data, client.ring.readerOffset
    ensures old(server.log) <= serverLog && start == |old(server.log)| <= end <= |serverLog|
    ensures Shape(t.packets, t.groups, t.open) && Payloads(t.packets) == serverLog[start..end]
    ensures Watched(server.ring.data.Length, start, passes) && Answered(passes, t.packets) && AllSpent(passes) == wakeups
    ensures DrainsShipped(passes, end)
    ensures StatusOf(client) == Mirrored(old(StatusOf(client)), t.groups, t.open, known)
    ensures Accounted(client.ring.data.Length, |old(client.log)|, t.packets, kept, seen)
    ensures Onwards(old(client.pos), seen, client.pos, |old(client.log)|)
    ensures client.log == old(client.log) + KeptBytes(t.packets, kept)
    ensures client.log == old(client.log) + serverLog[start..end]
       <==> AllFit(client.ring.data.Length, |old(client.log)|, t.packets, seen)
    ensures end - start <= WriterSpace(client.ring.data.Length, old(client.ring.head), old(client.ring.Tails())) ==>
              client.log == old(client.log) + serverLog[start..end]
  {
    var sock := new Socket([]);
    var id;
    ghost var len, written := client.ring.data.Length, |client.log|;
    RingIsThere(server);
    t, id, start, passes := Serve(server, sock, wakeups);
    serverLog, end := server.log, server.pos[id];
    FinishedAreShipped(server.ring.data.Length, start, passes);
    assert [] + EncodeAll(t.packets) == EncodeAll(t.packets);
    var connection := new Socket(sock.sent);
    client.RoomForNow(end - start);
    var decoded;
    decoded, kept, seen := Receive(connection, client, known, t.packets);
    StatusMirrors(old(StatusOf(client)), t.packets, t.groups, t.open, known);
    KeptAllIffAllFit(len, written, t.packets, kept, seen);
    SamePrefix(old(client.log), KeptBytes(t.packets, kept), Payloads(t.packets));
    if Room(len, written, end - start, old(client.pos)) {
      RoomForAllIsEnough(len, written, t.packets, old(client.pos), seen, client.pos);
    }
  }

  /** What the receiver has been told when the packets are these. */
  ghost function Mirrored(status: Status, groups: seq<Group>, open: Option<(Value, seq<bytes>)>, known: set<int>): Status {
    match open
    case Some((id, _)) => Status(true, if Signed(id) in known then Signed(id) else -1, true)
    case None => if exists k :: 0 <= k < |groups| && groups[k].Recording? then Status(false, 0, false) else status
  }

  lemma {:induction false} ToldJoin(status: Status, a: seq<Packet>, b: seq<Packet>, known: set<int>)
    ensures AllTold(status, a + b, known) == AllTold(AllTold(status, a, known), b, known)
    decreases |b|
  {
    hide Told;
    if b == [] {
      assert a + b == a;
    } else {
      var n := |b| - 1;
      ToldJoin(status, a, b[..n], known);
      assert (a + b)[..|a + b| - 1] == a + b[..n];
    }
  }

  lemma {:induction false} DataTellsNothing(status: Status, chunks: seq<bytes>, known: set<int>)
    ensures AllTold(status, DataPackets(chunks), known) == status
    decreases |chunks|
  {
    if chunks != [] {
      var n := |chunks| - 1;
      DataTellsNothing(status, chunks[..n], known);
      ToldSnoc(status, DataPackets(chunks[..n]), Data(chunks[n]), known);
    }
  }

  lemma OpenTells(status: Status, id: Value, chunks: seq<bytes>, known: set<int>)
    ensures AllTold(status, [Start(id)] + DataPackets(chunks), known) == Told(status, Start(id), known)
  {
    ToldJoin(status, [Start(id)], DataPackets(chunks), known);
    ToldSnoc(status, [], Start(id), known);
    assert [] + [Start(id)] == [Start(id)];
    DataTellsNothing(Told(status, Start(id), known), chunks, known);
  }

  lemma GroupTells(status: Status, g: Group, known: set<int>)
    ensures AllTold(status, GroupPackets(g), known) == if g.Recording? then Status(false, 0, false) else status
  {
    match g
    case Idle =>
      ToldSnoc(status, [], Inactive, known);
      assert [] + [Inactive] == [Inactive];
    case Recording(id, chunks) =>
      OpenTells(status, id, chunks, known);
      ToldSnoc(status, [Start(id)] + DataPackets(chunks), End, known);
  }

  lemma {:induction false} GroupsTell(status: Status, groups: seq<Group>, known: set<int>)
    ensures AllTold(status, Flatten(groups), known) == Mirrored(status, groups, None, known)
    decreases |groups|
  {
    hide AllTold;
    hide GroupPackets;
    if groups == [] {
      NothingTold(status, known);
    } else {
      var n := |groups| - 1;
      GroupsTell(status, groups[..n], known);
      ToldJoin(status, Flatten(groups[..n]), GroupPackets(groups[n]), known);
      GroupTells(Mirrored(status, groups[..n], None, known), groups[n], known);
      assert forall k :: 0 <= k < n ==> groups[..n][k] == groups[k];
    }
  }

  lemma NothingTold(status: Status, known: set<int>)
    ensures AllTold(status, [], known) == status
  {
  }

  /** The receiver's flag and number mirror the sender's grammar. */
  lemma StatusMirrors(status: Status, packets: seq<Packet>, groups: seq<Group>, open: Option<(Value, seq<bytes>)>, known: set<int>)
    requires Shape(packets, groups, open)
    ensures AllTold(status, packets, known) == Mirrored(status, groups, open, known)
  {
    GroupsTell(status, groups, known);
    match open
    case None =>
      assert packets == Flatten(groups);
    case Some((id, chunks)) =>
      ToldJoin(status, Flatten(groups), [Start(id)] + DataPackets(chunks), known);
      OpenTells(AllTold(status, Flatten(groups), known), id, chunks, known);
  }

  /** Up to here all has been sent that the log held when a drain had caught up, and so all that it held when the drain began. */
  ghost predicate DrainsShipped(passes: seq<Pass<int>>, end: nat) {
    forall k :: 0 <= k < |passes| && CaughtUp(passes[k]) ==>
      passes[k].had <= passes[k].sight.written[|passes[k].sight.written| - 1] <= end
  }

  lemma FinishedAreShipped(len: nat, start: nat, passes: seq<Pass<int>>)
    requires 0 < len && Watched(len, start, passes)
    ensures DrainsShipped(passes, Reached(start, passes))
  {
    hide Watched;
    forall k | 0 <= k < |passes| && CaughtUp(passes[k])
      ensures passes[k].had <= passes[k].sight.written[|passes[k].sight.written| - 1] <= Reached(start, passes)
    {
      DrainReadsAll(len, start, passes, k);
    }
  }

  lemma SamePrefix(a: bytes, b: bytes, c: bytes)
    ensures a + b == a + c <==> b == c
  {
    assert (a + b)[|a|..] == b && (a + c)[|a|..] == c;
  }
}
