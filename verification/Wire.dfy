/**
 The packet protocol between server and client.

 A packet is a six-byte header, a magic byte, a type and a big-endian value,
 and for DATA as many payload bytes as the value says.  A socket carries bytes
 in order and cuts them up as it likes.
 */
module Wire {
  import opened Bytes
  import opened Ring
  import opened RingLog
  import opened Session

  const PROTOCOL_MAGIC: byte := 0xAA
  const PACKET_TYPE_START: byte := 1
  const PACKET_TYPE_DATA: byte := 2
  const PACKET_TYPE_END: byte := 3
  const PACKET_TYPE_INACTIVE: byte := 4
  const DATA_PACKET_DEFAULT_SIZE: nat := 15000

  type Value = x: int | 0 <= x < 0x1_0000_0000

  datatype Packet = Start(id: Value) | Data(payload: bytes) | End | Inactive

  /** htonl: the value's bytes in network order. */
  function Big(v: Value): (b: bytes)
    ensures |b| == 4
  {
    [v / 0x100_0000, v / 0x1_0000 % 0x100, v / 0x100 % 0x100, v % 0x100]
  }

  /** ntohl */
  function FromBig(b: bytes): Value
    requires |b| == 4
  {
    (b[0] as int) * 0x100_0000 + (b[1] as int) * 0x1_0000 + (b[2] as int) * 0x100 + b[3]
  }

  lemma BigRoundTrip(v: Value)
    ensures FromBig(Big(v)) == v
  {
    var q := v / 0x100;
    assert q / 0x100 == v / 0x1_0000;
    assert q / 0x100 / 0x100 == v / 0x100_0000;
  }

  function Pow256(n: nat): nat
    ensures 0 < Pow256(n)
  {
    if n == 0 then 1 else 256 * Pow256(n - 1)
  }

  /** Byte k counts 256 to the power 3 - k: the most significant byte comes first. */
  lemma NetworkOrder(v: Value, k: nat)
    requires k < 4
    ensures Big(v)[k] == v / Pow256(3 - k) % 256
  {
    assert Pow256(1) == 256 && Pow256(2) == 65536;
  }

  /** The shifts and masks of a value's bytes, on 32-bit words. */
  lemma ShiftedBytes(v: bv32)
    ensures v >> 24 == v / 0x100_0000 && (v >> 16) & 0xFF == v / 0x1_0000 % 0x100
    ensures (v >> 8) & 0xFF == v / 0x100 % 0x100 && v & 0xFF == v % 0x100
  {
  }

  function Header(kind: byte, value: Value): (h: bytes)
    ensures |h| == 6
  {
    [PROTOCOL_MAGIC, kind] + Big(value)
  }

  /** A packet the sender may send: payloads are never empty and fit one receive. */
  predicate Sendable(p: Packet) {
    p.Data? ==> 1 <= |p.payload| <= 15000
  }

  function EncodePacket(p: Packet): bytes
    requires Sendable(p)
  {
    match p
    case Start(id) => Header(PACKET_TYPE_START, id)
    case Data(payload) => Header(PACKET_TYPE_DATA, |payload|) + payload
    case End => Header(PACKET_TYPE_END, 0)
    case Inactive => Header(PACKET_TYPE_INACTIVE, 0)
  }

  /** The bytes of each kind of packet. */
  lemma PacketBytes(p: Packet)
    requires Sendable(p)
    ensures p.Start? ==> EncodePacket(p) == [0xAA, 1] + Big(p.id)
    ensures p.Data? ==> EncodePacket(p) == [0xAA, 2] + Big(|p.payload|) + p.payload
    ensures p.End? ==> EncodePacket(p) == [0xAA, 3, 0, 0, 0, 0]
    ensures p.Inactive? ==> EncodePacket(p) == [0xAA, 4, 0, 0, 0, 0]
  {
    assert Big(0) == [0, 0, 0, 0];
  }

  predicate AllSendable(packets: seq<Packet>) {
    forall i :: 0 <= i < |packets| ==> Sendable(packets[i])
  }

  function EncodeAll(packets: seq<Packet>): bytes
    requires AllSendable(packets)
  {
    if packets == [] then [] else EncodePacket(packets[0]) + EncodeAll(packets[1..])
  }

  lemma {:induction false} EncodeSnoc(packets: seq<Packet>, last: Packet)
    requires AllSendable(packets) && Sendable(last)
    ensures AllSendable(packets + [last]) && EncodeAll(packets + [last]) == EncodeAll(packets) + EncodePacket(last)
  {
    hide EncodePacket;
    hide Sendable;
    if packets == [] {
      assert [last][1..] == [];
    } else {
      assert (packets + [last])[1..] == packets[1..] + [last];
      EncodeSnoc(packets[1..], last);
    }
  }

  /** The payload bytes of a packet sequence, in order. */
  function Payload(p: Packet): bytes {
    if p.Data? then p.payload else []
  }

  function Payloads(packets: seq<Packet>): bytes {
    if packets == [] then [] else
      Payloads(packets[..|packets| - 1]) + Payload(packets[|packets| - 1])
  }

  lemma PayloadsSnoc(packets: seq<Packet>, last: Packet)
    ensures Payloads(packets + [last]) == Payloads(packets) + Payload(last)
  {
    assert (packets + [last])[..|packets|] == packets;
  }

  // ------------------------------------------------------------------
  // Sockets
  // ------------------------------------------------------------------

  /** One direction of a connection: bytes sent, and bytes still to arrive before the peer closes. */
  class Socket {
    var sent: bytes
    var incoming: bytes

    constructor (arriving: bytes)
      ensures incoming == arriving && sent == []
    {
      incoming, sent := arriving, [];
    }

    /** recv: at least one byte, at most `max`; none once the peer has closed. */
    method Recv(max: nat) returns (chunk: bytes)
      requires 0 < max
      modifies this`incoming
      ensures chunk + incoming == old(incoming) && |chunk| <= max
      ensures chunk == [] <==> old(incoming) == []
    {
      var n: int := *;
      if incoming == [] {
        n := 0;
      } else if n < 1 || max < n || |incoming| < n {
        n := 1;
      }
      chunk := incoming[..n];
      incoming := incoming[n..];
    }

    /** send: at least one of the bytes offered. */
    method Send(buf: bytes) returns (n: nat)
      requires buf != []
      modifies this`sent
      ensures 1 <= n <= |buf| && sent == old(sent) + buf[..n]
    {
      var m: int := *;
      n := if 1 <= m <= |buf| then m else 1;
      sent := sent + buf[..n];
    }

    /** recvExact: all of `len` bytes, or false when the peer closes first. */
    method RecvExact(len: nat) returns (ok: bool, buf: bytes)
      modifies this`incoming
      ensures ok <==> len <= |old(incoming)|
      ensures ok ==> |buf| == len && buf + incoming == old(incoming)
      ensures !ok ==> incoming == []
    {
      buf := [];
      while |buf| < len
        invariant |buf| <= len && buf + incoming == old(incoming)
      {
        var chunk := Recv(len - |buf|);
        if chunk == [] {
          return false, buf;
        }
        ghost var before := buf;
        buf := buf + chunk;
        assert buf + incoming == before + (chunk + incoming);
      }
      ok := true;
    }

    /** sendall */
    method SendAll(buf: bytes)
      modifies this`sent
      ensures sent == old(sent) + buf
    {
      var total := 0;
      while total < |buf|
        invariant total <= |buf| && sent == old(sent) + buf[..total]
      {
        var n := Send(buf[total..]);
        assert buf[..total] + buf[total..][..n] == buf[..total + n];
        total := total + n;
      }
      assert buf[..total] == buf;
    }
  }

  // ------------------------------------------------------------------
  // The receiver
  // ------------------------------------------------------------------

  /** The payload bytes that were kept: packet i's if kept[i]. */
  function KeptBytes(packets: seq<Packet>, kept: seq<bool>): bytes
    requires |packets| == |kept|
  {
    if packets == [] then [] else
      var n := |packets| - 1;
      KeptBytes(packets[..n], kept[..n]) + (if kept[n] then Payload(packets[n]) else [])
  }

  lemma KeptSnoc(packets: seq<Packet>, kept: seq<bool>, p: Packet, k: bool)
    requires |packets| == |kept|
    ensures KeptBytes(packets + [p], kept + [k]) == KeptBytes(packets, kept) + (if k then Payload(p) else [])
  {
    assert (packets + [p])[..|packets|] == packets && (kept + [k])[..|kept|] == kept;
  }

  /** Dropping a payload makes what is kept shorter. */
  lemma {:induction false} KeptIsShorter(packets: seq<Packet>, kept: seq<bool>)
    requires |packets| == |kept| && AllSendable(packets)
    ensures |KeptBytes(packets, kept)| <= |Payloads(packets)|
    ensures |KeptBytes(packets, kept)| == |Payloads(packets)| <==> forall i :: 0 <= i < |kept| && packets[i].Data? ==> kept[i]
  {
    if packets != [] {
      var n := |packets| - 1;
      KeptIsShorter(packets[..n], kept[..n]);
      assert forall i :: 0 <= i < n ==> packets[..n][i] == packets[i] && kept[..n][i] == kept[i];
      assert packets[n].Data? ==> |packets[n].payload| >= 1;
    }
  }

  /** With nothing dropped, what is kept is everything. */
  lemma {:induction false} KeepingAll(packets: seq<Packet>, kept: seq<bool>)
    requires |packets| == |kept| && forall i :: 0 <= i < |kept| && packets[i].Data? ==> kept[i]
    ensures KeptBytes(packets, kept) == Payloads(packets)
  {
    if packets != [] {
      KeepingAll(packets[..|packets| - 1], kept[..|kept| - 1]);
    }
  }

  // ------------------------------------------------------------------
  // What the ring has room for
  // ------------------------------------------------------------------

  /**
   A payload is kept exactly when it fits behind what was kept before it, in a
   ring of `len` bytes that had confirmed `written`, with the readers where they
   stood when the payload came in.
   */
  ghost predicate Accounted(len: nat, written: nat, packets: seq<Packet>, kept: seq<bool>, seen: seq<seq<nat>>) {
    && |kept| == |seen| == |packets|
    && forall k :: 0 <= k < |packets| && packets[k].Data? ==>
         (kept[k] <==> Room(len, written + |KeptBytes(packets[..k], kept[..k])|, |packets[k].payload|, seen[k]))
  }

  /** Every payload fits behind all the payloads before it. */
  ghost predicate AllFit(len: nat, written: nat, packets: seq<Packet>, seen: seq<seq<nat>>) {
    && |seen| == |packets|
    && forall k :: 0 <= k < |packets| && packets[k].Data? ==>
         Room(len, written + |Payloads(packets[..k])|, |packets[k].payload|, seen[k])
  }

  /** What is kept is everything exactly when every payload fits. */
  lemma KeptAllIffAllFit(len: nat, written: nat, packets: seq<Packet>, kept: seq<bool>, seen: seq<seq<nat>>)
    requires AllSendable(packets) && Accounted(len, written, packets, kept, seen)
    ensures KeptBytes(packets, kept) == Payloads(packets) <==> AllFit(len, written, packets, seen)
  {
    hide Room;
    if AllFit(len, written, packets, seen) {
      AllFitKeepsAll(len, written, packets, kept, seen, |packets|);
      KeepingAll(packets, kept);
    }
    if KeptBytes(packets, kept) == Payloads(packets) {
      KeptIsShorter(packets, kept);
      forall k | 0 <= k < |packets| && packets[k].Data?
        ensures Room(len, written + |Payloads(packets[..k])|, |packets[k].payload|, seen[k])
      {
        KeepingAll(packets[..k], kept[..k]);
      }
    }
  }

  lemma {:induction false} AllFitKeepsAll(len: nat, written: nat, packets: seq<Packet>, kept: seq<bool>, seen: seq<seq<nat>>, n: nat)
    requires Accounted(len, written, packets, kept, seen) && AllFit(len, written, packets, seen) && n <= |packets|
    ensures forall i :: 0 <= i < n && packets[i].Data? ==> kept[i]
  {
    hide Room;
    if n > 0 {
      AllFitKeepsAll(len, written, packets, kept, seen, n - 1);
      KeepingAll(packets[..n - 1], kept[..n - 1]);
    }
  }

  /** The payloads before a packet and its own are within all of them. */
  lemma {:induction false} PayloadsWithin(packets: seq<Packet>, k: nat)
    requires k < |packets|
    ensures |Payloads(packets[..k])| + |Payload(packets[k])| <= |Payloads(packets)|
    decreases |packets|
  {
    var n := |packets| - 1;
    if k < n {
      PayloadsWithin(packets[..n], k);
      assert packets[..n][..k] == packets[..k];
    }
  }

  /** Room for all the payloads at the start, and readers that only go on, make every payload fit. */
  lemma RoomForAllIsEnough(len: nat, written: nat, packets: seq<Packet>, pos: seq<nat>, seen: seq<seq<nat>>, pos': seq<nat>)
    requires Room(len, written, |Payloads(packets)|, pos) && Onwards(pos, seen, pos', written) && |seen| == |packets|
    ensures AllFit(len, written, packets, seen)
  {
    forall k | 0 <= k < |packets| && packets[k].Data?
      ensures Room(len, written + |Payloads(packets[..k])|, |packets[k].payload|, seen[k])
    {
      PayloadsWithin(packets, k);
      RoomStays(len, written, |Payloads(packets)|, pos, seen[k]);
    }
  }

  // ------------------------------------------------------------------
  // What the packets say about the recording
  // ------------------------------------------------------------------

  /** recordingActive, recordingInfo.id and recordingInfo.record. */
  datatype Status = Status(active: bool, id: int, record: bool)

  /** The number as the receiver's int. */
  function Signed(v: Value): int {
    if v < 0x8000_0000 then v else v - 0x1_0000_0000
  }

  /** START looks the number up among the plan items that are known; one that is not is recorded under -1. */
  function Told(status: Status, p: Packet, known: set<int>): Status {
    match p
    case Start(id) => Status(true, if Signed(id) in known then Signed(id) else -1, true)
    case End => Status(false, 0, false)
    case _ => status
  }

  function AllTold(status: Status, packets: seq<Packet>, known: set<int>): Status {
    if packets == [] then status else
      Told(AllTold(status, packets[..|packets| - 1], known), packets[|packets| - 1], known)
  }

  lemma ToldSnoc(status: Status, packets: seq<Packet>, p: Packet, known: set<int>)
    ensures AllTold(status, packets + [p], known) == Told(AllTold(status, packets, known), p, known)
  {
    assert (packets + [p])[..|packets|] == packets;
  }

  /** The last START or END decides, and where there is none nothing changes. */
  lemma {:induction false} LastDecides(status: Status, packets: seq<Packet>, known: set<int>, k: nat)
    requires k < |packets| && (packets[k].Start? || packets[k].End?)
    requires forall j :: k < j < |packets| ==> !packets[j].Start? && !packets[j].End?
    ensures var now := AllTold(status, packets, known);
            && (now.active <==> packets[k].Start?)
            && (packets[k].Start? && packets[k].id < 0x8000_0000 && packets[k].id as int in known ==> now.id == packets[k].id)
            && (packets[k].End? ==> now.id == 0)
    decreases |packets|
  {
    if k < |packets| - 1 {
      LastDecides(status, packets[..|packets| - 1], known, k);
    }
  }

  /** What came in is one packet and the rest. */
  lemma SplitFirst(packets: seq<Packet>, header: bytes, rest: bytes)
    requires packets != [] && AllSendable(packets) && |header| == 6 && header + rest == EncodeAll(packets)
    ensures var p := packets[0];
            && header[0] == PROTOCOL_MAGIC
            && header[1] == EncodePacket(p)[1] && FromBig(header[2..]) == FromBig(EncodePacket(p)[2..6])
            && rest == EncodePacket(p)[6..] + EncodeAll(packets[1..])
  {
    var first := EncodePacket(packets[0]);
    SplitAt(header, rest, first, EncodeAll(packets[1..]));
    assert header[2..] == first[2..6];
  }

  lemma SplitAt(a: bytes, b: bytes, c: bytes, d: bytes)
    requires a + b == c + d && |a| <= |c|
    ensures a == c[..|a|] && b == c[|a|..] + d
  {
    assert a == (a + b)[..|a|] && b == (a + b)[|a|..];
  }

  /** The value field of a packet. */
  function ValueOf(p: Packet): Value
    requires Sendable(p)
  {
    match p
    case Start(id) => id
    case Data(payload) => |payload|
    case End => 0
    case Inactive => 0
  }

  lemma HeaderValue(p: Packet)
    requires Sendable(p)
    ensures FromBig(EncodePacket(p)[2..6]) == ValueOf(p)
    ensures EncodePacket(p)[6..] == Payload(p)
  {
    BigRoundTrip(ValueOf(p));
    assert EncodePacket(p)[2..6] == Big(ValueOf(p));
  }

  /** The next payload is all there, in front of the packets after it. */
  lemma PayloadFirst(buf: bytes, rest: bytes, payload: bytes, later: bytes)
    requires buf + rest == payload + later && |buf| == |payload|
    ensures buf == payload && rest == later
  {
    SplitAt(buf, rest, payload, later);
  }

  /**
   networkProducerThread's packet loop, on a connection that carries whole
   packets and then closes: what is decoded, what of it the ring had room for,
   and where its readers stood when each packet came in.  `known` are the ids of
   the plan items in the client's database.
   */
  method Receive(sock: Socket, s: BufferSession, known: set<int>, ghost packets: seq<Packet>)
    returns (decoded: seq<Packet>, kept: seq<bool>, ghost seen: seq<seq<nat>>)
    requires AllSendable(packets) && sock.incoming == EncodeAll(packets)
    requires s.Valid() && s.flight.src == []
    modifies sock`incoming, s, s.ring, s.ring.data, s.ring.readerOffset
    ensures s.Valid() && s.flight.src == []
    ensures decoded == packets && Accounted(s.ring.data.Length, |old(s.log)|, packets, kept, seen)
    ensures Onwards(old(s.pos), seen, s.pos, |old(s.log)|)
    ensures s.log == old(s.log) + KeptBytes(packets, kept)
    ensures StatusOf(s) == AllTold(old(StatusOf(s)), packets, known)
  {
    decoded, kept, seen := [], [], [];
    ghost var later := packets;
    assert [] + packets == packets;
    var connected := true;
    while connected
      invariant Received(sock, s, old(s.log), old(s.pos), packets, decoded, kept, seen, later)
      invariant StatusOf(s) == AllTold(old(StatusOf(s)), decoded, known)
      invariant !connected ==> later == []
      decreases |later|, connected
    {
      connected, decoded, kept, seen, later :=
        ReceiveNext(sock, s, known, old(s.log), old(s.pos), packets, decoded, kept, seen, later, old(StatusOf(s)));
    }
    assert decoded + [] == decoded;
  }

  /** One header, and the packet it announces. */
  method ReceiveNext(sock: Socket, s: BufferSession, known: set<int>, ghost log: bytes, ghost pos: seq<nat>, ghost packets: seq<Packet>,
                     decoded: seq<Packet>, kept: seq<bool>, ghost seen: seq<seq<nat>>, ghost later: seq<Packet>, ghost status: Status)
    returns (connected: bool, decoded': seq<Packet>, kept': seq<bool>, ghost seen': seq<seq<nat>>, ghost later': seq<Packet>)
    requires Received(sock, s, log, pos, packets, decoded, kept, seen, later) && StatusOf(s) == AllTold(status, decoded, known)
    modifies sock`incoming, s, s.ring, s.ring.data, s.ring.readerOffset
    ensures Received(sock, s, log, pos, packets, decoded', kept', seen', later') && StatusOf(s) == AllTold(status, decoded', known)
    ensures if connected then |later'| < |later| else later' == later == []
  {
    decoded', kept', seen', later' := decoded, kept, seen, later;
    var ok, header := sock.RecvExact(6);
    if !ok {
      EncodedAtLeastSix(later);
      return false, decoded, kept, seen, later;
    }
    SplitFirst(later, header, sock.incoming);
    var p, k;
    ghost var here;
    ghost var before, mid := s.log, s.pos;
    p, k, here := ReceiveOne(sock, s, known, header, later[0], EncodeAll(later[1..]));
    ToldSnoc(status, decoded, p, known);
    OnePacketOn(log, packets, decoded, kept, later, p, k);
    AccountedSnoc(s.ring.data.Length, log, before, decoded, kept, seen, p, k, here);
    OnwardsSnoc(pos, seen, mid, here, s.pos, |log|, |before|);
    connected, decoded', kept', seen', later' := true, decoded + [p], kept + [k], seen + [here], later[1..];
  }

  /** Some packets are decoded and accounted for; the encodings of the later ones are still to arrive. */
  ghost predicate Received(sock: Socket, s: BufferSession, log: bytes, pos: seq<nat>, packets: seq<Packet>,
                           decoded: seq<Packet>, kept: seq<bool>, seen: seq<seq<nat>>, later: seq<Packet>)
    reads sock, s, s.ring, s.ring.data, s.ring.readerOffset
  {
    && s.Valid() && s.flight.src == []
    && packets == decoded + later && Accounted(s.ring.data.Length, |log|, decoded, kept, seen)
    && Onwards(pos, seen, s.pos, |log|)
    && AllSendable(later) && sock.incoming == EncodeAll(later)
    && s.log == log + KeptBytes(decoded, kept)
  }

  lemma AccountedSnoc(len: nat, log: bytes, before: bytes, packets: seq<Packet>, kept: seq<bool>, seen: seq<seq<nat>>,
                      p: Packet, k: bool, here: seq<nat>)
    requires Accounted(len, |log|, packets, kept, seen) && before == log + KeptBytes(packets, kept)
    requires p.Data? ==> (k <==> Room(len, |before|, |p.payload|, here))
    ensures Accounted(len, |log|, packets + [p], kept + [k], seen + [here])
  {
    hide Room;
    var packets', kept' := packets + [p], kept + [k];
    forall i | 0 <= i <= |packets|
      ensures packets'[..i] == packets[..i] && kept'[..i] == kept[..i]
    {
    }
    assert packets[..|packets|] == packets && kept[..|kept|] == kept;
  }

  lemma EncodedAtLeastSix(packets: seq<Packet>)
    requires AllSendable(packets)
    ensures packets != [] ==> |EncodeAll(packets)| >= 6
  {
    if packets != [] {
      assert |EncodePacket(packets[0])| >= 6;
    }
  }

  lemma OnePacketOn(log: bytes, packets: seq<Packet>, decoded: seq<Packet>, kept: seq<bool>, later: seq<Packet>, p: Packet, k: bool)
    requires packets == decoded + later && later != [] && p == later[0] && |kept| == |decoded|
    ensures packets == (decoded + [p]) + later[1..]
    ensures log + KeptBytes(decoded + [p], kept + [k]) == (log + KeptBytes(decoded, kept)) + (if k then Payload(p) else [])
  {
    hide Payload;
    hide KeptBytes;
    assert later == [p] + later[1..];
    KeptSnoc(decoded, kept, p, k);
    Regroup(log, KeptBytes(decoded, kept), if k then Payload(p) else []);
  }

  lemma Regroup(a: bytes, b: bytes, c: bytes)
    ensures a + (b + c) == a + b + c
  {
  }

  /** The payload, in receives of at most DATA_PACKET_DEFAULT_SIZE; a payload the sender may send takes one. */
  method ReceiveData(sock: Socket, s: BufferSession, value: nat, ghost payload: bytes, ghost later: bytes)
    returns (received: bytes, kept: bool, ghost seen: seq<nat>)
    requires 1 <= value == |payload| <= DATA_PACKET_DEFAULT_SIZE && sock.incoming == payload + later
    requires s.Valid() && s.flight.src == []
    modifies sock`incoming, s, s.ring, s.ring.data, s.ring.readerOffset
    ensures s.Valid() && s.flight.src == []
    ensures received == payload && sock.incoming == later
    ensures s.log == old(s.log) + (if kept then payload else [])
    ensures kept <==> Room(s.ring.data.Length, |old(s.log)|, |payload|, seen)
    ensures Advanced(old(s.pos), seen, |old(s.log)|) && Advanced(seen, s.pos, |old(s.log)|)
    ensures |payload| <= WriterSpace(s.ring.data.Length, old(s.ring.head), old(s.ring.Tails())) ==> kept
    ensures StatusOf(s) == old(StatusOf(s))
  {
    received, kept, seen := [], false, s.pos;
    var dataToRead := value;
    while dataToRead > 0
      invariant s.Valid() && s.flight.src == [] && StatusOf(s) == old(StatusOf(s))
      invariant dataToRead == value || dataToRead == 0
      invariant dataToRead == value ==>
                  && received == [] && sock.incoming == payload + later && s.log == old(s.log) && s.pos == old(s.pos)
                  && s.ring.head == old(s.ring.head) && s.ring.Tails() == old(s.ring.Tails())
      invariant dataToRead == 0 ==>
                  && received == payload && sock.incoming == later
                  && s.log == old(s.log) + (if kept then payload else [])
                  && (kept <==> Room(s.ring.data.Length, |old(s.log)|, |payload|, seen))
                  && Advanced(old(s.pos), seen, |old(s.log)|) && Advanced(seen, s.pos, |old(s.log)|)
                  && (|payload| <= WriterSpace(s.ring.data.Length, old(s.ring.head), old(s.ring.Tails())) ==> kept)
    {
      var chunk := if dataToRead > DATA_PACKET_DEFAULT_SIZE then DATA_PACKET_DEFAULT_SIZE else dataToRead;
      var ok, readBuffer := sock.RecvExact(chunk);
      PayloadFirst(readBuffer, sock.incoming, payload, later);
      kept, seen := s.Offer(readBuffer);
      received := received + readBuffer;
      dataToRead := dataToRead - |readBuffer|;
    }
  }

  function StatusOf(s: BufferSession): Status
    reads s, s.ring
  {
    Status(s.ring.recordingActive, s.recordingId, s.shouldRecord)
  }

  /** One packet, its header already read. */
  method ReceiveOne(sock: Socket, s: BufferSession, known: set<int>, header: bytes, ghost p: Packet, ghost later: bytes)
    returns (decoded: Packet, kept: bool, ghost seen: seq<nat>)
    requires Sendable(p) && s.Valid() && s.flight.src == []
    requires |header| == 6 && header[0] == PROTOCOL_MAGIC
    requires header[1] == EncodePacket(p)[1] && FromBig(header[2..]) == FromBig(EncodePacket(p)[2..6])
    requires sock.incoming == EncodePacket(p)[6..] + later
    modifies sock`incoming, s, s.ring, s.ring.data, s.ring.readerOffset
    ensures s.Valid() && s.flight.src == []
    ensures decoded == p && sock.incoming == later
    ensures s.log == old(s.log) + (if kept then Payload(p) else [])
    ensures p.Data? ==> (kept <==> Room(s.ring.data.Length, |old(s.log)|, |p.payload|, seen))
    ensures Advanced(old(s.pos), seen, |old(s.log)|) && Advanced(seen, s.pos, |old(s.log)|)
    ensures StatusOf(s) == Told(old(StatusOf(s)), p, known)
  {
    HeaderValue(p);
    var value := FromBig(header[2..]);
    kept, seen := false, s.pos;
    assert [] + later == later;
    if header[1] == PACKET_TYPE_START {
      var id: int := if value < 0x8000_0000 then value else (value as int) - 0x1_0000_0000;
      s.recordingId := if id in known then id else -1;
      s.shouldRecord := true;
      s.ring.recordingActive := true;
      decoded := Start(value);
    } else if header[1] == PACKET_TYPE_DATA {
      var payload;
      payload, kept, seen := ReceiveData(sock, s, value, p.payload, later);
      decoded := Data(payload);
    } else if header[1] == PACKET_TYPE_END {
      s.ring.recordingActive := false;
      s.recordingId, s.shouldRecord := 0, false;
      decoded := End;
    } else {
      decoded := Inactive;
    }
  }
}
