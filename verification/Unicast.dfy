/** Unicast packets and their handling by one node
    (src/awds/UnicastPacket.h, src/awds/TraceUcPacket.h, src/AwdsRouting.cc). */
module Unicast {
  import opened Bytes
  import opened TopoPackets

  const OFF_DEST: nat := 9
  const OFF_NEXT_HOP: nat := 15
  const OFF_TTL: nat := 21
  const OFF_UC_TYPE: nat := 22
  const UNICAST_END: nat := 23
  const TYPE_UNICAST: byte := 2

  function Dest(b: seq<byte>): NodeId
    requires |b| >= UNICAST_END
  {
    IdAt(b, OFF_DEST)
  }

  function NextHop(b: seq<byte>): NodeId
    requires |b| >= UNICAST_END
  {
    IdAt(b, OFF_NEXT_HOP)
  }

  function Sender(b: seq<byte>): NodeId
    requires |b| >= UNICAST_END
  {
    IdAt(b, OFF_SRC)
  }

  function Ttl(b: seq<byte>): byte
    requires |b| >= UNICAST_END
  {
    b[OFF_TTL]
  }

  /** Byte arithmetic wraps around. */
  function Incr(x: byte): byte { if x == 255 then 0 else x + 1 }
  function Decr(x: byte): byte { if x == 0 then 255 else x - 1 }

  predicate Traced(b: seq<byte>)
    requires |b| >= UNICAST_END
  {
    b[0] >= 0x80
  }

  /** `id` written at `off`. */
  function WithId(b: seq<byte>, off: nat, id: NodeId): (r: seq<byte>)
    requires off + ID_SIZE <= |b|
    ensures |r| == |b|
  {
    b[..off] + IdBytes(id) + b[off + ID_SIZE..]
  }

  lemma WithIdAt(b: seq<byte>, off: nat, id: NodeId, at: nat)
    requires off + ID_SIZE <= |b| && at + ID_SIZE <= |b|
    ensures at == off ==> IdAt(WithId(b, off, id), at) == id
    ensures at + ID_SIZE <= off || off + ID_SIZE <= at ==> IdAt(WithId(b, off, id), at) == IdAt(b, at)
    ensures forall k | 0 <= k < |b| && !(off <= k < off + ID_SIZE) :: WithId(b, off, id)[k] == b[k]
  {
    hide IdBytes, IdOf;
    var front, back := b[..off], b[off + ID_SIZE..];
    IdRoundTrip(id);
    Middle(front, IdBytes(id), back, at);
    if at + ID_SIZE <= off {
      assert front[at..at + ID_SIZE] == b[at..at + ID_SIZE];
    } else if off + ID_SIZE <= at {
      assert back[at - off - ID_SIZE..at - off] == b[at..at + ID_SIZE];
    }
  }

  /** The bytes of an identifier written in the middle, before it and behind it. */
  lemma Middle(front: seq<byte>, id: seq<byte>, back: seq<byte>, at: nat)
    requires |id| == ID_SIZE && at <= |front| + |back|
    ensures var slice := (front + id + back)[at..at + ID_SIZE];
      && (at == |front| ==> slice == id)
      && (at + ID_SIZE <= |front| ==> slice == front[at..at + ID_SIZE])
      && (|front| + ID_SIZE <= at ==> slice == back[at - |front| - ID_SIZE..at - |front|])
  {
  }

  /** TraceUcPacket::appendNode, for a packet of `size` bytes. */
  function WithTrace(b: seq<byte>, size: nat, id: NodeId): (r: seq<byte>)
    requires |b| == MAX_PACKET && size <= MAX_PACKET
    ensures |r| == |b|
  {
    var at := Value(b[UNICAST_END..UNICAST_END + 2]);
    if at + ID_SIZE >= size then b
    else
      var c := WithId(b, at, id);
      c[..UNICAST_END] + BigEndian(at + ID_SIZE, 2) + c[UNICAST_END + 2..]
  }

  datatype Action = Drop | HandUp | Send(to: NodeId)

  /** The route a table of next hops gives; next hop self means none
      (src/Topology.cc:784-790). */
  predicate HasRoute(me: NodeId, nh: map<NodeId, NodeId>, dest: NodeId) {
    dest in nh && nh[dest] != me
  }

  /** What `recv_unicast` does with a packet: its action and the buffer after it. */
  function Received(me: NodeId, nh: map<NodeId, NodeId>, p: Packet): (r: (Action, seq<byte>))
    requires p.Valid()
    ensures |r.1| == MAX_PACKET
  {
    var b := p.buffer[OFF_TTL := Decr(p.buffer[OFF_TTL])];
    if Ttl(b) == 0 then (Drop, b)
    else if NextHop(b) != me then (Drop, b)
    else
      var c := if Traced(b) then WithTrace(b, p.size, me) else b;
      if Dest(c) == me then (HandUp, c)
      else if !HasRoute(me, nh, Dest(c)) then (Drop, c)
      else (Send(nh[Dest(c)]), WithId(c, OFF_NEXT_HOP, nh[Dest(c)]))
  }

  /** `recv_packet` ignores packets a node sent itself (src/AwdsRouting.cc:163-164). */
  function Arrived(me: NodeId, nh: map<NodeId, NodeId>, p: Packet): (Action, seq<byte>)
    requires p.Valid()
  {
    if Sender(p.buffer) == me then (Drop, p.buffer) else Received(me, nh, p)
  }

  /** `sendUnicast`: one more TTL, addressed to oneself, then received. */
  function Sent(me: NodeId, nh: map<NodeId, NodeId>, p: Packet): (Action, seq<byte>)
    requires p.Valid()
  {
    var b := p.buffer[OFF_TTL := Incr(p.buffer[OFF_TTL])];
    Received(me, nh, p.(buffer := WithId(b, OFF_NEXT_HOP, me)))
  }

  method StoreId(buf: array<byte>, off: nat, id: NodeId)
    requires off + ID_SIZE <= buf.Length
    modifies buf
    ensures buf[..] == WithId(old(buf[..]), off, id)
  {
    StoreBytes(id, buf, off, ID_SIZE);
  }

  /** `recv_unicast`, in place on the packet buffer. */
  method RecvUnicast(me: NodeId, nh: map<NodeId, NodeId>, buf: array<byte>, size: nat) returns (a: Action)
    requires buf.Length == MAX_PACKET && size <= MAX_PACKET
    modifies buf
    ensures (a, buf[..]) == Received(me, nh, Packet(old(buf[..]), size))
  {
    ghost var b := buf[..];
    buf[OFF_TTL] := Decr(buf[OFF_TTL]);
    assert buf[..] == b[OFF_TTL := Decr(b[OFF_TTL])];
    if buf[OFF_TTL] == 0 {
      return Drop;
    }
    var hop := LoadId(buf[..], OFF_NEXT_HOP);
    if hop != me {
      return Drop;
    }
    if buf[0] >= 0x80 {
      AppendNode(buf, size, me);
    }
    var dest := LoadId(buf[..], OFF_DEST);
    if dest == me {
      return HandUp;
    }
    if !HasRoute(me, nh, dest) {
      return Drop;
    }
    StoreId(buf, OFF_NEXT_HOP, nh[dest]);
    return Send(nh[dest]);
  }

  method AppendNode(buf: array<byte>, size: nat, id: NodeId)
    requires buf.Length == MAX_PACKET && size <= MAX_PACKET
    modifies buf
    ensures buf[..] == WithTrace(old(buf[..]), size, id)
  {
    var at := LoadBytes(buf[..], UNICAST_END, 2);
    if at + ID_SIZE >= size { return; }
    StoreId(buf, at, id);
    StoreBytes(at + ID_SIZE, buf, UNICAST_END, 2);
  }

  /** `newUnicastPacket` followed by `setUcDest`, on a zeroed buffer. */
  method NewUnicastPacket(me: NodeId, seqNo: nat, ucType: byte, dest: NodeId) returns (buf: array<byte>)
    ensures fresh(buf) && buf.Length == MAX_PACKET
    ensures buf[0] == TYPE_UNICAST && Ttl(buf[..]) == 32 && !Traced(buf[..]) && buf[OFF_UC_TYPE] == ucType
    ensures Sender(buf[..]) == me && Dest(buf[..]) == dest && NextHop(buf[..]) == me
  {
    buf := new byte[MAX_PACKET](_ => 0);
    buf[0] := TYPE_UNICAST;
    buf[OFF_TTL] := 32;
    buf[OFF_UC_TYPE] := ucType;
    StoreBytes(seqNo % 0x1_0000, buf, OFF_SRC + ID_SIZE, 2);
    ghost var b0 := buf[..];
    StoreId(buf, OFF_SRC, me);
    ghost var b1 := buf[..];
    StoreId(buf, OFF_NEXT_HOP, me);
    ghost var b2 := buf[..];
    StoreId(buf, OFF_DEST, dest);
    WithIdAt(b0, OFF_SRC, me, OFF_SRC);
    WithIdAt(b1, OFF_NEXT_HOP, me, OFF_SRC);
    WithIdAt(b1, OFF_NEXT_HOP, me, OFF_NEXT_HOP);
    WithIdAt(b2, OFF_DEST, dest, OFF_SRC);
    WithIdAt(b2, OFF_DEST, dest, OFF_NEXT_HOP);
    WithIdAt(b2, OFF_DEST, dest, OFF_DEST);
  }
}
