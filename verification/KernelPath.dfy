/** The forwarding fast path of the kernel module (linux-module/awds_module.c)
    against the user-space daemon. */
module KernelPath {
  import opened Bytes
  import opened TopoPackets
  import opened RoutingTables
  import opened Unicast

  const ETH_HLEN: nat := 14
  const ETH_TYPE_AWDS: seq<byte> := [0x83, 0x34]

  /** `__awds_check_routing`: binary search by memcmp over the dumped table.
      Returns the position of the entry for `dest`, or -1. */
  method CheckRouting(data: seq<byte>, dest: seq<byte>, ghost t: seq<Entry>) returns (at: int)
    requires data == Dump(t) && Ascending(t) && |dest| == ID_SIZE
    ensures -1 <= at < |t|
    ensures at >= 0 ==> IdBytes(t[at].dest) == dest
    ensures at < 0 ==> forall i | 0 <= i < |t| :: IdBytes(t[i].dest) != dest
  {
    var count := |data| / ENTRY_SIZE;
    if count == 0 { return -1; }
    var head, end := 0, count;
    while head != end
      invariant 0 <= head <= end <= |t|
      invariant forall i | 0 <= i < head :: t[i].dest < IdOf(dest)
      invariant forall i | end <= i < |t| :: t[i].dest > IdOf(dest)
      decreases end - head
    {
      var mid := head + (end - head) / 2;
      DumpEntry(t, mid);
      EntryOrder(t[mid].dest, dest);
      var cmp := Memcmp(data[ENTRY_SIZE * mid..ENTRY_SIZE * mid + ID_SIZE], dest);
      if cmp == 0 {
        return mid;
      } else if cmp < 0 {
        head := mid + 1;
      } else {
        end := mid;
      }
    }
    forall i | 0 <= i < |t| ensures IdBytes(t[i].dest) != dest { IdRoundTrip(t[i].dest); }
    return -1;
  }

  lemma EntryOrder(id: NodeId, dest: seq<byte>)
    requires |dest| == ID_SIZE
    ensures Memcmp(IdBytes(id), dest) < 0 <==> id < IdOf(dest)
    ensures Memcmp(IdBytes(id), dest) == 0 <==> IdBytes(id) == dest
    ensures Memcmp(IdBytes(id), dest) == 0 <==> id == IdOf(dest)
  {
    MemcmpIsNumeric(IdBytes(id), dest);
    IdRoundTrip(id);
  }

  /** On the table `updateTopology` dumped, the kernel finds a destination
      exactly when the user-space map has it, and with the same next hop. */
  method LookUp(data: seq<byte>, dest: seq<byte>, ghost t: seq<Entry>, ghost nh: map<NodeId, NodeId>)
    returns (found: bool, hop: seq<byte>)
    requires data == Dump(t) && Describes(t, nh) && |dest| == ID_SIZE
    ensures found <==> IdOf(dest) in nh
    ensures found ==> hop == IdBytes(nh[IdOf(dest)])
  {
    var at := CheckRouting(data, dest, t);
    found, hop := at >= 0, [];
    if found {
      DumpEntry(t, at);
      IdRoundTrip(t[at].dest);
      hop := data[ENTRY_SIZE * at + ID_SIZE..ENTRY_SIZE * at + ENTRY_SIZE];
    } else {
      IdBytesOfId(dest);
    }
  }

  /** `__awds_do_retransmit` on a frame: Ethernet header, then AWDS packet.
      `accepted` is the answer of `awds_send`. Returns whether the frame is sent,
      and where the packet data starts afterwards. */
  method Retransmit(frame: array<byte>, hop: seq<byte>, accepted: bool) returns (sent: bool, start: nat)
    requires frame.Length >= ETH_HLEN + UNICAST_END && |hop| == ID_SIZE
    modifies frame
    ensures sent == (old(frame[ETH_HLEN + OFF_TTL]) != 1 && accepted)
    ensures old(frame[ETH_HLEN + OFF_TTL]) == 1 ==> frame[..] == old(frame[..]) && start == ETH_HLEN
    ensures old(frame[ETH_HLEN + OFF_TTL]) != 1 ==> frame[..] == Rewritten(old(frame[..]), hop) && start == 0
  {
    var ttl := Decr(frame[ETH_HLEN + OFF_TTL]);
    if ttl == 0 { return false, ETH_HLEN; }
    ghost var f := frame[..];
    frame[ETH_HLEN + OFF_TTL] := ttl;
    Copy(frame, ID_SIZE, frame[..ID_SIZE]);
    Copy(frame, 0, hop);
    Copy(frame, ETH_HLEN + OFF_NEXT_HOP, hop);
    RewriteSteps(f, hop);
    return accepted, 0;
  }

  lemma RewriteSteps(f: seq<byte>, hop: seq<byte>)
    requires |f| >= ETH_HLEN + UNICAST_END && |hop| == ID_SIZE
    ensures var f1 := f[ETH_HLEN + OFF_TTL := Decr(f[ETH_HLEN + OFF_TTL])];
            var f2 := f1[..ID_SIZE] + f1[..ID_SIZE] + f1[2 * ID_SIZE..];
            var f3 := f2[..0] + hop + f2[ID_SIZE..];
            f3[..ETH_HLEN + OFF_NEXT_HOP] + hop + f3[ETH_HLEN + OFF_NEXT_HOP + ID_SIZE..] == Rewritten(f, hop)
  {
    var f1 := f[ETH_HLEN + OFF_TTL := Decr(f[ETH_HLEN + OFF_TTL])];
    var f2 := f1[..ID_SIZE] + f1[..ID_SIZE] + f1[2 * ID_SIZE..];
    var f3 := f2[..0] + hop + f2[ID_SIZE..];
    var f4 := f3[..ETH_HLEN + OFF_NEXT_HOP] + hop + f3[ETH_HLEN + OFF_NEXT_HOP + ID_SIZE..];
    var r := Rewritten(f, hop);
    assert |f4| == |r| == |f|;
    var p := f[ETH_HLEN..];
    forall k | 0 <= k < |f| ensures f4[k] == r[k] {
      if k < 6 {
        assert f4[k] == hop[k] == r[k];
      } else if k < 12 {
        assert f2[k] == f1[k - 6] == f[k - 6] == r[k];
      } else if k < 14 {
        assert f2[k] == f1[k] == f[k] == r[k];
      } else if k < 29 {
        assert f2[k] == f1[k] == p[k - 14] == r[k];
      } else if k < 35 {
        assert f4[k] == hop[k - 29] == r[k];
      } else {
        assert f4[k] == f2[k] == f1[k] == r[k];
      }
    }
  }

  /** memcpy of `s` to position `at`. */
  method Copy(a: array<byte>, at: nat, s: seq<byte>)
    requires at + |s| <= a.Length
    modifies a
    ensures a[..] == old(a[..at]) + s + old(a[at + |s|..])
  {
    ghost var was := a[..];
    for i := 0 to |s|
      invariant a[..at] == was[..at] && a[at..at + i] == s[..i] && a[at + i..] == was[at + i..]
    {
      a[at + i] := s[i];
      assert a[at..at + i + 1] == a[at..at + i] + [s[i]];
      assert a[at + i + 1..] == was[at + i..][1..];
    }
    assert a[..] == a[..at] + a[at..at + |s|] + a[at + |s|..];
    assert s[..|s|] == s;
  }

  /** The frame the fast path sends: to the next hop, from the address the frame
      was sent to, one TTL less. */
  function Rewritten(f: seq<byte>, hop: seq<byte>): seq<byte>
    requires |f| >= ETH_HLEN + UNICAST_END && |hop| == ID_SIZE
  {
    var p := f[ETH_HLEN..];
    hop + f[..ID_SIZE] + f[2 * ID_SIZE..ETH_HLEN] +
    p[..OFF_NEXT_HOP] + hop + [Decr(p[OFF_TTL])] + p[OFF_TTL + 1..]
  }

  /** What ends up on the air. */
  datatype Wire = Nothing | Frame(bytes: seq<byte>)

  /** A frame as the daemon receives it. */
  function PacketOf(f: seq<byte>): Packet
    requires ETH_HLEN + UNICAST_END <= |f| <= ETH_HLEN + MAX_PACKET
  {
    var p := f[ETH_HLEN..];
    Packet(p + seq(MAX_PACKET - |p|, _ => 0), |p|)
  }

  /** The daemon alone: `recv_packet` and `recv_unicast`, then sending with an
      Ethernet header of its own (src/rawbasic.cc:179-181). */
  function ByUserSpace(me: NodeId, nh: map<NodeId, NodeId>, f: seq<byte>): Wire
    requires ETH_HLEN + UNICAST_END <= |f| <= ETH_HLEN + MAX_PACKET
  {
    var p := PacketOf(f);
    var (a, b) := Arrived(me, nh, p);
    if a.Send? then Frame(IdBytes(a.to) + IdBytes(me) + ETH_TYPE_AWDS + b[..p.size]) else Nothing
  }

  /** A frame for this node that carries an untraced unicast packet for somebody
      else. */
  predicate Transit(me: NodeId, f: seq<byte>) {
    && ETH_HLEN + UNICAST_END <= |f| <= ETH_HLEN + MAX_PACKET
    && f[..ID_SIZE] == IdBytes(me) && f[2 * ID_SIZE..ETH_HLEN] == ETH_TYPE_AWDS
    && f[ETH_HLEN] == TYPE_UNICAST && Dest(f[ETH_HLEN..]) != me
  }

  /** When the fast path may take over: exactly then the daemon would forward. */
  predicate FastPathAgrees(me: NodeId, nh: map<NodeId, NodeId>, f: seq<byte>)
    requires |f| >= ETH_HLEN + UNICAST_END
  {
    var p := f[ETH_HLEN..];
    || Dest(p) !in nh
    || Ttl(p) == 1
    || (Sender(p) != me && NextHop(p) == me && nh[Dest(p)] != me)
  }

  /** With the module: retransmit when a route is found and the TTL allows,
      otherwise pass the frame on to the daemon (linux-module/awds_module.c:804-863). */
  function WithKernel(me: NodeId, nh: map<NodeId, NodeId>, f: seq<byte>): Wire
    requires Transit(me, f)
  {
    var dest := Dest(f[ETH_HLEN..]);
    if dest in nh && Ttl(f[ETH_HLEN..]) != 1 then Frame(Rewritten(f, IdBytes(nh[dest]))) else ByUserSpace(me, nh, f)
  }

  /** What the packet handler does with a frame: it sends it, or it leaves packet
      data to the daemon. */
  datatype Handled = Transmitted(frame: seq<byte>) | Queued(data: seq<byte>)

  /** The unicast branch of `awds_packet_rcv`. When the device refuses the frame,
      the daemon is left the rewritten frame with its Ethernet header in front. */
  method PacketRcv(me: NodeId, data: seq<byte>, frame: array<byte>, accepted: bool,
                   ghost t: seq<Entry>, ghost nh: map<NodeId, NodeId>)
    returns (h: Handled)
    requires data == Dump(t) && Describes(t, nh) && Transit(me, frame[..])
    modifies frame
    ensures var f := old(frame[..]); var dest := Dest(f[ETH_HLEN..]);
      h == if dest !in nh || Ttl(f[ETH_HLEN..]) == 1 then Queued(f[ETH_HLEN..])
           else if accepted then Transmitted(Rewritten(f, IdBytes(nh[dest])))
           else Queued(Rewritten(f, IdBytes(nh[dest])))
    ensures h.Transmitted? ==> WithKernel(me, nh, old(frame[..])) == Frame(h.frame)
    ensures accepted && h.Queued? ==>
      h.data == old(frame[ETH_HLEN..]) && WithKernel(me, nh, old(frame[..])) == ByUserSpace(me, nh, old(frame[..]))
  {
    hide IdBytes;
    ghost var f := frame[..];
    var dest := frame[ETH_HLEN + OFF_DEST..ETH_HLEN + OFF_DEST + ID_SIZE];
    assert dest == f[ETH_HLEN..][OFF_DEST..OFF_DEST + ID_SIZE];
    var found, hop := LookUp(data, dest, t, nh);
    var sent, start := false, ETH_HLEN;
    if found {
      sent, start := Retransmit(frame, hop, accepted);
    }
    h := if sent then Transmitted(frame[..]) else Queued(frame[start..]);
  }

  lemma PacketFields(f: seq<byte>)
    requires ETH_HLEN + UNICAST_END <= |f| <= ETH_HLEN + MAX_PACKET
    ensures var p := f[ETH_HLEN..]; var b := PacketOf(f).buffer;
      && Dest(b) == Dest(p) && NextHop(b) == NextHop(p) && Sender(b) == Sender(p) && Ttl(b) == Ttl(p)
      && b[0] == p[0] && b[..|p|] == p
  {
    var p := f[ETH_HLEN..];
    var b := PacketOf(f).buffer;
    assert b[..|p|] == p;
    assert b[OFF_DEST..OFF_DEST + ID_SIZE] == p[OFF_DEST..OFF_DEST + ID_SIZE];
    assert b[OFF_NEXT_HOP..OFF_NEXT_HOP + ID_SIZE] == p[OFF_NEXT_HOP..OFF_NEXT_HOP + ID_SIZE];
    assert b[OFF_SRC..OFF_SRC + ID_SIZE] == p[OFF_SRC..OFF_SRC + ID_SIZE];
  }

  /** When the daemon forwards a transit frame, and what it sends then. */
  lemma UserSpaceForwards(me: NodeId, nh: map<NodeId, NodeId>, f: seq<byte>)
    requires Transit(me, f)
    ensures var p := f[ETH_HLEN..];
      ByUserSpace(me, nh, f) ==
        if Sender(p) != me && Ttl(p) != 1 && NextHop(p) == me && HasRoute(me, nh, Dest(p))
        then Frame(Rewritten(f, IdBytes(nh[Dest(p)]))) else Nothing
  {
    hide IdBytes;
    var p := f[ETH_HLEN..];
    var pkt := PacketOf(f);
    PacketFields(f);
    var b := pkt.buffer[OFF_TTL := Decr(pkt.buffer[OFF_TTL])];
    assert b[OFF_DEST..OFF_DEST + ID_SIZE] == pkt.buffer[OFF_DEST..OFF_DEST + ID_SIZE];
    assert b[OFF_NEXT_HOP..OFF_NEXT_HOP + ID_SIZE] == pkt.buffer[OFF_NEXT_HOP..OFF_NEXT_HOP + ID_SIZE];
    assert !Traced(b);
    if Sender(p) != me && Ttl(p) != 1 && NextHop(p) == me && HasRoute(me, nh, Dest(p)) {
      var hop := nh[Dest(p)];
      var c := WithId(b, OFF_NEXT_HOP, hop);
      assert Received(me, nh, pkt) == (Send(hop), c);
      SamePayload(p, pkt.buffer, IdBytes(hop));
    }
  }

  lemma SamePayload(p: seq<byte>, buffer: seq<byte>, hop: seq<byte>)
    requires UNICAST_END <= |p| <= |buffer| && buffer[..|p|] == p && |hop| == ID_SIZE
    ensures var b := buffer[OFF_TTL := Decr(buffer[OFF_TTL])];
      (b[..OFF_NEXT_HOP] + hop + b[OFF_NEXT_HOP + ID_SIZE..])[..|p|] ==
        p[..OFF_NEXT_HOP] + hop + [Decr(p[OFF_TTL])] + p[OFF_TTL + 1..]
  {
    var b := buffer[OFF_TTL := Decr(buffer[OFF_TTL])];
    var l := (b[..OFF_NEXT_HOP] + hop + b[OFF_NEXT_HOP + ID_SIZE..])[..|p|];
    var r := p[..OFF_NEXT_HOP] + hop + [Decr(p[OFF_TTL])] + p[OFF_TTL + 1..];
    assert |l| == |r|;
    forall k | 0 <= k < |p| ensures l[k] == r[k] { assert buffer[k] == buffer[..|p|][k]; }
  }

  /** A known but unreachable destination has the node itself as next hop: the
      daemon drops the packet, the fast path sends it back to its own node. */
  lemma UnreachableBounces(me: NodeId, nh: map<NodeId, NodeId>, f: seq<byte>)
    requires Transit(me, f) && Dest(f[ETH_HLEN..]) in nh && nh[Dest(f[ETH_HLEN..])] == me && Ttl(f[ETH_HLEN..]) != 1
    ensures ByUserSpace(me, nh, f) == Nothing
    ensures WithKernel(me, nh, f).Frame? && WithKernel(me, nh, f).bytes[..ID_SIZE] == IdBytes(me)
  {
    UserSpaceForwards(me, nh, f);
  }

  /** The fast path and the daemon agree on a transit frame, byte for byte and
      for every TTL, if and only if there is no table entry, the TTL is used
      up, or the packet names this node as next hop, comes from somebody else
      and has a route over another node. */
  lemma FastPathExact(me: NodeId, nh: map<NodeId, NodeId>, f: seq<byte>)
    requires Transit(me, f)
    ensures WithKernel(me, nh, f) == ByUserSpace(me, nh, f) <==> FastPathAgrees(me, nh, f)
  {
    UserSpaceForwards(me, nh, f);
  }
}
