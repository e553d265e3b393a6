/** Layout of topology packets (src/awds/SrcPacket.h, src/awds/Flood.h,
    src/awds/TopoPacket.h) and what `RTopology::feed` reads out of them. */
module TopoPackets {
  import opened Bytes

  const MAX_PACKET: nat := 0x1000
  const OFF_SRC: nat := 1
  const OFF_VALIDITY: nat := 17
  const OFF_NUM_LINKS: nat := 21
  const OFF_LINKS: nat := 22
  const LINK_SIZE: nat := ID_SIZE + 2

  /** A packet buffer together with the number of bytes in use. */
  datatype Packet = Packet(buffer: seq<byte>, size: nat) {
    predicate Valid() {
      |buffer| == MAX_PACKET && size <= MAX_PACKET
    }
  }

  datatype LinkInfo = LinkInfo(neighbor: NodeId, quality: nat)

  function Source(p: Packet): NodeId
    requires p.Valid()
  {
    IdAt(p.buffer, OFF_SRC)
  }

  /** Validity in milliseconds. */
  function Validity(p: Packet): nat
    requires p.Valid()
  {
    Value(p.buffer[OFF_VALIDITY..OFF_VALIDITY + 4])
  }

  function NumLinks(p: Packet): byte
    requires p.Valid()
  {
    p.buffer[OFF_NUM_LINKS]
  }

  function LinkAt(p: Packet, i: nat): LinkInfo
    requires p.Valid() && i < 256
  {
    var at := OFF_LINKS + LINK_SIZE * i;
    LinkInfo(IdAt(p.buffer, at), Value(p.buffer[at + ID_SIZE..at + LINK_SIZE]))
  }

  function Links(p: Packet): (s: seq<LinkInfo>)
    requires p.Valid()
    ensures |s| == NumLinks(p)
  {
    seq(NumLinks(p), i requires 0 <= i < 256 => LinkAt(p, i))
  }

  function LinksEnd(p: Packet): nat
    requires p.Valid()
  {
    OFF_LINKS + LINK_SIZE * NumLinks(p)
  }

  /** Rejected before anything is touched (src/Topology.cc:292). */
  predicate HeaderMissing(p: Packet) {
    p.size < OFF_LINKS + 1
  }

  /** The announced links do not fit in the packet (src/Topology.cc:340). */
  predicate LinksMissing(p: Packet)
    requires p.Valid()
  {
    p.size < LinksEnd(p)
  }

  predicate StrictlyOrdered(s: seq<LinkInfo>) {
    forall i, j | 0 <= i < j < |s| :: s[i].neighbor < s[j].neighbor
  }

  /** What the assertions inside `feed` demand (src/Topology.cc:314, 355, 371). */
  predicate PassesAssertions(p: Packet)
    requires p.Valid()
  {
    && (!HeaderMissing(p) ==> Validity(p) > 0)
    && (!HeaderMissing(p) && !LinksMissing(p) ==>
          && StrictlyOrdered(Links(p))
          && forall i | 0 <= i < |Links(p)| :: Links(p)[i].quality > 0)
  }

  /** The characters before the first NUL. */
  function CString(s: seq<byte>): seq<byte> {
    if s == [] || s[0] == 0 then [] else [s[0]] + CString(s[1..])
  }

  /** The node name field, at most 32 characters; `kept` stays when the
      packet ends before it (src/Topology.cc:488-498). */
  function NameAfter(p: Packet, kept: seq<byte>): seq<byte>
    requires p.Valid()
  {
    if p.size <= LinksEnd(p) then kept
    else
      var at := LinksEnd(p);
      var n: nat := if p.buffer[at] > 32 then 32 else p.buffer[at];
      CString(p.buffer[at + 1..at + 1 + n])
  }
}
