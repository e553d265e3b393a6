/** What a node announces about its neighbours: Beacon::setNeigh
    (src/beacon.cc:28-70) and TopoPacket::setNeigh (src/TopoPacket.cc:18-59),
    and that the readers get exactly this back. */
module Announcing {
  import opened Bytes
  import opened TopoPackets
  import opened Beacons
  import opened Neighbours
  import BeaconHistories
  import Flooding

  // ---------------------------------------------------------------------
  // Beacons

  /** Identifiers of the good neighbours that are, or are not, MPRs. */
  function Selected(t: seq<NodeDescr>, mpr: bool): (s: seq<NodeId>)
    ensures |s| <= |t|
  {
    if t == [] then []
    else
      var d := t[|t| - 1];
      Selected(t[..|t| - 1], mpr) + if d.active && d.mpr == mpr then [d.id] else []
  }

  /** The selection is sorted and holds exactly the good neighbours asked for. */
  lemma {:induction false} SelectedExact(t: seq<NodeDescr>, mpr: bool)
    requires Sorted(t)
    ensures Beacons.Ascending(Selected(t, mpr))
    ensures forall x :: x in Selected(t, mpr) <==>
        exists i :: 0 <= i < |t| && t[i].active && t[i].mpr == mpr && t[i].id == x
  {
    if t != [] {
      var m := |t| - 1;
      var s := t[..m];
      SelectedExact(s, mpr);
      SelectedBelow(t, s, mpr);
      hide Beacons.Ascending;
      AscendingStep(Selected(s, mpr), t[m].id);
      forall x ensures x in Selected(t, mpr) <==>
        exists i :: 0 <= i < |t| && t[i].active && t[i].mpr == mpr && t[i].id == x
      {
        SelectedStep(t, mpr, x);
      }
    }
  }

  lemma SelectedBelow(t: seq<NodeDescr>, s: seq<NodeDescr>, mpr: bool)
    requires Sorted(t) && t != [] && s == t[..|t| - 1]
    requires forall x | x in Selected(s, mpr) ::
        exists i :: 0 <= i < |s| && s[i].active && s[i].mpr == mpr && s[i].id == x
    ensures forall x | x in Selected(s, mpr) :: x < t[|t| - 1].id
  {
    hide Selected;
    forall x | x in Selected(s, mpr) ensures x < t[|t| - 1].id {
      var i :| 0 <= i < |s| && s[i].active && s[i].mpr == mpr && s[i].id == x;
      assert s[i] == t[i];
    }
  }

  lemma AscendingStep(u: seq<NodeId>, x: NodeId)
    requires Beacons.Ascending(u) && forall y | y in u :: y < x
    ensures Beacons.Ascending(u + [x]) && u + [] == u
  {
    forall i, j | 0 <= i < j < |u| + 1 ensures (u + [x])[i] < (u + [x])[j] { assert u[i] in u; }
  }

  lemma SelectedStep(t: seq<NodeDescr>, mpr: bool, x: NodeId)
    requires t != []
    requires var s := t[..|t| - 1];
      x in Selected(s, mpr) <==> exists i :: 0 <= i < |s| && s[i].active && s[i].mpr == mpr && s[i].id == x
    ensures x in Selected(t, mpr) <==> exists i :: 0 <= i < |t| && t[i].active && t[i].mpr == mpr && t[i].id == x
  {
    var s := t[..|t| - 1];
    if i :| 0 <= i < |t| && t[i].active && t[i].mpr == mpr && t[i].id == x {
      if i < |s| { assert s[i] == t[i]; }
    }
    if i :| 0 <= i < |s| && s[i].active && s[i].mpr == mpr && s[i].id == x {
      assert t[i] == s[i];
    }
  }

  ghost predicate GoodNeighbour(t: seq<NodeDescr>, x: NodeId) {
    exists i :: 0 <= i < |t| && t[i].active && t[i].id == x
  }

  lemma SelectedGood(t: seq<NodeDescr>, x: NodeId)
    requires Sorted(t)
    ensures x in Selected(t, true) + Selected(t, false) <==> GoodNeighbour(t, x)
  {
    SelectedExact(t, true);
    SelectedExact(t, false);
    if i :| 0 <= i < |t| && t[i].active && t[i].id == x {
      assert x in Selected(t, t[i].mpr);
    }
  }

  /** One of the two loops of Beacon::setNeigh. */
  method WriteSelected(neighbors: array<NodeDescr>, numNeigh: nat, mpr: bool, buf: array<byte>, from: nat,
                       ghost ids: seq<NodeId>)
    returns (n: nat)
    requires numNeigh <= neighbors.Length && numNeigh <= MAX_NEIGHBORS && buf.Length == MAX_PACKET
    requires from == |ids| <= MAX_NEIGHBORS && Written(buf[..], ids)
    modifies buf
    ensures n == |Selected(neighbors[..numNeigh], mpr)|
    ensures Written(buf[..], ids + Selected(neighbors[..numNeigh], mpr))
    ensures buf[..OFF_LNEIGH] == old(buf[..OFF_LNEIGH])
  {
    hide Written;
    ghost var t := neighbors[..numNeigh];
    n := 0;
    assert t[..0] == [] && ids + [] == ids;
    for i := 0 to numNeigh
      invariant n == |Selected(t[..i], mpr)| <= i && Written(buf[..], ids + Selected(t[..i], mpr))
      invariant buf[..OFF_LNEIGH] == old(buf[..OFF_LNEIGH])
    {
      assert t[..i + 1][..i] == t[..i] && t[..i + 1][i] == t[i] == neighbors[i];
      if neighbors[i].active && neighbors[i].mpr == mpr {
        Append(buf, ids + Selected(t[..i], mpr), from + n, neighbors[i].id);
        assert ids + Selected(t[..i], mpr) + [t[i].id] == ids + Selected(t[..i + 1], mpr);
        n := n + 1;
      } else {
        assert Selected(t[..i + 1], mpr) == Selected(t[..i], mpr);
      }
    }
    assert t[..numNeigh] == t;
  }

  /** Beacon::setNeigh: `hasNeigh` on the result is true exactly for good
      neighbours, `hasMpr` exactly for the MPRs among them. */
  method SetBeaconNeigh(neighbors: array<NodeDescr>, numNeigh: nat, buf: array<byte>) returns (size: nat)
    requires numNeigh <= neighbors.Length && numNeigh <= MAX_NEIGHBORS && buf.Length == MAX_PACKET
    requires Sorted(neighbors[..numNeigh])
    modifies buf
    ensures size <= MAX_PACKET && buf[..OFF_NUM_NO_MPR] == old(buf[..OFF_NUM_NO_MPR])
    ensures var p, t := Packet(buf[..], size), neighbors[..numNeigh];
      && Searchable(p) && NumMpr(p) == |Selected(t, true)|
      && Listed(p) == Selected(t, true) + Selected(t, false)
      && size == OFF_LNEIGH + ID_SIZE * |Listed(p)|
      && Written(buf[..], Selected(t, true) + Selected(t, false)) && NumNoMpr(p) == |Selected(t, false)|
      && forall x :: IsMpr(p, x) || IsNoMpr(p, x) <==> GoodNeighbour(t, x)
  {
    hide Written, GoodNeighbour, Listed, Searchable, IsMpr, IsNoMpr;
    ghost var t := neighbors[..numNeigh];
    NothingWritten(buf[..]);
    var numMpr := WriteSelected(neighbors, numNeigh, true, buf, 0, []);
    assert [] + Selected(t, true) == Selected(t, true);
    var numNoMpr := WriteSelected(neighbors, numNeigh, false, buf, numMpr, Selected(t, true));
    ghost var ids := Selected(t, true) + Selected(t, false);
    ghost var was := buf[..];
    Lengths(t);
    buf[OFF_NUM_MPR] := numMpr;
    buf[OFF_NUM_NO_MPR] := numNoMpr;
    ghost var now := buf[..];
    assert now[OFF_LNEIGH..] == was[OFF_LNEIGH..];
    assert now[..OFF_NUM_NO_MPR] == was[..OFF_LNEIGH][..OFF_NUM_NO_MPR];
    WrittenKept(was, now, ids);
    size := OFF_LNEIGH + (numMpr + numNoMpr) * ID_SIZE;
    BeaconRead(t, Packet(now, size));
  }

  /** The beacon `send_beacon` makes (src/AwdsRouting.cc:185-191, without the signature):
      its readers find the sender, the 16-bit sequence number, the period in
      milliseconds and exactly the good neighbours. */
  method SendBeacon(neighbors: array<NodeDescr>, numNeigh: nat, me: NodeId, seqNo: nat, period: nat, buf: array<byte>)
    returns (size: nat)
    requires numNeigh <= neighbors.Length && numNeigh <= MAX_NEIGHBORS && buf.Length == MAX_PACKET
    requires Sorted(neighbors[..numNeigh])
    modifies buf
    ensures size <= MAX_PACKET
    ensures var p, t := Packet(buf[..], size), neighbors[..numNeigh];
      && Source(p) == me && SeqNo(p) == seqNo % 0x1_0000 && Period(p) == period % 0x1_0000
      && Searchable(p) && Listed(p) == Selected(t, true) + Selected(t, false)
      && forall x :: IsMpr(p, x) || IsNoMpr(p, x) <==> GoodNeighbour(t, x)
  {
    hide Written, GoodNeighbour, Listed, Searchable, IsMpr, IsNoMpr, BigEndian, Value, IdOf, Selected;
    ghost var t := neighbors[..numNeigh];
    StoreBytes(me, buf, OFF_SRC, ID_SIZE);
    ghost var b0 := buf[..];
    assert b0[OFF_SRC..OFF_SRC + ID_SIZE] == BigEndian(me, ID_SIZE);
    size := SetBeaconNeigh(neighbors, numNeigh, buf);
    ghost var b1 := buf[..];
    assert b1[OFF_SRC..OFF_SRC + ID_SIZE] == b1[..OFF_NUM_NO_MPR][OFF_SRC..OFF_SRC + ID_SIZE];
    assert b0[OFF_SRC..OFF_SRC + ID_SIZE] == b0[..OFF_NUM_NO_MPR][OFF_SRC..OFF_SRC + ID_SIZE];
    StoreBytes(seqNo % 0x1_0000, buf, OFF_SEQ, 2);
    ghost var b2 := buf[..];
    StoreBytes(period % 0x1_0000, buf, OFF_PERIOD, 2);
    BeaconHeader(b1, b2, buf[..], me, seqNo % 0x1_0000, period % 0x1_0000);
    WrittenKept(b1, buf[..], Selected(t, true) + Selected(t, false));
    BeaconRead(t, Packet(buf[..], size));
  }

  lemma BeaconHeader(b1: seq<byte>, b2: seq<byte>, b: seq<byte>, me: NodeId, seqNo: nat, period: nat)
    requires |b1| == MAX_PACKET && seqNo < 0x1_0000 && period < 0x1_0000
    requires b1[OFF_SRC..OFF_SRC + ID_SIZE] == BigEndian(me, ID_SIZE)
    requires b2 == b1[..OFF_SEQ] + BigEndian(seqNo, 2) + b1[OFF_SEQ + 2..]
    requires b == b2[..OFF_PERIOD] + BigEndian(period, 2) + b2[OFF_PERIOD + 2..]
    ensures |b| == MAX_PACKET && IdAt(b, OFF_SRC) == me && b[OFF_NUM_NO_MPR..] == b1[OFF_NUM_NO_MPR..]
    ensures Value(b[OFF_SEQ..OFF_SEQ + 2]) == seqNo && Value(b[OFF_PERIOD..OFF_PERIOD + 2]) == period
  {
    hide BigEndian, Value, IdOf;
    assert b[OFF_SRC..OFF_SRC + ID_SIZE] == b1[OFF_SRC..OFF_SRC + ID_SIZE];
    assert b[OFF_SEQ..OFF_SEQ + 2] == BigEndian(seqNo, 2) && b[OFF_PERIOD..OFF_PERIOD + 2] == BigEndian(period, 2);
    TwoBytes();
    ValueOfBigEndian(seqNo, 2);
    ValueOfBigEndian(period, 2);
    IdRoundTrip(me);
  }

  lemma NothingWritten(buf: seq<byte>)
    requires |buf| == MAX_PACKET
    ensures Written(buf, [])
  {
  }

  /** At most as many listed nodes as neighbours. */
  lemma {:induction false} Lengths(t: seq<NodeDescr>)
    ensures |Selected(t, true)| + |Selected(t, false)| <= |t|
  {
    if t != [] { Lengths(t[..|t| - 1]); }
  }

  lemma BeaconRead(t: seq<NodeDescr>, p: Packet)
    requires p.Valid() && Sorted(t) && Written(p.buffer, Selected(t, true) + Selected(t, false))
    requires NumMpr(p) == |Selected(t, true)| && NumNoMpr(p) == |Selected(t, false)|
    ensures Searchable(p) && Listed(p) == Selected(t, true) + Selected(t, false)
    ensures forall x :: IsMpr(p, x) || IsNoMpr(p, x) <==> GoodNeighbour(t, x)
  {
    hide Written, GoodNeighbour, NumMpr, NumNoMpr, Listed, IsMpr, IsNoMpr;
    var a, b := Selected(t, true), Selected(t, false);
    WrittenListed(p, a + b);
    assert (a + b)[..|a|] == a && (a + b)[|a|..] == b;
    SelectedExact(t, true);
    SelectedExact(t, false);
    forall x ensures IsMpr(p, x) || IsNoMpr(p, x) <==> GoodNeighbour(t, x) {
      HasNeighExact(p, x);
      SelectedGood(t, x);
    }
  }

  /** A table as the flooding protocol sees it. */
  function View(t: seq<NodeDescr>): seq<Flooding.Neighbour> {
    seq(|t|, i requires 0 <= i < |t| => Flooding.Neighbour(t[i].id, t[i].active, t[i].mpr))
  }

  /** The lists in the packet are the beacon of the flooding protocol. */
  lemma {:induction false} BeaconAgrees(t: seq<NodeDescr>, mpr: bool)
    ensures Selected(t, mpr) == Flooding.Select(View(t), mpr)
  {
    if t != [] {
      var m := |t| - 1;
      var last := Flooding.Neighbour(t[m].id, t[m].active, t[m].mpr);
      BeaconAgrees(t[..m], mpr);
      assert View(t) == View(t[..m]) + [last];
      SelectAppend(View(t[..m]), last, mpr);
    }
  }

  lemma {:induction false} SelectAppend(ns: seq<Flooding.Neighbour>, n: Flooding.Neighbour, mpr: bool)
    ensures Flooding.Select(ns + [n], mpr) == Flooding.Select(ns, mpr) + if n.good && n.mpr == mpr then [n.id] else []
  {
    var r := ns + [n];
    var tail := if n.good && n.mpr == mpr then [n.id] else [];
    if ns == [] {
      assert r[1..] == [] && r[0] == n;
    } else {
      SelectAppend(ns[1..], n, mpr);
      assert r[1..] == ns[1..] + [n] && r[0] == ns[0];
      var head := if ns[0].good && ns[0].mpr == mpr then [ns[0].id] else [];
      assert head + (Flooding.Select(ns[1..], mpr) + tail) == head + Flooding.Select(ns[1..], mpr) + tail;
    }
  }

  // ---------------------------------------------------------------------
  // Topology packets

  /** NodeDescr::isBidiGood. */
  predicate IsBidiGood(d: NodeDescr, me: NodeId)
    requires d.lastBeacon.Valid()
  {
    (IsMpr(d.lastBeacon, me) || IsNoMpr(d.lastBeacon, me)) && d.active
  }

  /** The links a topology packet announces; `metric` is my_get_quality. */
  function Announced(t: seq<NodeDescr>, me: NodeId, metric: NodeDescr -> nat): (s: seq<LinkInfo>)
    requires HasBeacons(t)
    ensures |s| <= |t|
  {
    if t == [] then []
    else
      var d := t[|t| - 1];
      Announced(t[..|t| - 1], me, metric)
      + if IsBidiGood(d, me) then [Info(d, metric)] else []
  }

  function Info(d: NodeDescr, metric: NodeDescr -> nat): (l: LinkInfo)
    ensures 0 < l.quality <= BeaconHistories.MAX_QUALITY
  {
    LinkInfo(d.id, BeaconHistories.Clamped(metric(d)))
  }

  /** `l` describes a good bidirectional neighbour. */
  ghost predicate Describes(t: seq<NodeDescr>, me: NodeId, metric: NodeDescr -> nat, l: LinkInfo)
    requires HasBeacons(t)
  {
    exists i :: 0 <= i < |t| && IsBidiGood(t[i], me) && l == Info(t[i], metric)
  }

  /** Sorted, with non-zero 16-bit qualities, and exactly the good
      bidirectional neighbours. */
  lemma {:induction false} AnnouncedExact(t: seq<NodeDescr>, me: NodeId, metric: NodeDescr -> nat)
    requires Sorted(t) && HasBeacons(t)
    ensures StrictlyOrdered(Announced(t, me, metric))
    ensures forall l | l in Announced(t, me, metric) :: 0 < l.quality <= BeaconHistories.MAX_QUALITY
    ensures forall l :: l in Announced(t, me, metric) <==> Describes(t, me, metric, l)
  {
    if t != [] {
      hide IsBidiGood, Describes, Info;
      var m := |t| - 1;
      var s, d := t[..m], t[m];
      AnnouncedExact(s, me, metric);
      var u := Announced(s, me, metric);
      forall l | l in u ensures l.neighbor < d.id { DescribesBelow(t, me, metric, l); }
      OrderedStep(u, Info(d, metric)) by { assert Info(d, metric).neighbor == d.id by { InfoId(d, metric); } }
      forall l ensures l in Announced(t, me, metric) <==> Describes(t, me, metric, l) {
        DescribesStep(t, me, metric, l);
      }
    }
  }

  /** What this means for lists that are sorted, as every beacon written by `setNeigh`
      has them: a link is announced if and only if the neighbour is active and lists
      this node, and it carries the metric's quality, limited to 1 .. 65535. */
  lemma AnnouncedListed(t: seq<NodeDescr>, me: NodeId, metric: NodeDescr -> nat, l: LinkInfo)
    requires Sorted(t) && HasBeacons(t) && forall i | 0 <= i < |t| :: Searchable(t[i].lastBeacon)
    ensures l in Announced(t, me, metric) <==>
      exists i :: 0 <= i < |t| && ListsAs(t[i], me, l.neighbor, metric(t[i]), l.quality)
  {
    hide IsMpr, IsNoMpr, Listed, Announced, Searchable;
    AnnouncedExact(t, me, metric);
    forall i | 0 <= i < |t|
      ensures IsBidiGood(t[i], me) && l == Info(t[i], metric) <==>
        ListsAs(t[i], me, l.neighbor, metric(t[i]), l.quality)
    {
      SearchableCounts(t[i].lastBeacon);
      HasNeighExact(t[i].lastBeacon, me);
    }
  }

  /** An active neighbour `id` whose last beacon lists `me`, with quality `q` made
      of `metric`. */
  predicate ListsAs(d: NodeDescr, me: NodeId, id: NodeId, metric: nat, q: nat)
    requires d.lastBeacon.Valid()
  {
    && d.active && me in Listed(d.lastBeacon) && d.id == id
    && q == if metric == 0 then 1 else if metric > 65535 then 65535 else metric
  }

  lemma SearchableCounts(p: Packet)
    requires p.Valid() && Searchable(p)
    ensures CountsOk(p)
  {
  }

  /** When the last beacon of a neighbour was written by `setNeigh` from its table
      `theirs`, a link to it is announced if and only if each end holds the other as a
      good neighbour. */
  lemma MutuallyGood(t: seq<NodeDescr>, i: nat, me: NodeId, metric: NodeDescr -> nat, theirs: seq<NodeDescr>)
    requires Sorted(t) && HasBeacons(t) && i < |t|
    requires forall x :: IsMpr(t[i].lastBeacon, x) || IsNoMpr(t[i].lastBeacon, x) <==> GoodNeighbour(theirs, x)
    ensures (exists l :: l in Announced(t, me, metric) && l.neighbor == t[i].id) <==>
      t[i].active && exists j :: 0 <= j < |theirs| && theirs[j].active && theirs[j].id == me
  {
    hide IsMpr, IsNoMpr, Announced;
    AnnouncedExact(t, me, metric);
    assert GoodNeighbour(theirs, me) <==> exists j :: 0 <= j < |theirs| && theirs[j].active && theirs[j].id == me;
    if l :| l in Announced(t, me, metric) && l.neighbor == t[i].id {
      assert Describes(t, me, metric, l);
      var k :| 0 <= k < |t| && IsBidiGood(t[k], me) && l == Info(t[k], metric);
      assert k == i;
    }
    if IsBidiGood(t[i], me) {
      assert Describes(t, me, metric, Info(t[i], metric));
    }
  }

  lemma InfoId(d: NodeDescr, metric: NodeDescr -> nat)
    ensures Info(d, metric).neighbor == d.id
  {
  }

  lemma OrderedStep(u: seq<LinkInfo>, l: LinkInfo)
    requires StrictlyOrdered(u) && forall k | k in u :: k.neighbor < l.neighbor
    ensures StrictlyOrdered(u + [l]) && u + [] == u
  {
  }

  lemma DescribesBelow(t: seq<NodeDescr>, me: NodeId, metric: NodeDescr -> nat, l: LinkInfo)
    requires t != [] && Sorted(t) && HasBeacons(t) && Describes(t[..|t| - 1], me, metric, l)
    ensures l.neighbor < t[|t| - 1].id
  {
    var s := t[..|t| - 1];
    var i :| 0 <= i < |s| && IsBidiGood(s[i], me) && l == Info(s[i], metric);
    assert s[i] == t[i];
  }

  lemma DescribesStep(t: seq<NodeDescr>, me: NodeId, metric: NodeDescr -> nat, l: LinkInfo)
    requires t != [] && HasBeacons(t)
    ensures Describes(t, me, metric, l) <==>
      Describes(t[..|t| - 1], me, metric, l) || (IsBidiGood(t[|t| - 1], me) && l == Info(t[|t| - 1], metric))
  {
    hide IsBidiGood, Info;
    var s := t[..|t| - 1];
    if i :| 0 <= i < |t| && IsBidiGood(t[i], me) && l == Info(t[i], metric) {
      if i < |s| { assert s[i] == t[i]; }
    }
    if i :| 0 <= i < |s| && IsBidiGood(s[i], me) && l == Info(s[i], metric) {
      assert t[i] == s[i];
    }
  }

  /** The links `s` stand in the link area. */
  ghost predicate WrittenLinks(buf: seq<byte>, s: seq<LinkInfo>) {
    && OFF_LINKS + LINK_SIZE * |s| <= |buf|
    && forall i {:trigger s[i]} :: 0 <= i < |s| ==> LinkSlot(buf, i) == LinkBytes(s[i])
  }

  function LinkBytes(l: LinkInfo): (b: seq<byte>)
    ensures |b| == LINK_SIZE
  {
    IdBytes(l.neighbor) + BigEndian(l.quality, 2)
  }

  function LinkSlot(buf: seq<byte>, i: nat): seq<byte>
    requires OFF_LINKS + LINK_SIZE * i + LINK_SIZE <= |buf|
  {
    buf[OFF_LINKS + LINK_SIZE * i..OFF_LINKS + LINK_SIZE * i + LINK_SIZE]
  }

  lemma LinkSlotKept(buf: seq<byte>, buf': seq<byte>, i: nat, at: nat)
    requires |buf| == |buf'| && OFF_LINKS + LINK_SIZE * i + LINK_SIZE <= at <= |buf|
    requires buf'[OFF_LINKS..at] == buf[OFF_LINKS..at]
    ensures LinkSlot(buf', i) == LinkSlot(buf, i)
  {
    SliceOfRange(buf, OFF_LINKS, at, LINK_SIZE * i, LINK_SIZE);
    SliceOfRange(buf', OFF_LINKS, at, LINK_SIZE * i, LINK_SIZE);
  }

  lemma SliceOfRange(s: seq<byte>, a: nat, b: nat, o: nat, n: nat)
    requires a <= b <= |s| && a + o + n <= b
    ensures s[a..b][o..o + n] == s[a + o..a + o + n]
  {
    var left, right := s[a..b][o..o + n], s[a + o..a + o + n];
    forall i | 0 <= i < n ensures left[i] == right[i] { assert s[a..b][o + i] == s[a + (o + i)]; }
  }

  lemma LinksKept(buf: seq<byte>, buf': seq<byte>, s: seq<LinkInfo>)
    requires WrittenLinks(buf, s) && |buf| == |buf'|
    requires var at := OFF_LINKS + LINK_SIZE * |s|; buf'[OFF_LINKS..at] == buf[OFF_LINKS..at]
    ensures WrittenLinks(buf', s)
  {
    hide LinkSlot, LinkBytes;
    forall i | 0 <= i < |s| ensures LinkSlot(buf', i) == LinkBytes(s[i]) {
      LinkSlotKept(buf, buf', i, OFF_LINKS + LINK_SIZE * |s|);
      assert LinkSlot(buf, i) == LinkBytes(s[i]);
    }
  }

  /** toArray of an identifier and of a quality (src/TopoPacket.cc:37-45). */
  method AppendLink(buf: array<byte>, ghost s: seq<LinkInfo>, n: nat, id: NodeId, quality: nat)
    requires n == |s| && OFF_LINKS + LINK_SIZE * (n + 1) <= buf.Length && WrittenLinks(buf[..], s)
    modifies buf
    ensures WrittenLinks(buf[..], s + [LinkInfo(id, quality)]) && buf[..OFF_LINKS] == old(buf[..OFF_LINKS])
  {
    hide BigEndian, WrittenLinks, IdBytes;
    var addr := OFF_LINKS + LINK_SIZE * n;
    ghost var was := buf[..];
    StoreBytes(id, buf, addr, ID_SIZE);
    ghost var mid := buf[..];
    StoreBytes(quality, buf, addr + ID_SIZE, 2);
    LinkStored(was, mid, buf[..], s, id, quality);
  }

  lemma LinkStored(was: seq<byte>, mid: seq<byte>, now: seq<byte>, s: seq<LinkInfo>, id: NodeId, quality: nat)
    requires WrittenLinks(was, s)
    requires var at := OFF_LINKS + LINK_SIZE * |s|;
      && at + LINK_SIZE <= |was|
      && mid == was[..at] + BigEndian(id, ID_SIZE) + was[at + ID_SIZE..]
      && now == mid[..at + ID_SIZE] + BigEndian(quality, 2) + mid[at + ID_SIZE + 2..]
    ensures WrittenLinks(now, s + [LinkInfo(id, quality)]) && now[..OFF_LINKS] == was[..OFF_LINKS]
  {
    hide BigEndian, WrittenLinks;
    var at := OFF_LINKS + LINK_SIZE * |s|;
    assert now[..at] == was[..at];
    assert now[..OFF_LINKS] == now[..at][..OFF_LINKS] && was[..OFF_LINKS] == was[..at][..OFF_LINKS];
    assert now[OFF_LINKS..at] == now[..at][OFF_LINKS..] && was[OFF_LINKS..at] == was[..at][OFF_LINKS..];
    LinksKept(was, now, s);
    assert now[at..at + LINK_SIZE] == BigEndian(id, ID_SIZE) + BigEndian(quality, 2);
    LinkAdded(now, s, LinkInfo(id, quality));
  }

  lemma LinkAdded(now: seq<byte>, s: seq<LinkInfo>, l: LinkInfo)
    requires WrittenLinks(now, s) && OFF_LINKS + LINK_SIZE * (|s| + 1) <= |now| && LinkSlot(now, |s|) == LinkBytes(l)
    ensures WrittenLinks(now, s + [l])
  {
    hide LinkSlot, LinkBytes;
  }

  /** What is written is what `feed` reads. */
  lemma WrittenLinksRead(p: Packet, s: seq<LinkInfo>)
    requires p.Valid() && WrittenLinks(p.buffer, s) && NumLinks(p) == |s|
    requires forall l | l in s :: l.quality < 0x1_0000
    ensures Links(p) == s
  {
    hide LinkAt;
    forall i | 0 <= i < |s| ensures Links(p)[i] == s[i] {
      assert LinkSlot(p.buffer, i) == LinkBytes(s[i]);
      LinkRead(p, i, s[i]);
    }
  }

  lemma LinkRead(p: Packet, i: nat, l: LinkInfo)
    requires p.Valid() && i < 256 && LinkSlot(p.buffer, i) == LinkBytes(l) && l.quality < 0x1_0000
    ensures LinkAt(p, i) == l
  {
    hide BigEndian, IdOf, IdBytes, Value;
    var b, o := LinkSlot(p.buffer, i), OFF_LINKS + LINK_SIZE * i;
    assert p.buffer[o..o + ID_SIZE] == b[..ID_SIZE] == IdBytes(l.neighbor);
    assert p.buffer[o + ID_SIZE..o + LINK_SIZE] == b[ID_SIZE..] == BigEndian(l.quality, 2);
    IdRoundTrip(l.neighbor);
    TwoBytes();
    ValueOfBigEndian(l.quality, 2);
  }

  lemma TwoBytes()
    ensures Pow256(2) == 0x1_0000
  {
  }

  lemma EndsAt(t: seq<NodeDescr>, i: nat, me: NodeId)
    requires SearchesEnd(t, me) && i < |t|
    ensures t[i].lastBeacon.Valid() && Ends(t[i].lastBeacon, me) && HasBeacons(t[..i]) && HasBeacons(t[..i + 1])
  {
    hide Ends;
  }

  lemma BeaconsThere(t: seq<NodeDescr>, me: NodeId)
    requires SearchesEnd(t, me)
    ensures HasBeacons(t)
  {
    hide Ends;
  }

  lemma NoLinksYet(buf: seq<byte>, t: seq<NodeDescr>, me: NodeId, metric: NodeDescr -> nat)
    requires |buf| == MAX_PACKET && HasBeacons(t)
    ensures Announced(t[..0], me, metric) == [] && WrittenLinks(buf, [])
  {
  }

  lemma AnnouncedNext(t: seq<NodeDescr>, i: nat, me: NodeId, metric: NodeDescr -> nat)
    requires i < |t| && HasBeacons(t[..i]) && HasBeacons(t[..i + 1]) && t[i].lastBeacon.Valid()
    ensures Announced(t[..i + 1], me, metric) ==
      if IsBidiGood(t[i], me) then Announced(t[..i], me, metric) + [Info(t[i], metric)]
      else Announced(t[..i], me, metric)
  {
    hide IsBidiGood, Info;
    assert t[..i + 1][..i] == t[..i] && t[..i + 1][i] == t[i];
  }

  /** The link loop of TopoPacket::setNeigh. */
  method WriteLinks(neighbors: array<NodeDescr>, numNeigh: nat, me: NodeId, metric: NodeDescr -> nat, buf: array<byte>)
    returns (n: nat)
    requires numNeigh <= neighbors.Length && numNeigh <= MAX_NEIGHBORS && buf.Length == MAX_PACKET
    requires SearchesEnd(neighbors[..numNeigh], me)
    modifies buf
    ensures n == |Announced(neighbors[..numNeigh], me, metric)|
    ensures WrittenLinks(buf[..], Announced(neighbors[..numNeigh], me, metric))
    ensures buf[..OFF_LINKS] == old(buf[..OFF_LINKS])
  {
    hide IsMpr, IsNoMpr, WrittenLinks, Announced, SearchesEnd, Ends, BeaconHistories.Clamped;
    ghost var t := neighbors[..numNeigh];
    n := 0;
    BeaconsThere(t, me);
    NoLinksYet(buf[..], t, me, metric);
    for i := 0 to numNeigh
      invariant n == |Announced(t[..i], me, metric)| <= i && WrittenLinks(buf[..], Announced(t[..i], me, metric))
      invariant buf[..OFF_LINKS] == old(buf[..OFF_LINKS])
    {
      assert neighbors[i] == t[i];
      EndsAt(t, i, me);
      AnnouncedNext(t, i, me, metric);
      var heard := HasNeigh(neighbors[i].lastBeacon, me);
      if heard && neighbors[i].active {
        AppendLink(buf, Announced(t[..i], me, metric), n, neighbors[i].id,
          BeaconHistories.Clamped(metric(neighbors[i])));
        n := n + 1;
      }
    }
    assert t[..numNeigh] == t;
  }

  /** TopoPacket::setNeigh. `name` is a C string without its terminator. */
  method SetTopoNeigh(neighbors: array<NodeDescr>, numNeigh: nat, me: NodeId, metric: NodeDescr -> nat,
                      name: seq<byte>, buf: array<byte>)
    returns (size: nat)
    requires numNeigh <= neighbors.Length && numNeigh <= MAX_NEIGHBORS && buf.Length == MAX_PACKET
    requires Sorted(neighbors[..numNeigh]) && SearchesEnd(neighbors[..numNeigh], me) && 0 !in name
    modifies buf
    ensures size <= MAX_PACKET && buf[..OFF_NUM_LINKS] == old(buf[..OFF_NUM_LINKS])
    ensures var p := Packet(buf[..], size);
      && !HeaderMissing(p) && !LinksMissing(p)
      && Links(p) == Announced(neighbors[..numNeigh], me, metric)
      && forall kept :: NameAfter(p, kept) == if |name| > 32 then name[..32] else name
  {
    hide IsMpr, IsNoMpr, WrittenLinks, Announced, NameAfter, CString;
    ghost var t := neighbors[..numNeigh];
    ghost var s := Announced(t, me, metric);
    var n := WriteLinks(neighbors, numNeigh, me, metric, buf);
    AnnouncedExact(t, me, metric);
    var addr := OFF_LINKS + LINK_SIZE * n;
    var len := if |name| > 32 then 32 else |name|;
    WriteName(buf, addr, name, len, s);
    ghost var was := buf[..];
    buf[OFF_NUM_LINKS] := n;
    ghost var now := buf[..];
    assert now[..OFF_NUM_LINKS] == was[..OFF_LINKS][..OFF_NUM_LINKS];
    assert now[OFF_LINKS..addr] == was[OFF_LINKS..addr];
    assert now[addr..addr + 1 + len] == was[addr..addr + 1 + len];
    size := OFF_LINKS + LINK_SIZE * n + len + 1;
    LinksKept(was, now, s);
    ghost var p := Packet(now, size);
    WrittenLinksRead(p, s);
    NameRead(p, addr, name[..len]);
  }

  /** The name with its length (src/TopoPacket.cc:49-53). */
  method WriteName(buf: array<byte>, addr: nat, name: seq<byte>, len: nat, ghost s: seq<LinkInfo>)
    requires buf.Length == MAX_PACKET && addr == OFF_LINKS + LINK_SIZE * |s| && addr + 33 <= MAX_PACKET
    requires len <= 32 && len <= |name| && WrittenLinks(buf[..], s)
    modifies buf
    ensures WrittenLinks(buf[..], s) && buf[..OFF_LINKS] == old(buf[..OFF_LINKS])
    ensures buf[addr..addr + 1 + len] == [len] + name[..len]
  {
    hide WrittenLinks;
    ghost var was := buf[..];
    buf[addr] := len;
    for i := 0 to len
      invariant buf[..addr] == was[..addr]
      invariant buf[addr..addr + 1 + i] == [len] + name[..i]
    {
      ghost var b := buf[..];
      buf[addr + 1 + i] := name[i];
      assert buf[..] == b[addr + 1 + i := name[i]];
      assert buf[addr..addr + 1 + (i + 1)] == b[addr..addr + 1 + i] + [name[i]];
    }
    ghost var now := buf[..];
    assert now[..OFF_LINKS] == now[..addr][..OFF_LINKS] && was[..OFF_LINKS] == was[..addr][..OFF_LINKS];
    assert now[OFF_LINKS..addr] == now[..addr][OFF_LINKS..] && was[OFF_LINKS..addr] == was[..addr][OFF_LINKS..];
    LinksKept(was, now, s);
  }

  lemma {:induction false} CStringWhole(s: seq<byte>)
    requires 0 !in s
    ensures CString(s) == s
  {
    if s != [] {
      assert s[0] in s;
      CStringWhole(s[1..]);
    }
  }

  lemma NameRead(p: Packet, at: nat, name: seq<byte>)
    requires p.Valid() && at == LinksEnd(p) && |name| <= 32 && at + 33 <= MAX_PACKET && p.size == at + |name| + 1
    requires p.buffer[at..at + 1 + |name|] == [|name|] + name && 0 !in name
    ensures forall kept :: NameAfter(p, kept) == name
  {
    var b := p.buffer[at..at + 1 + |name|];
    assert p.buffer[at] == b[0] == |name|;
    assert p.buffer[at + 1..at + 1 + |name|] == b[1..] == name;
    CStringWhole(name);
  }

  /** A whole announcement (src/AwdsRouting.cc:116-133 without the signature):
      `feed` accepts it, whatever the neighbour table. */
  method SendTopo(neighbors: array<NodeDescr>, numNeigh: nat, me: NodeId, metric: NodeDescr -> nat, name: seq<byte>,
                  period: nat, buf: array<byte>)
    returns (size: nat)
    requires numNeigh <= neighbors.Length && numNeigh <= MAX_NEIGHBORS && buf.Length == MAX_PACKET
    requires Sorted(neighbors[..numNeigh]) && SearchesEnd(neighbors[..numNeigh], me) && 0 !in name
    requires 0 < 3 * period < 0x1_0000_0000
    modifies buf
    ensures size <= MAX_PACKET
    ensures var p := Packet(buf[..], size);
      && PassesAssertions(p) && !HeaderMissing(p) && !LinksMissing(p) && Validity(p) == 3 * period
      && Source(p) == old(IdAt(buf[..], OFF_SRC))
      && Links(p) == Announced(neighbors[..numNeigh], me, metric)
      && forall kept :: NameAfter(p, kept) == if |name| > 32 then name[..32] else name
  {
    hide Announced, NameAfter, Links, BigEndian, IdOf, Value;
    ghost var t, before := neighbors[..numNeigh], buf[..];
    size := SetTopoNeigh(neighbors, numNeigh, me, metric, name, buf);
    ghost var p1 := Packet(buf[..], size);
    assert p1.buffer[OFF_SRC..OFF_SRC + 6] == p1.buffer[..OFF_NUM_LINKS][OFF_SRC..OFF_SRC + 6];
    assert before[OFF_SRC..OFF_SRC + 6] == before[..OFF_NUM_LINKS][OFF_SRC..OFF_SRC + 6];
    StoreBytes(3 * period, buf, OFF_VALIDITY, 4);
    ghost var p := Packet(buf[..], size);
    SameTail(p1, p);
    assert p.buffer[OFF_SRC..OFF_SRC + 6] == p1.buffer[OFF_SRC..OFF_SRC + 6];
    assert p.buffer[OFF_VALIDITY..OFF_VALIDITY + 4] == BigEndian(3 * period, 4);
    FourBytes();
    ValueOfBigEndian(3 * period, 4);
    AnnouncedExact(t, me, metric);
  }

  lemma FourBytes()
    ensures Pow256(4) == 0x1_0000_0000
  {
    assert Pow256(2) == 0x1_0000;
  }

  /** Links and name do not depend on the header. */
  lemma SameTail(p: Packet, q: Packet)
    requires p.Valid() && q.Valid() && p.size == q.size && p.buffer[OFF_NUM_LINKS..] == q.buffer[OFF_NUM_LINKS..]
    ensures Links(p) == Links(q) && NumLinks(p) == NumLinks(q)
    ensures forall kept :: NameAfter(p, kept) == NameAfter(q, kept)
  {
    var a, b := p.buffer[OFF_NUM_LINKS..], q.buffer[OFF_NUM_LINKS..];
    assert NumLinks(p) == a[0] == b[0] == NumLinks(q);
    forall i | 0 <= i < NumLinks(p) ensures LinkAt(p, i) == LinkAt(q, i) { SameLink(p, q, i); }
    SameName(p, q);
  }

  lemma SameLink(p: Packet, q: Packet, i: nat)
    requires p.Valid() && q.Valid() && i < 256 && p.buffer[OFF_NUM_LINKS..] == q.buffer[OFF_NUM_LINKS..]
    ensures LinkAt(p, i) == LinkAt(q, i)
  {
    var at := OFF_LINKS + LINK_SIZE * i;
    SameSlice(p.buffer, q.buffer, at, ID_SIZE);
    SameSlice(p.buffer, q.buffer, at + ID_SIZE, 2);
  }

  lemma SameName(p: Packet, q: Packet)
    requires p.Valid() && q.Valid() && p.size == q.size && p.buffer[OFF_NUM_LINKS..] == q.buffer[OFF_NUM_LINKS..]
    requires NumLinks(p) == NumLinks(q)
    ensures forall kept :: NameAfter(p, kept) == NameAfter(q, kept)
  {
    hide CString, NumLinks;
    var at := LinksEnd(p);
    SameSlice(p.buffer, q.buffer, at, 1);
    assert p.buffer[at..at + 1][0] == p.buffer[at] && q.buffer[at..at + 1][0] == q.buffer[at];
    var n: nat := if p.buffer[at] > 32 then 32 else p.buffer[at];
    SameSlice(p.buffer, q.buffer, at + 1, n);
  }

  lemma SameSlice(a: seq<byte>, b: seq<byte>, at: nat, n: nat)
    requires OFF_NUM_LINKS <= at <= at + n <= |a| == |b| && a[OFF_NUM_LINKS..] == b[OFF_NUM_LINKS..]
    ensures a[at..at + n] == b[at..at + n]
  {
    forall i | at <= i < at + n ensures a[i] == b[i] {
      var o := i - OFF_NUM_LINKS;
      assert a[OFF_NUM_LINKS..][o] == a[i] && b[OFF_NUM_LINKS..][o] == b[i];
    }
    var c, d := a[at..at + n], b[at..at + n];
    forall i | 0 <= i < n ensures c[i] == d[i] {
      assert c[i] == a[at + i] && d[i] == b[at + i];
    }
  }
}
