/** Network-wide forwarding: all nodes hold the same graph and have just
    computed their routes. */
module Forwarding {
  import opened Bytes
  import opened Graphs
  import opened TopoPackets
  import opened Unicast

  /** One table of next hops per node, each as `calcRoutes` leaves it. */
  ghost predicate Converged(g: Graph, tables: map<NodeId, map<NodeId, NodeId>>) {
    && Positive(g) && tables.Keys == g.Keys
    && forall u {:trigger CorrectNextHops(g, u, tables[u])} | u in g :: CorrectNextHops(g, u, tables[u])
  }

  lemma TableFacts(g: Graph, tables: map<NodeId, map<NodeId, NodeId>>, u: NodeId, t: NodeId)
    requires Converged(g, tables) && u in g
    ensures tables.Keys == g.Keys && tables[u].Keys == g.Keys && Positive(g)
    ensures t in g && (u == t || !Reachable(g, u, t)) ==> tables[u][t] == u
    ensures t in g && u != t && Reachable(g, u, t) ==> tables[u][t] != u && StartsShortestPath(g, u, tables[u][t], t)
  {
    hide StartsShortestPath, Reachable;
    assert CorrectNextHops(g, u, tables[u]);
    if t in g { assert CorrectHop(g, u, tables[u][t], t); }
  }

  lemma SelfReachable(g: Graph, u: NodeId)
    requires u in g
    ensures IsDistance(g, u, u, 0) && Reachable(g, u, u)
  {
    assert Walk(g, [u], u, u) && Length(g, [u]) == 0;
  }

  lemma DistanceExists(g: Graph, tables: map<NodeId, map<NodeId, NodeId>>, u: NodeId, t: NodeId)
    requires Converged(g, tables) && u in g && t in g && Reachable(g, u, t)
    ensures exists d: nat :: IsDistance(g, u, t, d)
  {
    hide Converged, IsDistance, Reachable;
    if u == t {
      SelfReachable(g, u);
    } else {
      TableFacts(g, tables, u, t);
    }
  }

  /** Distance to the destination, in the common graph. */
  ghost function Distance(g: Graph, tables: map<NodeId, map<NodeId, NodeId>>, u: NodeId, t: NodeId): (d: nat)
    requires Converged(g, tables) && u in g && t in g && Reachable(g, u, t)
    ensures IsDistance(g, u, t, d)
  {
    DistanceExists(g, tables, u, t);
    var d: nat :| IsDistance(g, u, t, d);
    d
  }

  lemma HasWalk(g: Graph, s: NodeId, t: NodeId, d: nat)
    requires IsDistance(g, s, t, d)
    ensures Reachable(g, s, t)
  {
  }

  /** Each forwarding step strictly lowers the distance to the destination. */
  lemma StepCloser(g: Graph, tables: map<NodeId, map<NodeId, NodeId>>, u: NodeId, t: NodeId)
    requires Converged(g, tables) && u in g && t in g && u != t && Reachable(g, u, t)
    ensures u in tables && t in tables[u]
    ensures var h := tables[u][t];
      && h in g && h != u && Reachable(g, h, t)
      && Distance(g, tables, h, t) < Distance(g, tables, u, t)
  {
    hide Converged, IsDistance, Reachable, Walk, Distance;
    TableFacts(g, tables, u, t);
    var h := tables[u][t];
    var d: nat :| IsDistance(g, h, t, d) && IsDistance(g, u, t, Weight(g, u, h) + d);
    HasWalk(g, h, t, d);
    DistanceUnique(g, h, t, d, Distance(g, tables, h, t));
    DistanceUnique(g, u, t, Weight(g, u, h) + d, Distance(g, tables, u, t));
  }

  /** The nodes from `u` to `t` along next hops. */
  ghost function HopPath(g: Graph, tables: map<NodeId, map<NodeId, NodeId>>, u: NodeId, t: NodeId): (p: seq<NodeId>)
    requires Converged(g, tables) && u in g && t in g && Reachable(g, u, t)
    ensures |p| >= 1 && p[0] == u && p[|p| - 1] == t
    decreases Distance(g, tables, u, t)
  {
    if u == t then [u]
    else
      StepCloser(g, tables, u, t);
      [u] + HopPath(g, tables, tables[u][t], t)
  }

  lemma {:induction false} HopPathCloser(g: Graph, tables: map<NodeId, map<NodeId, NodeId>>, u: NodeId, t: NodeId,
                                         k: nat)
    requires Converged(g, tables) && u in g && t in g && Reachable(g, u, t)
    requires k < |HopPath(g, tables, u, t)|
    ensures var v := HopPath(g, tables, u, t)[k];
      && v in g && Reachable(g, v, t)
      && (k > 0 ==> Distance(g, tables, v, t) < Distance(g, tables, u, t))
    decreases k
  {
    hide Converged, Reachable, Distance, IsDistance;
    if k > 0 {
      StepCloser(g, tables, u, t);
      HopPathCloser(g, tables, tables[u][t], t, k - 1);
    }
  }

  /** No node is visited twice. */
  lemma {:induction false} HopPathSimple(g: Graph, tables: map<NodeId, map<NodeId, NodeId>>, u: NodeId, t: NodeId,
                                         i: nat, j: nat)
    requires Converged(g, tables) && u in g && t in g && Reachable(g, u, t)
    requires i < j < |HopPath(g, tables, u, t)|
    ensures HopPath(g, tables, u, t)[i] != HopPath(g, tables, u, t)[j]
    decreases i
  {
    hide Converged, Reachable, Distance, IsDistance;
    if i == 0 {
      HopPathCloser(g, tables, u, t, j);
    } else {
      StepCloser(g, tables, u, t);
      HopPathSimple(g, tables, tables[u][t], t, i - 1, j - 1);
    }
  }

  /** What becomes of a packet: the nodes that handled it, in order, and
      whether the last one handed it up. */
  datatype Journey = Journey(visited: seq<NodeId>, delivered: bool)

  /** The packet arrives at `at`; every transmission is received by the node it
      names. The TTL byte bounds the journey. */
  function Travel(tables: map<NodeId, map<NodeId, NodeId>>, at: NodeId, p: Packet): (j: Journey)
    requires p.Valid() && Ttl(p.buffer) > 0 && at in tables
    decreases Ttl(p.buffer)
  {
    var (a, b) := Arrived(at, tables[at], p);
    if a.Send? && a.to in tables && 0 < Ttl(b) < Ttl(p.buffer)
    then var j := Travel(tables, a.to, p.(buffer := b)); Journey([at] + j.visited, j.delivered)
    else Journey([at], a == HandUp)
  }

  /** A packet handed to `sendUnicast` at node `at`. */
  function Launch(tables: map<NodeId, map<NodeId, NodeId>>, at: NodeId, p: Packet): Journey
    requires p.Valid() && at in tables
  {
    var (a, b) := Sent(at, tables[at], p);
    if a.Send? && a.to in tables && 0 < Ttl(b)
    then var j := Travel(tables, a.to, p.(buffer := b)); Journey([at] + j.visited, j.delivered)
    else Journey([at], a == HandUp)
  }

  /** A packet on its way to `t`, about to be received by `u`. */
  predicate OnTheWay(p: Packet, src: NodeId, u: NodeId, t: NodeId, ttl: byte) {
    && p.Valid() && Ttl(p.buffer) == ttl && !Traced(p.buffer)
    && Sender(p.buffer) == src && Dest(p.buffer) == t && NextHop(p.buffer) == u
  }

  lemma TtlOf(p: Packet, src: NodeId, u: NodeId, t: NodeId, ttl: byte)
    requires OnTheWay(p, src, u, t, ttl)
    ensures p.Valid() && Ttl(p.buffer) == ttl && Sender(p.buffer) == src
  {
  }

  /** One forwarding decision on such a packet. */
  lemma ForwardStep(me: NodeId, nh: map<NodeId, NodeId>, p: Packet, src: NodeId, t: NodeId, ttl: byte)
    requires OnTheWay(p, src, me, t, ttl) && ttl > 0
    ensures ttl == 1 ==> Received(me, nh, p).0 == Drop
    ensures ttl > 1 && t == me ==> Received(me, nh, p).0 == HandUp
    ensures ttl > 1 && t != me && !HasRoute(me, nh, t) ==> Received(me, nh, p).0 == Drop
    ensures ttl > 1 && t != me && HasRoute(me, nh, t) ==>
              && Received(me, nh, p).0 == Send(nh[t])
              && OnTheWay(p.(buffer := Received(me, nh, p).1), src, nh[t], t, ttl - 1)
  {
    var b := p.buffer[OFF_TTL := Decr(ttl)];
    assert Ttl(b) == ttl - 1;
    assert b[OFF_SRC..OFF_SRC + ID_SIZE] == p.buffer[OFF_SRC..OFF_SRC + ID_SIZE];
    assert b[OFF_DEST..OFF_DEST + ID_SIZE] == p.buffer[OFF_DEST..OFF_DEST + ID_SIZE];
    assert b[OFF_NEXT_HOP..OFF_NEXT_HOP + ID_SIZE] == p.buffer[OFF_NEXT_HOP..OFF_NEXT_HOP + ID_SIZE];
    if ttl > 1 && t != me && HasRoute(me, nh, t) {
      WithIdAt(b, OFF_NEXT_HOP, nh[t], OFF_NEXT_HOP);
      WithIdAt(b, OFF_NEXT_HOP, nh[t], OFF_DEST);
      WithIdAt(b, OFF_NEXT_HOP, nh[t], OFF_SRC);
    }
  }

  /** The journey from an intermediate node follows the hop path until the
      destination or until the TTL is used up. */
  lemma {:induction false} TravelFollowsPath(g: Graph, tables: map<NodeId, map<NodeId, NodeId>>, p: Packet,
                                             src: NodeId, u: NodeId, t: NodeId, ttl: byte)
    requires Converged(g, tables) && src in g && u in g && t in g && Reachable(g, src, t) && Reachable(g, u, t)
    requires Distance(g, tables, u, t) < Distance(g, tables, src, t)
    requires OnTheWay(p, src, u, t, ttl) && ttl > 0
    ensures var path := HopPath(g, tables, u, t); var j := Travel(tables, u, p);
      && (j.delivered <==> |path| < ttl)
      && j.visited == if |path| < ttl then path else path[..ttl]
    decreases ttl
  {
    hide Converged, Reachable, Distance, IsDistance, Received, OnTheWay, Travel;
    TableFacts(g, tables, u, t);
    TtlOf(p, src, u, t, ttl);
    assert u != src;
    ForwardStep(u, tables[u], p, src, t, ttl);
    TravelOnce(tables, u, p);
    var path := HopPath(g, tables, u, t);
    if ttl == 1 {
      assert path[..1] == [u];
    } else if u != t {
      StepCloser(g, tables, u, t);
      var h := tables[u][t];
      var p' := p.(buffer := Received(u, tables[u], p).1);
      TtlOf(p', src, h, t, ttl - 1);
      TravelFollowsPath(g, tables, p', src, h, t, ttl - 1);
      CutPath(u, HopPath(g, tables, h, t), ttl);
    }
  }

  /** The first node of a journey by another sender. */
  lemma TravelOnce(tables: map<NodeId, map<NodeId, NodeId>>, at: NodeId, p: Packet)
    requires p.Valid() && Ttl(p.buffer) > 0 && at in tables && Sender(p.buffer) != at
    ensures var (a, b) := Received(at, tables[at], p);
      && (!a.Send? ==> Travel(tables, at, p) == Journey([at], a == HandUp))
      && (a.Send? && a.to in tables && 0 < Ttl(b) < Ttl(p.buffer) ==>
            var j := Travel(tables, a.to, p.(buffer := b));
            Travel(tables, at, p) == Journey([at] + j.visited, j.delivered))
  {
    hide Received;
  }

  lemma CutPath(u: NodeId, rest: seq<NodeId>, ttl: nat)
    requires ttl >= 1
    ensures |[u] + rest| >= ttl ==> ([u] + rest)[..ttl] == [u] + rest[..ttl - 1]
  {
  }

  /** A packet as `newUnicastPacket` makes it, with its destination filled in. */
  predicate NewPacket(p: Packet, src: NodeId, t: NodeId) {
    && p.Valid() && Ttl(p.buffer) == 32 && !Traced(p.buffer)
    && Sender(p.buffer) == src && Dest(p.buffer) == t
  }

  /** Loop-free delivery: the packet visits the nodes of its hop path in order,
      none of them twice, and is handed up at the destination exactly when the
      destination is reachable over at most 31 hops; otherwise nobody hands it up. */
  lemma Delivery(g: Graph, tables: map<NodeId, map<NodeId, NodeId>>, p: Packet, src: NodeId, t: NodeId)
    requires Converged(g, tables) && src in g && NewPacket(p, src, t)
    ensures var j := Launch(tables, src, p);
      && (j.delivered <==> t in g && Reachable(g, src, t) && |HopPath(g, tables, src, t)| - 1 <= 31)
      && (t in g && Reachable(g, src, t) ==> j.visited <= HopPath(g, tables, src, t))
      && (j.delivered ==> j.visited == HopPath(g, tables, src, t))
      && (forall a, b | 0 <= a < b < |j.visited| :: j.visited[a] != j.visited[b])
  {
    hide Converged, Reachable, Distance, IsDistance, Received, HopPath, OnTheWay, Sent, NewPacket, Travel;
    TableFacts(g, tables, src, t);
    var q := Addressed(tables, p, src, t);
    ForwardStep(src, tables[src], q, src, t, 33);
    if t in g && Reachable(g, src, t) {
      DeliveryReachable(g, tables, p, q, src, t);
      var path := HopPath(g, tables, src, t);
      hide Launch;
      forall a: nat, b: nat | a < b < |path| ensures path[a] != path[b] { HopPathSimple(g, tables, src, t, a, b); }
    } else {
      assert t != src ==> !HasRoute(src, tables[src], t);
      if t == src { SelfReachable(g, src); }
    }
  }

  /** What `sendUnicast` hands to `recv_unicast`. */
  lemma Addressed(tables: map<NodeId, map<NodeId, NodeId>>, p: Packet, src: NodeId, t: NodeId) returns (q: Packet)
    requires NewPacket(p, src, t) && src in tables
    ensures p.Valid() && OnTheWay(q, src, src, t, 33) && q.size == p.size
    ensures Sent(src, tables[src], p) == Received(src, tables[src], q)
  {
    hide Received, IdBytes, IdOf, WithId;
    var b := p.buffer[OFF_TTL := 33];
    q := p.(buffer := WithId(b, OFF_NEXT_HOP, src));
    assert b[OFF_SRC..OFF_SRC + ID_SIZE] == p.buffer[OFF_SRC..OFF_SRC + ID_SIZE];
    assert b[OFF_DEST..OFF_DEST + ID_SIZE] == p.buffer[OFF_DEST..OFF_DEST + ID_SIZE];
    WithIdAt(b, OFF_NEXT_HOP, src, OFF_NEXT_HOP);
    WithIdAt(b, OFF_NEXT_HOP, src, OFF_DEST);
    WithIdAt(b, OFF_NEXT_HOP, src, OFF_SRC);
  }

  lemma DeliveryReachable(g: Graph, tables: map<NodeId, map<NodeId, NodeId>>, p: Packet, q: Packet, src: NodeId,
                          t: NodeId)
    requires Converged(g, tables) && src in g && t in g && Reachable(g, src, t) && p.Valid()
    requires OnTheWay(q, src, src, t, 33)
    requires Sent(src, tables[src], p) == Received(src, tables[src], q) && p.size == q.size
    ensures var j := Launch(tables, src, p); var path := HopPath(g, tables, src, t);
      && (j.delivered <==> |path| <= 32)
      && j.visited == (if |path| <= 32 then path else path[..33])
  {
    hide Converged, Reachable, Distance, IsDistance, Received, OnTheWay, Sent, Travel;
    TableFacts(g, tables, src, t);
    var path := HopPath(g, tables, src, t);
    ForwardStep(src, tables[src], q, src, t, 33);
    if src != t {
      StepCloser(g, tables, src, t);
      var h := tables[src][t];
      TtlOf(q, src, src, t, 33);
      var q' := q.(buffer := Received(src, tables[src], q).1);
      TravelFollowsPath(g, tables, q', src, h, t, 32);
      var rest := HopPath(g, tables, h, t);
      assert path == [src] + rest;
      if |path| > 32 { assert path[..33] == [src] + rest[..32]; }
    }
  }
}
