/** From the databases of single nodes to the network: what `calcRoutes` leaves
    on every node is what loop-free delivery needs. */
module Convergence {
  import opened Bytes
  import opened Graphs
  import opened TopoPackets
  import Forwarding
  import Topology

  /** All nodes hold the graph `g` and have just computed their routes. */
  ghost predicate JustComputed(g: Graph, tops: map<NodeId, Topology.RTopology>)
    reads set u | u in tops :: tops[u]
    reads set u, l | u in tops && l in tops[u].Repr :: l
  {
    && tops.Keys == g.Keys
    && forall u | u in g :: Computed(g, u, tops[u])
  }

  ghost predicate Computed(g: Graph, u: NodeId, top: Topology.RTopology)
    reads top, top.Repr
  {
    top.Valid() && top.me == u && top.Graph() == g && top.RoutesExact()
  }

  ghost function Tables(tops: map<NodeId, Topology.RTopology>): map<NodeId, map<NodeId, NodeId>>
    reads set u | u in tops :: tops[u]
  {
    map u | u in tops :: Topology.NextHops(tops[u].adjList)
  }

  lemma ComputedFacts(g: Graph, u: NodeId, top: Topology.RTopology)
    requires Computed(g, u, top)
    ensures Positive(g) && CorrectNextHops(g, u, Topology.NextHops(top.adjList))
  {
    hide Topology.RTopology.Valid, CorrectNextHops, ShortestPathTree, FirstHop;
    top.ExactUnfold();
    RoutedCorrect(g, u, Topology.Dist(top.adjList), Topology.Prev(top.adjList), Topology.UINT_MAX,
                  Topology.NextHops(top.adjList));
  }

  lemma TablesConverged(g: Graph, tops: map<NodeId, Topology.RTopology>)
    requires JustComputed(g, tops)
    ensures Forwarding.Converged(g, Tables(tops))
  {
    hide Computed, CorrectNextHops;
    forall u | u in g ensures Positive(g) && CorrectNextHops(g, u, Tables(tops)[u]) {
      assert Computed(g, u, tops[u]);
      ComputedFacts(g, u, tops[u]);
    }
    if g.Keys == {} { assert Positive(g); }
  }

  /** Loop-free delivery over the nodes' own databases. */
  lemma DeliveredByDatabases(g: Graph, tops: map<NodeId, Topology.RTopology>, p: Packet, src: NodeId, t: NodeId)
    requires JustComputed(g, tops) && src in g && Forwarding.NewPacket(p, src, t)
    ensures Forwarding.Converged(g, Tables(tops))
    ensures var j := Forwarding.Launch(Tables(tops), src, p);
      && (j.delivered <==> t in g && Reachable(g, src, t) && |Forwarding.HopPath(g, Tables(tops), src, t)| - 1 <= 31)
      && (forall a, b | 0 <= a < b < |j.visited| :: j.visited[a] != j.visited[b])
  {
    hide JustComputed, Forwarding.Converged, Forwarding.HopPath, Forwarding.Launch, Tables;
    TablesConverged(g, tops);
    Forwarding.Delivery(g, Tables(tops), p, src, t);
  }
}
