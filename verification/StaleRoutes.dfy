/** A run in which repeated announcements make routes go stale: a link is
    reweighed without the routes being computed again (src/Topology.cc:387-415,
    446-459). */
module StaleRoutes {
  import opened Bytes
  import opened Graphs
  import opened TopoPackets
  import opened Sets
  import Topology

  /** A topology packet of node `src` that is valid for 100 milliseconds and
      announces a link of quality 1 to `b`, or none. */
  function Announcement(src: NodeId, linked: bool, b: NodeId): (p: Packet)
    ensures p.Valid()
  {
    Packet(seq(MAX_PACKET, i requires 0 <= i < MAX_PACKET =>
      if OFF_SRC <= i < OFF_SRC + ID_SIZE then IdBytes(src)[i - OFF_SRC]
      else if i == OFF_VALIDITY + 3 then 100
      else if i == OFF_NUM_LINKS then if linked then 1 else 0
      else if linked && OFF_LINKS <= i < OFF_LINKS + ID_SIZE then IdBytes(b)[i - OFF_LINKS]
      else if linked && i == OFF_LINKS + ID_SIZE + 1 then 1
      else 0), OFF_LINKS + LINK_SIZE + 1)
  }

  function LinksTo(linked: bool, b: NodeId): seq<LinkInfo> { if linked then [LinkInfo(b, 1)] else [] }

  lemma AnnouncementRead(src: NodeId, linked: bool, b: NodeId)
    ensures var p := Announcement(src, linked, b);
      && Source(p) == src && Validity(p) == 100 && Links(p) == LinksTo(linked, b)
      && PassesAssertions(p) && !HeaderMissing(p) && !LinksMissing(p)
  {
    hide IdBytes, IdOf, LinkAt;
    var p := Announcement(src, linked, b);
    assert p.buffer[OFF_SRC..OFF_SRC + ID_SIZE] == IdBytes(src);
    IdRoundTrip(src);
    assert p.buffer[OFF_VALIDITY..OFF_VALIDITY + 4] == [0, 0, 0, 100];
    SmallValues();
    if linked { OneLinkRead(src, b); }
  }

  lemma SmallValues()
    ensures Value([0, 0, 0, 100]) == 100 && Value([0, 1]) == 1
  {
    assert [0, 0, 0, 100][..3] == [0, 0, 0] && [0, 0, 0][..2] == [0, 0] && [0, 0][..1] == [0] && [0][..0] == [];
    assert [0, 1][..1] == [0];
  }

  lemma OneLinkRead(src: NodeId, b: NodeId)
    ensures LinkAt(Announcement(src, true, b), 0) == LinkInfo(b, 1)
  {
    hide IdBytes, IdOf;
    var p := Announcement(src, true, b);
    assert OFF_LINKS + LINK_SIZE * 0 == OFF_LINKS;
    assert p.buffer[OFF_LINKS..OFF_LINKS + ID_SIZE] == IdBytes(b);
    IdRoundTrip(b);
    assert p.buffer[OFF_LINKS + ID_SIZE..OFF_LINKS + LINK_SIZE] == [0, 1];
    SmallValues();
  }

  /** Only `a` and `b` are known, and all links are among them. */
  ghost predicate PairIn(adj: Topology.AdjList, a: NodeId, b: NodeId) {
    && a != b && a in adj && adj.Keys <= {a, b} && adj[a].edgeValidity > 0
    && forall v | v in adj ::
      Topology.Neighbors(adj[v].linklist) <= {a, b} && adj[v].edgeValidity <= adj[v].nodeValidity
  }

  ghost predicate Pair(top: Topology.RTopology, a: NodeId, b: NodeId)
    reads top, top.Repr
  {
    top.Valid() && !top.locked && top.me == a && PairIn(top.adjList, a, b)
  }

  lemma PairRoutable(top: Topology.RTopology, a: NodeId, b: NodeId, p: Packet)
    requires PairIn(top.adjList, a, b) && top.me == a
    requires p.Valid() && Source(p) in {a, b} && Topology.LinkTargets(Links(p)) <= {a, b}
    ensures top.Routable(p, 0)
  {
    hide Links, Source;
    var src := Source(p);
    var all := top.adjList.Keys + {src} + Topology.LinkTargets(Links(p))
      + (if src in top.adjList then Topology.Neighbors(top.adjList[src].linklist) else {});
    assert all <= {a, b};
    SubsetSize(all, {a, b});
  }

  lemma FedPair(adj: Topology.AdjList, adj': Topology.AdjList, p: Packet, a: NodeId, b: NodeId, src: NodeId,
                linked: bool, other: NodeId)
    requires PairIn(adj, a, b) && {src, other} == {a, b} && p.Valid() && Source(p) == src && Validity(p) == 100
    requires Links(p) == LinksTo(linked, other) && Topology.FedFrom(adj, adj', p, 0)
    requires forall v | v in adj' :: adj'[v].edgeValidity <= adj'[v].nodeValidity
    ensures PairIn(adj', a, b) && src in adj' && adj'[src].edgeValidity == 100
    ensures Topology.Infos(adj'[src].linklist) == LinksTo(linked, other)
    ensures other in adj && adj[other].edgeValidity > 0 ==>
      other in adj' && adj'[other].linklist == adj[other].linklist &&
        adj'[other].edgeValidity == adj[other].edgeValidity
  {
    hide Links, Source, Validity, NameAfter, Topology.Infos, LinksTo, Topology.LinkTargets, Topology.Neighbors;
    TargetsTo(linked, other);
    Topology.TargetsOfInfos(adj'[src].linklist);
    Topology.NoNeighbors();
  }

  lemma TargetsTo(linked: bool, b: NodeId)
    ensures Topology.LinkTargets(LinksTo(linked, b)) == if linked then {b} else {}
  {
  }

  /** One announcement of `src`, at time 0, about the other node. */
  method Announce(top: Topology.RTopology, a: NodeId, b: NodeId, src: NodeId, linked: bool, other: NodeId)
    requires Pair(top, a, b) && {src, other} == {a, b}
    modifies top, top.Repr
    ensures Pair(top, a, b) && fresh(top.Repr - old(top.Repr)) && !top.dirty
    ensures src in top.adjList && top.adjList[src].edgeValidity == 100
    ensures top.AnnouncedBefore(src) == LinksTo(linked, other)
    ensures old(other in top.adjList && top.adjList[other].edgeValidity > 0) ==>
      && other in top.adjList && top.adjList[other].linklist == old(top.adjList)[other].linklist
      && top.adjList[other].edgeValidity == old(top.adjList)[other].edgeValidity
    ensures Topology.GraphFed(top.weigh, old(top.adjList), top.adjList, old(top.Graph()), top.Graph(), src,
        LinksTo(linked, other))
    ensures old(top.dirty || top.AnnouncedBefore(src) != LinksTo(linked, other)) ==> top.RoutesExact()
    ensures old(!top.dirty && top.AnnouncedBefore(src) == LinksTo(linked, other) && top.RoutesExact()) ==>
      top.adjList.Keys == old(top.adjList).Keys ==>
      (top.RoutesExact() <==> Topology.StillFits(top.weigh, old(top.adjList), a, src, LinksTo(linked, other)))
  {
    hide *;
    var p := Announcement(src, linked, other);
    AnnouncementRead(src, linked, other);
    PairFacts(top, a, b);
    TargetsWithin(a, b, src, linked, other);
    PairRoutable(top, a, b, p);
    ghost var adj := top.adjList;
    top.Feed(p, 0);
    ShapeFacts(top);
    FedPair(adj, top.adjList, p, a, b, src, linked, other);
    PairFormed(top, a, b);
    AnnouncedFacts(top, src);
  }

  lemma PairFacts(top: Topology.RTopology, a: NodeId, b: NodeId)
    requires Pair(top, a, b)
    ensures top.Valid() && !top.locked && top.me == a && PairIn(top.adjList, a, b)
  {
  }

  lemma PairFormed(top: Topology.RTopology, a: NodeId, b: NodeId)
    requires top.Valid() && !top.locked && top.me == a && PairIn(top.adjList, a, b)
    ensures Pair(top, a, b)
  {
  }

  lemma AnnouncedFacts(top: Topology.RTopology, src: NodeId)
    requires src in top.adjList
    ensures top.AnnouncedBefore(src) == Topology.Infos(top.adjList[src].linklist)
  {
  }

  lemma TargetsWithin(a: NodeId, b: NodeId, src: NodeId, linked: bool, other: NodeId)
    requires {src, other} == {a, b}
    ensures src in {a, b} && Topology.LinkTargets(LinksTo(linked, other)) <= {a, b}
  {
    TargetsTo(linked, other);
    assert src in {src, other} && other in {src, other};
  }

  lemma ShapeFacts(top: Topology.RTopology)
    requires top.Valid()
    ensures forall v | v in top.adjList :: top.adjList[v].edgeValidity <= top.adjList[v].nodeValidity
  {
  }

  /** The announced link back, as the merge finds it. */
  lemma BackLink(adj: Topology.AdjList, src: NodeId, linked: bool, b: NodeId)
    requires b in adj && Topology.Infos(adj[b].linklist) == LinksTo(linked, src)
    ensures Topology.QualityOf(Topology.Stored(adj, b, src)) == if linked then Topology.Some(1) else Topology.None
  {
    var ll, infos := adj[b].linklist, Topology.Infos(adj[b].linklist);
    assert |ll| == |infos|;
    if linked { assert infos[0] == LinkInfo(src, 1) && ll[0].neighbor == src && ll[0].quality == 1; }
  }

  /** The only way to `b` is the link of `a`. */
  lemma OnlyWay(g: Graph, a: NodeId, b: NodeId, dist: map<NodeId, nat>, prev: map<NodeId, NodeId>, inf: nat)
    requires ShortestPathTree(g, a, dist, prev, inf) && a != b && g.Keys == {a, b} && b in g[a] && g[b] == map[]
    ensures prev[b] == a && dist[b] == g[a][b]
  {
    assert Edge(g, a, b);
    assert Hangs(g, a, dist, prev, inf, b);
    assert Edge(g, prev[b], b);
  }

  lemma DoesNotFit(weigh: (nat, nat) -> nat, adj: Topology.AdjList, g: Graph, a: NodeId, b: NodeId)
    requires Routed(g, a, Topology.Dist(adj), Topology.Prev(adj), Topology.UINT_MAX, Topology.NextHops(adj))
    requires a != b && g.Keys == adj.Keys == {a, b} && b in g[a] && g[a][b] < Topology.MAX_WEIGHT && g[b] == map[]
    requires Topology.Infos(adj[b].linklist) == []
    ensures !Topology.StillFits(weigh, adj, a, a, LinksTo(true, b))
  {
    hide FirstHop, Topology.Infos;
    OnlyWay(g, a, b, Topology.Dist(adj), Topology.Prev(adj), Topology.UINT_MAX);
    BackLink(adj, a, false, b);
    var x := LinkInfo(b, 1);
    assert x in LinksTo(true, b);
    assert Topology.NewWeight(weigh, adj, a, x) == Topology.MAX_WEIGHT;
    assert !Topology.LinkFits(weigh, adj, a, a, x);
  }

  /** Nodes `a` and `b` announce their link to each other, then `b` withdraws its
      own, then `a` repeats its announcement: its link now weighs the maximum, but
      the distance stored for `b` is still the former weight. */
  method StaleRun(a: NodeId, b: NodeId, weigh: (nat, nat) -> nat) returns (top: Topology.RTopology)
    requires a != b && (forall f, g :: weigh(f, g) >= 1) && weigh(1, 1) < Topology.MAX_WEIGHT
    ensures top.Valid() && top.me == a && !top.dirty && !top.RoutesExact()
  {
    hide *;
    top := LinkBothWays(a, b, weigh);
    Withdraw(top, a, b);
    ghost var adj := top.adjList;
    PairFacts(top, a, b);
    top.GraphRows();
    top.ExactUnfold();
    WithdrawnFacts(top, a, b);
    DoesNotFit(top.weigh, adj, top.Graph(), a, b);
    Announce(top, a, b, a, true, b);
    PairFacts(top, a, b);
    BothKnown(top.adjList, a, b);
  }

  lemma BothKnown(adj: Topology.AdjList, a: NodeId, b: NodeId)
    requires PairIn(adj, a, b) && b in adj
    ensures adj.Keys == {a, b}
  {
  }

  /** Both links are announced; `a` holds the joint weight. */
  method LinkBothWays(a: NodeId, b: NodeId, weigh: (nat, nat) -> nat) returns (top: Topology.RTopology)
    requires a != b && (forall f, g :: weigh(f, g) >= 1) && weigh(1, 1) < Topology.MAX_WEIGHT
    ensures fresh(top) && fresh(top.Repr) && Pair(top, a, b) && Linked(top, a, b)
  {
    hide Topology.GraphFed, Topology.StillFits, Topology.RTopology.RoutesExact, Topology.RTopology.Graph;
    hide Topology.Infos;
    hide Topology.RTopology.Valid, LinksTo;
    top := new Topology.RTopology(a, weigh, 0);
    Topology.NoNeighbors();
    Announce(top, a, b, b, true, a);
    ghost var adj := top.adjList;
    AnnouncedFacts(top, b);
    ghost var g := top.Graph();
    Announce(top, a, b, a, true, b);
    AnnouncedFacts(top, b);
    JointWeight(weigh, adj, top.adjList, g, top.Graph(), a, b);
  }

  /** What the two announcements leave. */
  ghost predicate Linked(top: Topology.RTopology, a: NodeId, b: NodeId)
    requires top.Valid()
    reads top, top.Repr
  {
    && !top.dirty && a in top.adjList && b in top.adjList
    && top.AnnouncedBefore(a) == LinksTo(true, b) && top.AnnouncedBefore(b) == LinksTo(true, a)
    && a in top.Graph() && b in top.Graph()[a] && top.Graph()[a][b] < Topology.MAX_WEIGHT
  }

  lemma JointWeight(weigh: (nat, nat) -> nat, adj: Topology.AdjList, adj': Topology.AdjList, g: Graph, g': Graph,
                    a: NodeId, b: NodeId)
    requires Topology.GraphFed(weigh, adj, adj', g, g', a, LinksTo(true, b)) && weigh(1, 1) < Topology.MAX_WEIGHT
    requires a != b && b in adj && Topology.Infos(adj[b].linklist) == LinksTo(true, a)
    ensures a in g' && b in g'[a] && g'[a][b] < Topology.MAX_WEIGHT
  {
    hide Topology.Infos;
    BackLink(adj, a, true, b);
    var x := LinkInfo(b, 1);
    assert x in LinksTo(true, b);
  }

  /** `b` withdraws its link: the weight at `a` stays. */
  method Withdraw(top: Topology.RTopology, a: NodeId, b: NodeId)
    requires Pair(top, a, b) && Linked(top, a, b)
    modifies top, top.Repr
    ensures fresh(top.Repr - old(top.Repr)) && Pair(top, a, b) && !top.dirty && top.RoutesExact()
    ensures top.AnnouncedBefore(a) == LinksTo(true, b)
    ensures top.AnnouncedBefore(b) == LinksTo(false, a) && b in top.adjList && top.adjList[b].edgeValidity == 100
    ensures a in top.Graph() && b in top.Graph()[a] && top.Graph()[a][b] < Topology.MAX_WEIGHT
  {
    hide Topology.GraphFed, Topology.StillFits, Topology.RTopology.RoutesExact, Topology.RTopology.Graph;
    hide Topology.Infos;
    hide Topology.RTopology.Valid;
    ghost var adj, g := top.adjList, top.Graph();
    Announce(top, a, b, b, false, a);
    WeightStays(top.weigh, adj, top.adjList, g, top.Graph(), a, b);
  }

  lemma WeightStays(weigh: (nat, nat) -> nat, adj: Topology.AdjList, adj': Topology.AdjList, g: Graph, g': Graph,
                    a: NodeId, b: NodeId)
    requires Topology.GraphFed(weigh, adj, adj', g, g', b, LinksTo(false, a)) && a != b
    requires a in adj && a in adj' && adj'[a].linklist == adj[a].linklist && b in g[a]
    ensures a in g' && b in g'[a] && g'[a][b] == g[a][b]
  {
    TargetsTo(false, a);
  }

  lemma WithdrawnFacts(top: Topology.RTopology, a: NodeId, b: NodeId)
    requires Pair(top, a, b) && b in top.adjList && top.AnnouncedBefore(b) == LinksTo(false, a)
    ensures top.Graph().Keys == top.adjList.Keys == {a, b} && top.Graph()[b] == map[]
    ensures Topology.Infos(top.adjList[b].linklist) == []
  {
    hide Topology.RTopology.Valid;
    top.GraphRows();
    Topology.TargetsOfInfos(top.adjList[b].linklist);
    Topology.NoTargets();
  }
}
