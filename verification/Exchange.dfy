/** A topology packet from one node's neighbour table into another node's
    database: src/TopoPacket.cc:18-59 and src/Topology.cc:289-536 together. */
module Exchange {
  import opened Bytes
  import opened TopoPackets
  import Neighbours
  import Announcing
  import Topology
  import Graphs
  import BeaconHistories
  import Bits
  import Beacons
  import Sets

  /** The neighbours a stored list names. */
  ghost function Named(adj: Topology.AdjList, a: NodeId): set<NodeId> {
    if a in adj then Topology.Neighbors(adj[a].linklist) else {}
  }

  /** Nodes a packet with these links makes known, beside those known before. */
  ghost predicate Fits(adj: Topology.AdjList, src: NodeId, links: seq<LinkInfo>) {
    |adj.Keys + {src} + Topology.LinkTargets(links) + Named(adj, src)| <= Topology.MAX_NODES
  }

  /** Whatever the neighbour table and the metric, the receiver accepts the
      packet, stores exactly the good bidirectional neighbours with their clamped
      qualities and the name, and keeps its invariant. */
  method AnnounceAndFeed(neighbors: array<Neighbours.NodeDescr>, numNeigh: nat, me: NodeId,
                         metric: Neighbours.NodeDescr -> nat,
                         name: seq<byte>, period: nat, buf: array<byte>, peer: Topology.RTopology, now: int)
    returns (ghost p: Packet)
    requires numNeigh <= neighbors.Length && numNeigh <= Neighbours.MAX_NEIGHBORS && buf.Length == MAX_PACKET
    requires Neighbours.Sorted(neighbors[..numNeigh]) && Neighbours.SearchesEnd(neighbors[..numNeigh], me) && 0 !in name
    requires 0 < 3 * period < 0x1_0000_0000
    requires peer.Valid() && !peer.locked
    requires Topology.SelfPresent(peer.adjList, peer.me, IdAt(buf[..], OFF_SRC),
                                  Announcing.Announced(neighbors[..numNeigh], me, metric), now)
    requires Fits(peer.adjList, IdAt(buf[..], OFF_SRC), Announcing.Announced(neighbors[..numNeigh], me, metric))
    modifies buf, peer, peer.Repr
    ensures peer.Valid() && !peer.locked && fresh(peer.Repr - old(peer.Repr))
    ensures var src := old(IdAt(buf[..], OFF_SRC));
      && src in peer.adjList
      && Topology.Infos(peer.adjList[src].linklist) == old(Announcing.Announced(neighbors[..numNeigh], me, metric))
      && peer.adjList[src].nodeName == if |name| > 32 then name[..32] else name
    ensures p.Valid() && Source(p) == old(IdAt(buf[..], OFF_SRC)) && Validity(p) == 3 * period
    ensures Links(p) == old(Announcing.Announced(neighbors[..numNeigh], me, metric))
    ensures Topology.FedFrom(old(peer.adjList), peer.adjList, p, now)
    ensures Topology.GraphFed(peer.weigh, old(peer.adjList), peer.adjList, old(peer.Graph()), peer.Graph(), Source(p),
        Links(p))
  {
    hide Topology.RTopology.Valid, Announcing.Announced, Links, NameAfter, Topology.Infos, Value, StrictlyOrdered;
    hide IdAt, Neighbours.SearchesEnd, Topology.GraphFed, Topology.RTopology.Graph;
    hide Topology.RTopology.RoutesExact, Neighbours.Sorted, Topology.SelfPresent, Topology.FedFrom, Topology.StillFits;
    hide Topology.LinkTargets, Topology.Neighbors, Topology.RTopology.AnnouncedBefore;
    var size := Announcing.SendTopo(neighbors, numNeigh, me, metric, name, period, buf);
    var q := Packet(buf[..], size);
    p := q;
    peer.Feed(q, now);
    FedSource(old(peer.adjList), peer.adjList, q, now);
  }

  lemma FedSource(adj: Topology.AdjList, adj': Topology.AdjList, p: Packet, now: int)
    requires p.Valid() && Topology.FedFrom(adj, adj', p, now)
    ensures var src := Source(p); src in adj' && Topology.Infos(adj'[src].linklist) == Links(p)
    ensures exists kept :: adj'[Source(p)].nodeName == NameAfter(p, kept)
  {
    hide Topology.Infos, Links, NameAfter;
  }

  /** A neighbour writes its beacon from its table `theirs`, and the beacon becomes the
      last one stored in entry `i` of `mine`: a link to that neighbour is then announced
      if and only if each end holds the other as a good neighbour. */
  method BeaconThenLink(theirs: array<Neighbours.NodeDescr>, numTheirs: nat, buf: array<byte>,
                        mine: array<Neighbours.NodeDescr>, numMine: nat, i: nat, me: NodeId,
                        ghost metric: Neighbours.NodeDescr -> nat)
    requires numTheirs <= theirs.Length && numTheirs <= Neighbours.MAX_NEIGHBORS && buf.Length == MAX_PACKET
    requires Neighbours.Sorted(theirs[..numTheirs]) && mine != theirs && i < numMine <= mine.Length
    requires Neighbours.Sorted(mine[..numMine]) && Neighbours.HasBeacons(mine[..numMine])
    modifies buf, mine
    ensures mine[..numMine] == old(mine[..numMine])[i := old(mine[i]).(lastBeacon := mine[i].lastBeacon)]
    ensures Neighbours.HasBeacons(mine[..numMine])
    ensures (exists l :: l in Announcing.Announced(mine[..numMine], me, metric) && l.neighbor == mine[i].id) <==>
      mine[i].active && exists j :: 0 <= j < numTheirs && theirs[j].active && theirs[j].id == me
  {
    hide Announcing.Announced, Beacons.IsMpr, Beacons.IsNoMpr, Beacons.Searchable, Beacons.Listed, Announcing.Selected;
    hide Announcing.GoodNeighbour;
    var size := Announcing.SetBeaconNeigh(theirs, numTheirs, buf);
    mine[i] := mine[i].(lastBeacon := Packet(buf[..], size));
    ghost var t, ta := mine[..numMine], theirs[..numTheirs];
    assert t == old(mine[..numMine])[i := mine[i]];
    Announcing.MutuallyGood(t, i, me, metric, ta);
    assert forall j | 0 <= j < numTheirs :: ta[j] == theirs[j];
  }

  // ---------------------------------------------------------------------
  // The ETX metric from two neighbour tables to the weights in a database

  /** EtxMetric::my_get_quality. */
  function EtxOf(d: Neighbours.NodeDescr): nat {
    var n := BeaconHistories.Popcount(d.beaconHist);
    if n <= 32 then BeaconHistories.EtxQuality(n) else 0
  }

  /** The metric of a database is EtxMetric::my_calculate wherever that is defined. */
  ghost predicate UsesEtx(weigh: (nat, nat) -> nat) {
    forall f, b :: BeaconHistories.EtxDefined(f, b) ==> weigh(f, b) == BeaconHistories.EtxWeight(f, b)
  }

  /** `d` is the entry of a good neighbour `id` that lists `me`. */
  predicate ListedGood(d: Neighbours.NodeDescr, me: NodeId, id: NodeId) {
    d.Ok() && d.id == id && d.active && Beacons.Searchable(d.lastBeacon) && me in Beacons.Listed(d.lastBeacon)
  }

  lemma EtxAnnounced(t: seq<Neighbours.NodeDescr>, i: nat, me: NodeId, id: NodeId)
    requires Neighbours.Sorted(t) && Neighbours.HasBeacons(t) && i < |t| && ListedGood(t[i], me, id)
    ensures LinkInfo(id, BeaconHistories.Clamped(EtxOf(t[i]))) in Announcing.Announced(t, me, EtxOf)
  {
    hide Beacons.IsMpr, Beacons.IsNoMpr, Announcing.Announced, Beacons.Listed, Beacons.Searchable, EtxOf;
    hide BeaconHistories.Clamped;
    Announcing.AnnouncedExact(t, me, EtxOf);
    Announcing.SearchableCounts(t[i].lastBeacon);
    Beacons.HasNeighExact(t[i].lastBeacon, me);
    assert Announcing.IsBidiGood(t[i], me);
    assert Announcing.Describes(t, me, EtxOf, Announcing.Info(t[i], EtxOf));
  }

  /** Quality and weight for two histories. */
  lemma EtxWeights(d: Neighbours.NodeDescr, e: Neighbours.NodeDescr, weigh: (nat, nat) -> nat)
    requires d.Ok() && e.Ok() && UsesEtx(weigh)
    ensures var a, b := BeaconHistories.Popcount(d.beaconHist), BeaconHistories.Popcount(e.beaconHist);
      && 1 <= a <= 32 && 1 <= b <= 32 && a * b > 0
      && weigh(BeaconHistories.Clamped(EtxOf(d)), BeaconHistories.Clamped(EtxOf(e))) == 2097152 / (a * b) < 0x3F_FFFF
  {
    hide BeaconHistories.Popcount, BeaconHistories.Clamped, BeaconHistories.EtxQuality;
    var a, b := BeaconHistories.Popcount(d.beaconHist), BeaconHistories.Popcount(e.beaconHist);
    BeaconHistories.PowerValues();
    BeaconHistories.PopcountRange(d.beaconHist, 32);
    BeaconHistories.PopcountRange(e.beaconHist, 32);
    BeaconHistories.EtxExact(a, b);
    BeaconHistories.ProductRange(a, b);
  }

  /** A node that announces its links under the ETX metric. */
  datatype Station = Station(neighbors: array<Neighbours.NodeDescr>, numNeigh: nat, id: NodeId, name: seq<byte>,
                             period: nat, buf: array<byte>)
  {
    predicate Ready()
      reads neighbors, buf
    {
      && numNeigh <= neighbors.Length && numNeigh <= Neighbours.MAX_NEIGHBORS && buf.Length == MAX_PACKET
      && Neighbours.Sorted(neighbors[..numNeigh]) && Neighbours.SearchesEnd(neighbors[..numNeigh], id)
      && 0 !in name && 0 < 3 * period < 0x1_0000_0000 && IdAt(buf[..], OFF_SRC) == id
    }

    function Announced(): seq<LinkInfo>
      requires Ready()
      reads neighbors, buf
    {
      Announcing.Announced(neighbors[..numNeigh], id, EtxOf)
    }
  }

  /** A quality in the announced list is that of the stored link. */
  lemma StoredQuality(adj: Topology.AdjList, a: NodeId, b: NodeId, q: nat)
    requires a in adj && Topology.Sorted(adj[a].linklist) && LinkInfo(b, q) in Topology.Infos(adj[a].linklist)
    ensures Topology.Stored(adj, a, b) != null && Topology.Stored(adj, a, b).quality == q
  {
    var ll := adj[a].linklist;
    var k :| 0 <= k < |ll| && Topology.Infos(ll)[k] == LinkInfo(b, q);
    Topology.FindStored(ll, ll[k]);
  }

  lemma StoredSorted(peer: Topology.RTopology, a: NodeId)
    requires peer.Valid() && a in peer.adjList
    ensures Topology.Sorted(peer.adjList[a].linklist)
  {
  }

  lemma StillLinked(adj: Topology.AdjList, adj': Topology.AdjList, p: Packet, now: int, a: NodeId)
    requires p.Valid() && Topology.FedFrom(adj, adj', p, now) && a in adj && a != Source(p)
    requires adj[a].edgeValidity > now && adj[a].nodeValidity > now
    ensures a in adj' && adj'[a].linklist == adj[a].linklist
  {
    hide Topology.Infos, NameAfter, Links, Source, Validity, Topology.ValidFed, Topology.LinkTargets;
    hide Topology.Neighbors;
  }

  /** Node `b` announces its link to `a` to a database that has the opposite link from
      `a`, whose entry of `b` was `d`: both directions weigh floor(2^21 / (m * n)),
      where `m` and `n` are the numbers of beacons counted in the two histories. */
  method AnnounceBack(b: Station, j: nat, now: int, peer: Topology.RTopology, ghost a: NodeId,
                      ghost d: Neighbours.NodeDescr)
    requires b.Ready() && a != b.id && j < b.numNeigh && ListedGood(b.neighbors[j], b.id, a) && d.Ok()
    requires peer.Valid() && !peer.locked && UsesEtx(peer.weigh) && a in peer.adjList
    requires peer.adjList[a].edgeValidity > now && peer.adjList[a].nodeValidity > now
    requires LinkInfo(b.id, BeaconHistories.Clamped(EtxOf(d))) in Topology.Infos(peer.adjList[a].linklist)
    requires Topology.SelfPresent(peer.adjList, peer.me, b.id, b.Announced(), now)
    requires Fits(peer.adjList, b.id, b.Announced())
    modifies b.buf, peer, peer.Repr
    ensures peer.Valid() && fresh(peer.Repr - old(peer.Repr))
    ensures BothWeigh(peer.Graph(), a, b.id, BeaconHistories.Popcount(d.beaconHist),
      BeaconHistories.Popcount(b.neighbors[j].beaconHist))
  {
    hide *;
    StationSize(b);
    ghost var links, e := b.Announced(), b.neighbors[j];
    ghost var adj, g, q := peer.adjList, peer.Graph(), BeaconHistories.Clamped(EtxOf(d));
    ghost var r := BeaconHistories.Clamped(EtxOf(e));
    peer.GraphRows();
    StoredSorted(peer, a);
    StoredQuality(adj, a, b.id, q);
    StationAnnounces(b, j, a);
    GoodOk(e, b.id, a);
    ghost var p := Announce(b, now, peer);
    StillLinked(adj, peer.adjList, p, now, a);
    EtxWeights(e, d, peer.weigh);
    Topology.PairWeights(peer.weigh, adj, peer.adjList, g, peer.Graph(), b.id, links, LinkInfo(a, r));
    Commuted(peer.Graph(), a, b.id, BeaconHistories.Popcount(d.beaconHist), BeaconHistories.Popcount(e.beaconHist));
  }

  lemma StationSize(b: Station)
    requires b.Ready()
    ensures b.numNeigh <= b.neighbors.Length
  {
  }

  /** The links between `a` and `b` weigh floor(2^21 / (m * n)) in both directions. */
  ghost predicate BothWeigh(g: Graphs.Graph, a: NodeId, b: NodeId, m: nat, n: nat) {
    && m * n > 0
    && a in g && b in g[a] && g[a][b] == 2097152 / (m * n)
    && b in g && a in g[b] && g[b][a] == 2097152 / (m * n)
  }

  lemma Commuted(g: Graphs.Graph, a: NodeId, b: NodeId, m: nat, n: nat)
    requires n * m > 0 && a in g && b in g[a] && b in g && a in g[b] && g[a][b] == g[b][a] == 2097152 / (n * m)
    ensures BothWeigh(g, a, b, m, n)
  {
    assert n * m == m * n;
  }

  lemma StationAnnounces(b: Station, j: nat, a: NodeId)
    requires b.Ready() && j < b.numNeigh && ListedGood(b.neighbors[j], b.id, a)
    ensures LinkInfo(a, BeaconHistories.Clamped(EtxOf(b.neighbors[j]))) in b.Announced()
  {
    hide Neighbours.Sorted, Announcing.Announced, ListedGood, EtxOf, BeaconHistories.Clamped, IdAt, Beacons.Ends;
    EtxAnnounced(b.neighbors[..b.numNeigh], j, b.id, a);
  }

  /** AnnounceAndFeed for a station. */
  method Announce(b: Station, now: int, peer: Topology.RTopology) returns (ghost p: Packet)
    requires b.Ready() && peer.Valid() && !peer.locked
    requires Topology.SelfPresent(peer.adjList, peer.me, b.id, b.Announced(), now)
    requires Fits(peer.adjList, b.id, b.Announced())
    modifies b.buf, peer, peer.Repr
    ensures peer.Valid() && !peer.locked && fresh(peer.Repr - old(peer.Repr))
    ensures p.Valid() && Source(p) == b.id && Validity(p) == 3 * b.period && Links(p) == old(b.Announced())
    ensures b.id in peer.adjList && Topology.Infos(peer.adjList[b.id].linklist) == old(b.Announced())
    ensures Topology.FedFrom(old(peer.adjList), peer.adjList, p, now)
    ensures Topology.GraphFed(peer.weigh, old(peer.adjList), peer.adjList, old(peer.Graph()), peer.Graph(), b.id,
        old(b.Announced()))
  {
    hide Topology.RTopology.Valid, Announcing.Announced, Links, NameAfter, Topology.Infos, Value, IdAt, EtxOf;
    hide Neighbours.SearchesEnd, Neighbours.Sorted, Topology.SelfPresent, Topology.GraphFed, Topology.FedFrom, Fits;
    hide Topology.RTopology.Graph;
    p := AnnounceAndFeed(b.neighbors, b.numNeigh, b.id, EtxOf, b.name, b.period, b.buf, peer, now);
  }

  /** Nodes known to a database and named by the lists of `a` and `b`. */
  ghost function Around(adj: Topology.AdjList, a: NodeId, b: NodeId, la: seq<LinkInfo>, lb: seq<LinkInfo>): set<NodeId>
  {
    adj.Keys + {a, b} + Topology.LinkTargets(la) + Topology.LinkTargets(lb) + Named(adj, a) + Named(adj, b)
  }

  /** Both ends of a link announce it to a third node: there both directions weigh
      floor(2^21 / (m * n)), where `m` and `n` are the numbers of beacons counted in
      the histories that the two ends keep of each other. */
  method BothAnnounce(a: Station, i: nat, at: int, b: Station, j: nat, later: int, peer: Topology.RTopology)
    requires a.Ready() && b.Ready() && a.id != b.id && a.buf != b.buf && i < a.numNeigh && j < b.numNeigh
    requires ListedGood(a.neighbors[i], a.id, b.id) && ListedGood(b.neighbors[j], b.id, a.id)
    requires peer.Valid() && !peer.locked && UsesEtx(peer.weigh) && later < at + 3 * a.period
    requires peer.me in peer.adjList && peer.adjList[peer.me].nodeValidity > at
    requires peer.adjList[peer.me].nodeValidity > later
    requires |Around(peer.adjList, a.id, b.id, a.Announced(), b.Announced())| <= Topology.MAX_NODES
    modifies a.buf, b.buf, peer, peer.Repr
    ensures peer.Valid()
    ensures BothWeigh(peer.Graph(), a.id, b.id, BeaconHistories.Popcount(a.neighbors[i].beaconHist),
      BeaconHistories.Popcount(b.neighbors[j].beaconHist))
  {
    hide Topology.RTopology.Valid, Announcing.Announced, Links, Topology.Infos, Value, IdAt, EtxOf;
    hide Topology.SelfPresent;
    hide Neighbours.SearchesEnd, Neighbours.Sorted, Topology.GraphFed, Topology.FedFrom, Fits, ListedGood, Around;
    hide Topology.RTopology.Graph, UsesEtx, BothWeigh, BeaconHistories.Clamped;
    ghost var adj, me, la, lb := peer.adjList, peer.me, a.Announced(), b.Announced();
    FirstFits(adj, me, a.id, b.id, la, lb, at);
    StationAnnounces(a, i, b.id);
    ghost var p := Announce(a, at, peer);
    SecondFits(adj, peer.adjList, p, at, me, a.id, b.id, la, lb, later);
    GoodOk(a.neighbors[i], a.id, b.id);
    AnnounceBack(b, j, later, peer, a.id, a.neighbors[i]);
  }

  lemma GoodOk(d: Neighbours.NodeDescr, me: NodeId, id: NodeId)
    requires ListedGood(d, me, id)
    ensures d.Ok()
  {
  }

  lemma FirstFits(adj: Topology.AdjList, me: NodeId, a: NodeId, b: NodeId, la: seq<LinkInfo>, lb: seq<LinkInfo>,
                  at: int)
    requires me in adj && adj[me].nodeValidity > at && |Around(adj, a, b, la, lb)| <= Topology.MAX_NODES
    ensures Fits(adj, a, la) && Topology.SelfPresent(adj, me, a, la, at)
  {
    hide Topology.LinkTargets, Topology.Neighbors;
    Sets.SubsetSize(adj.Keys + {a} + Topology.LinkTargets(la) + Named(adj, a), Around(adj, a, b, la, lb));
  }

  lemma SecondFits(adj: Topology.AdjList, adj1: Topology.AdjList, p: Packet, at: int, me: NodeId, a: NodeId, b: NodeId,
                   la: seq<LinkInfo>, lb: seq<LinkInfo>, later: int)
    requires p.Valid() && Topology.FedFrom(adj, adj1, p, at) && Source(p) == a && Links(p) == la && a != b
    requires me in adj && adj[me].nodeValidity > at && adj[me].nodeValidity > later && later < at + Validity(p)
    requires |Around(adj, a, b, la, lb)| <= Topology.MAX_NODES
    ensures Fits(adj1, b, lb) && Topology.SelfPresent(adj1, me, b, lb, later)
    ensures a in adj1 && adj1[a].edgeValidity > later && adj1[a].nodeValidity > later
  {
    hide Topology.LinkTargets, Topology.Neighbors, Links, Source, Validity, NameAfter, Topology.Infos, Around, Fits;
    SecondAround(adj, adj1, p, at, a, b, la, lb);
  }

  lemma SecondAround(adj: Topology.AdjList, adj1: Topology.AdjList, p: Packet, at: int, a: NodeId, b: NodeId,
                     la: seq<LinkInfo>, lb: seq<LinkInfo>)
    requires p.Valid() && Topology.FedFrom(adj, adj1, p, at) && Source(p) == a && Links(p) == la && a != b
    requires |Around(adj, a, b, la, lb)| <= Topology.MAX_NODES
    ensures Fits(adj1, b, lb)
  {
    hide Topology.LinkTargets, Named, Topology.FedFrom;
    FedKeys(adj, adj1, p, at, b);
    FewerNodes(adj.Keys, adj1.Keys, a, b, Topology.LinkTargets(la), Topology.LinkTargets(lb), Named(adj, a),
      Named(adj, b), Named(adj1, b));
  }

  lemma FewerNodes(k: set<NodeId>, k1: set<NodeId>, a: NodeId, b: NodeId, ta: set<NodeId>, tb: set<NodeId>,
                   na: set<NodeId>, nb: set<NodeId>, nb1: set<NodeId>)
    requires k1 <= k + {a} + ta + na && nb1 <= nb
    ensures |k1 + {b} + tb + nb1| <= |k + {a, b} + ta + tb + na + nb|
  {
    Sets.SubsetSize(k1 + {b} + tb + nb1, k + {a, b} + ta + tb + na + nb);
  }

  lemma FedKeys(adj: Topology.AdjList, adj1: Topology.AdjList, p: Packet, at: int, b: NodeId)
    requires p.Valid() && Topology.FedFrom(adj, adj1, p, at) && Source(p) != b
    ensures adj1.Keys <= adj.Keys + {Source(p)} + Topology.LinkTargets(Links(p)) + Named(adj, Source(p))
    ensures Named(adj1, b) <= Named(adj, b)
  {
    hide Topology.LinkTargets, Topology.Neighbors, Links, Source, Validity, NameAfter, Topology.Infos;
    hide Topology.ValidFed;
    Topology.NoNeighbors();
  }
}
