/** Weighted graphs, walks and distances: the reference the routing core is
    measured against. */
module Graphs {
  import opened Bytes

  /** The links a node stores, by neighbour, with their weights. */
  type Graph = map<NodeId, map<NodeId, nat>>

  /** A link counts for routing only when its end point is a known node
      (src/Topology.cc:707-708). */
  predicate Edge(g: Graph, u: NodeId, v: NodeId) {
    u in g && v in g && v in g[u]
  }

  function Weight(g: Graph, u: NodeId, v: NodeId): nat
    requires Edge(g, u, v)
  {
    g[u][v]
  }

  ghost predicate WeightsWithin(g: Graph, max: nat) {
    forall u, v | Edge(g, u, v) :: 1 <= Weight(g, u, v) <= max
  }

  ghost predicate Positive(g: Graph) {
    forall u, v | Edge(g, u, v) :: Weight(g, u, v) > 0
  }

  ghost predicate Walk(g: Graph, p: seq<NodeId>, s: NodeId, t: NodeId) {
    && |p| > 0 && p[0] == s && p[|p| - 1] == t && s in g
    && forall i | 0 < i < |p| :: Edge(g, p[i - 1], p[i])
  }

  ghost function Length(g: Graph, p: seq<NodeId>): nat
    requires |p| > 0
    requires forall i | 0 < i < |p| :: Edge(g, p[i - 1], p[i])
  {
    if |p| == 1 then 0
    else Length(g, p[..|p| - 1]) + Weight(g, p[|p| - 2], p[|p| - 1])
  }

  ghost predicate Reachable(g: Graph, s: NodeId, t: NodeId) {
    exists p :: Walk(g, p, s, t)
  }

  /** `d` is the least length of a walk from `s` to `t`. */
  ghost predicate IsDistance(g: Graph, s: NodeId, t: NodeId, d: nat) {
    && (exists p :: Walk(g, p, s, t) && Length(g, p) == d)
    && (forall p | Walk(g, p, s, t) :: d <= Length(g, p))
  }

  lemma ExtendWalk(g: Graph, p: seq<NodeId>, s: NodeId, u: NodeId, v: NodeId)
    requires Walk(g, p, s, u) && Edge(g, u, v)
    ensures Walk(g, p + [v], s, v)
    ensures Length(g, p + [v]) == Length(g, p) + Weight(g, u, v)
  {
    var q := p + [v];
    assert q[..|q| - 1] == p;
    assert forall i | 0 < i < |q| :: Edge(g, q[i - 1], q[i]);
  }

  lemma {:induction false} PrependWalk(g: Graph, s: NodeId, h: NodeId, p: seq<NodeId>, t: NodeId)
    requires Edge(g, s, h) && Walk(g, p, h, t)
    ensures Walk(g, [s] + p, s, t)
    ensures Length(g, [s] + p) == Weight(g, s, h) + Length(g, p)
    decreases |p|
  {
    var q := [s] + p;
    assert forall i | 0 < i < |q| :: Edge(g, q[i - 1], q[i]);
    if |p| == 1 {
      assert q[..1] == [s];
    } else {
      PrependWalk(g, s, h, p[..|p| - 1], p[|p| - 2]);
      assert q[..|q| - 1] == [s] + p[..|p| - 1];
    }
  }

  lemma DistanceUnique(g: Graph, s: NodeId, t: NodeId, d: nat, e: nat)
    requires IsDistance(g, s, t, d) && IsDistance(g, s, t, e)
    ensures d == e
  {
  }

  /** A reached node hangs off its predecessor. */
  ghost predicate Hangs(g: Graph, s: NodeId, dist: map<NodeId, nat>, prev: map<NodeId, NodeId>, inf: nat, v: NodeId)
    requires dist.Keys == g.Keys && prev.Keys == g.Keys && v in g
  {
    v != s && dist[v] < inf ==>
      && Edge(g, prev[v], v) && dist[prev[v]] < inf
      && dist[v] == dist[prev[v]] + Weight(g, prev[v], v)
  }

  /** What `calcRoutes` leaves in `distance` and `prevHop`: `inf` marks the
      nodes that were never reached, every other node hangs off its `prevHop`,
      and no link can shorten a distance any more. */
  ghost predicate ShortestPathTree(g: Graph, s: NodeId, dist: map<NodeId, nat>, prev: map<NodeId, NodeId>, inf: nat) {
    && dist.Keys == g.Keys && prev.Keys == g.Keys && s in g && 0 < inf
    && dist[s] == 0
    && (forall v | v in g :: dist[v] <= inf)
    && (forall v {:trigger Hangs(g, s, dist, prev, inf, v)} | v in g :: Hangs(g, s, dist, prev, inf, v))
    && (forall u, v | Edge(g, u, v) && dist[u] < inf ::
          dist[v] < inf && dist[v] <= dist[u] + Weight(g, u, v))
  }

  lemma {:induction false} TreeWalk(g: Graph, s: NodeId, dist: map<NodeId, nat>, prev: map<NodeId, NodeId>, inf: nat,
                                    v: NodeId)
    returns (p: seq<NodeId>)
    requires ShortestPathTree(g, s, dist, prev, inf) && Positive(g)
    requires v in g && dist[v] < inf
    ensures Walk(g, p, s, v) && Length(g, p) == dist[v]
    decreases dist[v]
  {
    assert Hangs(g, s, dist, prev, inf, v);
    if v == s {
      p := [s];
    } else {
      var u := prev[v];
      var q := TreeWalk(g, s, dist, prev, inf, u);
      ExtendWalk(g, q, s, u, v);
      p := q + [v];
    }
  }

  lemma {:induction false} NoShorterWalk(g: Graph, s: NodeId, dist: map<NodeId, nat>, prev: map<NodeId, NodeId>,
                                         inf: nat, p: seq<NodeId>, v: NodeId)
    requires ShortestPathTree(g, s, dist, prev, inf)
    requires Walk(g, p, s, v)
    ensures v in g && dist[v] < inf && dist[v] <= Length(g, p)
    decreases |p|
  {
    if |p| > 1 {
      var u := p[|p| - 2];
      NoShorterWalk(g, s, dist, prev, inf, p[..|p| - 1], u);
      assert Edge(g, u, v);
    }
  }

  /** The distances of a finished computation are exact, and the infinity
      value stands for exactly the unreachable nodes. */
  lemma DistancesExact(g: Graph, s: NodeId, dist: map<NodeId, nat>, prev: map<NodeId, NodeId>, inf: nat, v: NodeId)
    requires ShortestPathTree(g, s, dist, prev, inf) && Positive(g) && v in g
    ensures dist[v] < inf ==> IsDistance(g, s, v, dist[v])
    ensures dist[v] == inf <==> !Reachable(g, s, v)
  {
    forall p | Walk(g, p, s, v)
      ensures dist[v] < inf && dist[v] <= Length(g, p)
    {
      NoShorterWalk(g, s, dist, prev, inf, p, v);
    }
    if dist[v] < inf {
      var p := TreeWalk(g, s, dist, prev, inf, v);
    }
  }

  /** The first hop of the tree walk to `v`: the plain recursion behind the
      memoised `calcNextHop`. */
  ghost function FirstHop(g: Graph, s: NodeId, dist: map<NodeId, nat>, prev: map<NodeId, NodeId>, inf: nat,
                          v: NodeId): NodeId
    requires ShortestPathTree(g, s, dist, prev, inf) && Positive(g) && v in g
    decreases dist[v]
  {
    assert Hangs(g, s, dist, prev, inf, v);
    if dist[v] == inf || v == s then s
    else if prev[v] == s then v
    else FirstHop(g, s, dist, prev, inf, prev[v])
  }

  /** `h` is a direct neighbour of `s` from which the rest of a shortest path
      to `t` continues. */
  ghost predicate StartsShortestPath(g: Graph, s: NodeId, h: NodeId, t: NodeId) {
    && Edge(g, s, h)
    && exists d: nat :: IsDistance(g, h, t, d) && IsDistance(g, s, t, Weight(g, s, h) + d)
  }

  /** The next hop to `v` in a correctly routed node `me`: itself when there is
      nowhere to go, else the start of a shortest path. */
  ghost predicate CorrectHop(g: Graph, me: NodeId, h: NodeId, v: NodeId) {
    if v == me || !Reachable(g, me, v) then h == me else h != me && StartsShortestPath(g, me, h, v)
  }

  ghost predicate CorrectNextHops(g: Graph, me: NodeId, nh: map<NodeId, NodeId>) {
    && nh.Keys == g.Keys
    && forall v {:trigger CorrectHop(g, me, nh[v], v)} | v in g :: CorrectHop(g, me, nh[v], v)
  }

  lemma {:induction false} FirstHopTail(g: Graph, s: NodeId, dist: map<NodeId, nat>, prev: map<NodeId, NodeId>,
                                        inf: nat, v: NodeId)
    returns (p: seq<NodeId>)
    requires ShortestPathTree(g, s, dist, prev, inf) && Positive(g)
    requires v in g && v != s && dist[v] < inf
    ensures var h := FirstHop(g, s, dist, prev, inf, v);
      && h != s && Edge(g, s, h) && Walk(g, p, h, v)
      && dist[v] == Weight(g, s, h) + Length(g, p)
    decreases dist[v]
  {
    assert Hangs(g, s, dist, prev, inf, v);
    var h := FirstHop(g, s, dist, prev, inf, v);
    var u := prev[v];
    if u == s {
      p := [v];
    } else {
      var q := FirstHopTail(g, s, dist, prev, inf, u);
      ExtendWalk(g, q, h, u, v);
      p := q + [v];
    }
  }

  lemma FirstHopCorrect(g: Graph, s: NodeId, dist: map<NodeId, nat>, prev: map<NodeId, NodeId>, inf: nat, v: NodeId)
    requires ShortestPathTree(g, s, dist, prev, inf) && Positive(g) && v in g
    ensures CorrectHop(g, s, FirstHop(g, s, dist, prev, inf, v), v)
  {
    DistancesExact(g, s, dist, prev, inf, v);
    if v != s && dist[v] < inf {
      var h := FirstHop(g, s, dist, prev, inf, v);
      var p := FirstHopTail(g, s, dist, prev, inf, v);
      var d := Length(g, p);
      forall q | Walk(g, q, h, v)
        ensures d <= Length(g, q)
      {
        PrependWalk(g, s, h, q, v);
        NoShorterWalk(g, s, dist, prev, inf, [s] + q, v);
      }
      assert IsDistance(g, h, v, d);
      assert IsDistance(g, s, v, Weight(g, s, h) + d);
    }
  }

  // ---------------------------------------------------------------------
  // Routes when weights change

  /** Distances, predecessors and next hops of a finished computation. */
  ghost predicate Routed(g: Graph, s: NodeId, dist: map<NodeId, nat>, prev: map<NodeId, NodeId>, inf: nat,
                         nh: map<NodeId, NodeId>)
  {
    && ShortestPathTree(g, s, dist, prev, inf) && Positive(g) && nh.Keys == g.Keys
    && forall v | v in g :: nh[v] == FirstHop(g, s, dist, prev, inf, v)
  }

  lemma RoutedCorrect(g: Graph, s: NodeId, dist: map<NodeId, nat>, prev: map<NodeId, NodeId>, inf: nat,
                      nh: map<NodeId, NodeId>)
    requires Routed(g, s, dist, prev, inf, nh)
    ensures CorrectNextHops(g, s, nh)
  {
    hide FirstHop, ShortestPathTree, Positive, CorrectHop;
    forall v | v in g ensures CorrectHop(g, s, nh[v], v) { FirstHopCorrect(g, s, dist, prev, inf, v); }
  }

  /** A link u->v of weight `w` agrees with the stored distances. */
  ghost predicate EdgeFits(s: NodeId, dist: map<NodeId, nat>, prev: map<NodeId, NodeId>, inf: nat, u: NodeId,
                           v: NodeId, w: nat)
    requires u in dist && v in dist && v in prev
  {
    dist[u] < inf ==>
      && dist[v] <= dist[u] + w
      && (v != s && prev[v] == u ==> dist[v] == dist[u] + w)
  }

  ghost predicate TouchedFit(g: Graph, s: NodeId, dist: map<NodeId, nat>, prev: map<NodeId, NodeId>, inf: nat,
                             touched: set<(NodeId, NodeId)>)
    requires dist.Keys == g.Keys && prev.Keys == g.Keys
  {
    forall u: NodeId, v: NodeId | (u, v) in touched && Edge(g, u, v) ::
      EdgeFits(s, dist, prev, inf, u, v, Weight(g, u, v))
  }

  ghost predicate SameEdges(g: Graph, g': Graph) {
    g'.Keys == g.Keys && forall u, v :: Edge(g, u, v) <==> Edge(g', u, v)
  }

  /** After new weights on some links, the old distances are exact if and only if
      the reweighed links agree with them. */
  lemma TreeSurvives(g: Graph, g': Graph, s: NodeId, dist: map<NodeId, nat>, prev: map<NodeId, NodeId>, inf: nat,
                     touched: set<(NodeId, NodeId)>)
    requires ShortestPathTree(g, s, dist, prev, inf) && SameEdges(g, g')
    requires forall u: NodeId, v: NodeId | Edge(g, u, v) && (u, v) !in touched :: Weight(g', u, v) == Weight(g, u, v)
    ensures ShortestPathTree(g', s, dist, prev, inf) <==>
      TouchedFit(g', s, dist, prev, inf, touched)
  {
    if ShortestPathTree(g', s, dist, prev, inf) {
      forall u: NodeId, v: NodeId | (u, v) in touched && Edge(g', u, v)
        ensures EdgeFits(s, dist, prev, inf, u, v, Weight(g', u, v))
      {
        assert Hangs(g', s, dist, prev, inf, v);
      }
    }
    if TouchedFit(g', s, dist, prev, inf, touched) {
      forall v | v in g' ensures Hangs(g', s, dist, prev, inf, v) { assert Hangs(g, s, dist, prev, inf, v); }
      forall u, v | Edge(g', u, v) && dist[u] < inf
        ensures dist[v] < inf && dist[v] <= dist[u] + Weight(g', u, v)
      {
        assert Edge(g, u, v);
      }
    }
  }

  lemma {:induction false} FirstHopSame(g: Graph, g': Graph, s: NodeId, dist: map<NodeId, nat>,
                                        prev: map<NodeId, NodeId>, inf: nat, v: NodeId)
    requires ShortestPathTree(g, s, dist, prev, inf) && Positive(g) && v in g
    requires ShortestPathTree(g', s, dist, prev, inf) && Positive(g')
    ensures FirstHop(g', s, dist, prev, inf, v) == FirstHop(g, s, dist, prev, inf, v)
    decreases dist[v]
  {
    assert Hangs(g, s, dist, prev, inf, v);
    if dist[v] != inf && v != s && prev[v] != s { FirstHopSame(g, g', s, dist, prev, inf, prev[v]); }
  }

  lemma RoutedSurvives(g: Graph, g': Graph, s: NodeId, dist: map<NodeId, nat>, prev: map<NodeId, NodeId>, inf: nat,
                       nh: map<NodeId, NodeId>, touched: set<(NodeId, NodeId)>)
    requires Routed(g, s, dist, prev, inf, nh) && SameEdges(g, g') && Positive(g')
    requires forall u: NodeId, v: NodeId | Edge(g, u, v) && (u, v) !in touched :: Weight(g', u, v) == Weight(g, u, v)
    ensures Routed(g', s, dist, prev, inf, nh) <==>
      TouchedFit(g', s, dist, prev, inf, touched)
  {
    hide FirstHop, EdgeFits, Positive;
    TreeSurvives(g, g', s, dist, prev, inf, touched);
    if ShortestPathTree(g', s, dist, prev, inf) {
      forall v | v in g' ensures nh[v] == FirstHop(g', s, dist, prev, inf, v) {
        FirstHopSame(g, g', s, dist, prev, inf, v);
      }
    }
  }

  /** A node whose predecessor and next hop are 0 has an exact route only where a
      node is called 0, whatever its distance. */
  lemma BlankRoute(g: Graph, s: NodeId, dist: map<NodeId, nat>, prev: map<NodeId, NodeId>, inf: nat,
                   nh: map<NodeId, NodeId>, v: NodeId)
    requires Routed(g, s, dist, prev, inf, nh) && v in g && v != s && prev[v] == 0 && nh[v] == 0
    ensures 0 in g
  {
    assert Hangs(g, s, dist, prev, inf, v);
    assert nh[v] == FirstHop(g, s, dist, prev, inf, v);
  }

  // ---------------------------------------------------------------------
  // Routes when links and nodes go

  function Restrict<V>(m: map<NodeId, V>, keys: set<NodeId>): map<NodeId, V> {
    map k | k in m && k in keys :: m[k]
  }

  /** Nodes and whole rows of links are gone. */
  ghost predicate PrunedTo(g: Graph, g': Graph) {
    g'.Keys <= g.Keys && forall a | a in g' :: g'[a] == g[a] || g'[a] == map[]
  }

  /** The links of the tree to the nodes that remain are still there. */
  ghost predicate TreeKept(g: Graph, s: NodeId, dist: map<NodeId, nat>, prev: map<NodeId, NodeId>, inf: nat)
    requires g.Keys <= dist.Keys && g.Keys <= prev.Keys
  {
    s in g && forall v | v in g && v != s && dist[v] < inf :: Edge(g, prev[v], v)
  }

  lemma {:induction false} FirstHopPruned(g: Graph, g': Graph, s: NodeId, dist: map<NodeId, nat>,
                                          prev: map<NodeId, NodeId>, inf: nat, v: NodeId)
    requires ShortestPathTree(g, s, dist, prev, inf) && Positive(g) && v in g'
    requires ShortestPathTree(g', s, Restrict(dist, g'.Keys), Restrict(prev, g'.Keys), inf) && Positive(g')
    requires g'.Keys <= g.Keys
    ensures FirstHop(g', s, Restrict(dist, g'.Keys), Restrict(prev, g'.Keys), inf, v) ==
      FirstHop(g, s, dist, prev, inf, v)
    decreases dist[v]
  {
    var dist', prev' := Restrict(dist, g'.Keys), Restrict(prev, g'.Keys);
    assert Hangs(g', s, dist', prev', inf, v) && Hangs(g, s, dist, prev, inf, v);
    if dist[v] != inf && v != s && prev[v] != s { FirstHopPruned(g, g', s, dist, prev, inf, prev[v]); }
  }

  lemma PrunedTree(g: Graph, g': Graph, s: NodeId, dist: map<NodeId, nat>, prev: map<NodeId, NodeId>, inf: nat)
    requires ShortestPathTree(g, s, dist, prev, inf) && PrunedTo(g, g')
    ensures ShortestPathTree(g', s, Restrict(dist, g'.Keys), Restrict(prev, g'.Keys), inf) <==>
      TreeKept(g', s, dist, prev, inf)
  {
    var dist', prev' := Restrict(dist, g'.Keys), Restrict(prev, g'.Keys);
    if ShortestPathTree(g', s, dist', prev', inf) {
      forall v | v in g' && v != s && dist[v] < inf ensures Edge(g', prev[v], v) {
        assert Hangs(g', s, dist', prev', inf, v);
      }
    }
    if TreeKept(g', s, dist, prev, inf) {
      forall v | v in g' ensures Hangs(g', s, dist', prev', inf, v) { assert Hangs(g, s, dist, prev, inf, v); }
      forall u, v | Edge(g', u, v) && dist'[u] < inf
        ensures dist'[v] < inf && dist'[v] <= dist'[u] + Weight(g', u, v)
      {
        assert Edge(g, u, v);
      }
    }
  }

  /** Exact routes outlive the loss of nodes and links if and only if every link of
      the tree to a remaining node remains. */
  lemma PrunedRoutes(g: Graph, g': Graph, s: NodeId, dist: map<NodeId, nat>, prev: map<NodeId, NodeId>, inf: nat,
                     nh: map<NodeId, NodeId>)
    requires Routed(g, s, dist, prev, inf, nh) && PrunedTo(g, g')
    ensures Routed(g', s, Restrict(dist, g'.Keys), Restrict(prev, g'.Keys), inf, Restrict(nh, g'.Keys)) <==>
      TreeKept(g', s, dist, prev, inf)
  {
    hide FirstHop, ShortestPathTree, TreeKept;
    PrunedTree(g, g', s, dist, prev, inf) by { assert ShortestPathTree(g, s, dist, prev, inf); }
    forall u, v | Edge(g', u, v) ensures Weight(g', u, v) > 0 { assert Edge(g, u, v); }
    var dist', prev' := Restrict(dist, g'.Keys), Restrict(prev, g'.Keys);
    if ShortestPathTree(g', s, dist', prev', inf) {
      forall v | v in g' ensures Restrict(nh, g'.Keys)[v] == FirstHop(g', s, dist', prev', inf, v) {
        FirstHopPruned(g, g', s, dist, prev, inf, v);
      }
    }
  }
}
