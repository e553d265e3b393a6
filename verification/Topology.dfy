/** The topology database of a node (src/awds/Topology.h, src/Topology.cc,
    src/awds/Metric.h): link lists with mutual counterpart pointers, merging of
    topology packets, expiry, Dijkstra and next hops. Times are milliseconds. */
module Topology {
  import opened Bytes
  import opened Graphs
  import opened TopoPackets
  import opened RoutingTables
  import opened Sets

  const UINT_MAX: nat := 0xFFFF_FFFF
  /** Weights are clamped so that 1024 of them still fit (src/awds/Metric.h:87). */
  const MAX_WEIGHT: nat := 0x3F_FFFF
  const MAX_NODES: nat := 1024

  ghost function Opt(l: LinkQuality?): set<LinkQuality> {
    if l == null then {} else {l}
  }

  /** The weight Metric::calculate finds for link `l` with counterpart `m`; `weigh`
      is the metric's own formula (src/awds/Metric.h:80-91). */
  function Price(weigh: (nat, nat) -> nat, quality: nat, back: Option<nat>): (w: nat)
    ensures w <= MAX_WEIGHT
  {
    if back.None? then MAX_WEIGHT else Lesser(weigh(quality, back.value), MAX_WEIGHT)
  }

  function Lesser(a: nat, b: nat): nat { if a < b then a else b }

  datatype Option<T> = None | Some(value: T)

  /** The quality of a link, if there is one. */
  ghost function QualityOf(l: LinkQuality?): Option<nat> {
    if l == null then None else Some(l.quality)
  }

  /** A stored link. `neighbor` and `quality` are written once, when the entry
      is created from a packet; `owner` is the node whose list holds it. */
  class LinkQuality {
    const neighbor: NodeId
    const quality: nat
    ghost const owner: NodeId
    var counterpart: LinkQuality?
    var metricWeight: nat

    constructor (ghost owner: NodeId, neighbor: NodeId, quality: nat)
      ensures this.owner == owner && this.neighbor == neighbor && this.quality == quality
      ensures counterpart == null && metricWeight == 0
    {
      this.owner, this.neighbor, this.quality := owner, neighbor, quality;
      counterpart, metricWeight := null, 0;
    }

    method RemoveReference()
      modifies this`counterpart, Opt(counterpart)`counterpart
      ensures counterpart == null
      ensures old(counterpart) != null ==> old(counterpart).counterpart == null
    {
      if counterpart != null {
        counterpart.counterpart := null;
        counterpart := null;
      }
    }

    method SetCounterpart(lq: LinkQuality?)
      modifies this`counterpart, Opt(lq)`counterpart
      ensures counterpart == lq
      ensures lq != null ==> lq.counterpart == this
    {
      if lq != null {
        lq.counterpart := this;
      }
      counterpart := lq;
    }

    method SetMetricWeight(mw: nat)
      modifies this`metricWeight, Opt(counterpart)`metricWeight
      ensures metricWeight == mw
      ensures counterpart != null ==> counterpart.metricWeight == mw
    {
      metricWeight := mw;
      if counterpart != null {
        counterpart.metricWeight := mw;
      }
    }

    /** Metric::calculate with `weigh` for the metric's own formula: both ends
        of a linked pair get one weight, a link without counterpart the worst. */
    method Calculate(weigh: (nat, nat) -> nat)
      requires forall f, b :: weigh(f, b) >= 1
      modifies this`metricWeight, Opt(counterpart)`metricWeight
      ensures 1 <= metricWeight <= MAX_WEIGHT
      ensures counterpart != null ==> counterpart.metricWeight == metricWeight
      ensures metricWeight == Price(weigh, quality, QualityOf(counterpart))
    {
      var mw := UINT_MAX;
      if counterpart != null {
        mw := weigh(quality, counterpart.quality);
      }
      SetMetricWeight(if mw < MAX_WEIGHT then mw else MAX_WEIGHT);
    }
  }

  /** A field that nothing was stored in yet. */
  method Uninitialised() returns (n: nat) {
    n := *;
  }

  datatype NDescr = NDescr(linklist: seq<LinkQuality>, nextHop: NodeId, prevHop: NodeId,
                           nodeValidity: int, edgeValidity: int, distance: nat, nodeName: seq<byte>)

  type AdjList = map<NodeId, NDescr>

  ghost predicate Sorted(ll: seq<LinkQuality>) {
    forall i, j | 0 <= i < j < |ll| :: ll[i].neighbor < ll[j].neighbor
  }

  /** The entry for `id`, or null. */
  ghost function Find(ll: seq<LinkQuality>, id: NodeId): (r: LinkQuality?)
    ensures r != null ==> r in ll && r.neighbor == id
    ensures r == null ==> forall l | l in ll :: l.neighbor != id
  {
    if ll == [] then null
    else if ll[0].neighbor == id then ll[0]
    else Find(ll[1..], id)
  }

  lemma FindStored(ll: seq<LinkQuality>, l: LinkQuality)
    requires Sorted(ll) && l in ll
    ensures Find(ll, l.neighbor) == l
  {
    var r := Find(ll, l.neighbor);
    var i :| 0 <= i < |ll| && ll[i] == l;
    var j :| 0 <= j < |ll| && ll[j] == r;
    assert i < j || j < i || i == j;
  }

  /** The stored link a->b, or null. */
  ghost function Stored(adj: AdjList, a: NodeId, b: NodeId): LinkQuality? {
    if a in adj then Find(adj[a].linklist, b) else null
  }

  /** `a` is among the first `n` neighbours of `ll`. */
  ghost predicate InPrefix(ll: seq<LinkQuality>, n: nat, a: NodeId)
    requires n <= |ll|
  {
    exists k | 0 <= k < n :: ll[k].neighbor == a
  }

  /** The reference of link `l`, stored at `a`, once the first `i` links of node
      `id` have been cut. */
  ghost predicate CutFrom(adj: AdjList, id: NodeId, ll: seq<LinkQuality>, i: nat, a: NodeId, l: LinkQuality)
    requires i <= |ll|
    reads l`counterpart
  {
    l.counterpart == if l.neighbor == id && InPrefix(ll, i, a) then null else Stored(adj, l.neighbor, a)
  }

  lemma CutElsewhere(adj: AdjList, id: NodeId, ll: seq<LinkQuality>, i: nat, k: nat)
    requires Shape(adj) && id in adj && adj[id].linklist == ll && i < k < |ll|
    ensures ll[k] != ll[i] && ll[k] != Stored(adj, ll[i].neighbor, id)
  {
    assert ll[k] in adj[id].linklist && ll[i] in adj[id].linklist;
    FindStored(ll, ll[i]);
  }

  lemma CutHere(adj: AdjList, id: NodeId, ll: seq<LinkQuality>, i: nat, a: NodeId, l: LinkQuality)
    requires Shape(adj) && id in adj && adj[id].linklist == ll && i < |ll|
    requires a in adj && a != id && l in adj[a].linklist
    ensures l != ll[i]
    ensures l == Stored(adj, ll[i].neighbor, id) <==> a == ll[i].neighbor && l.neighbor == id
    ensures InPrefix(ll, i + 1, a) <==> InPrefix(ll, i, a) || a == ll[i].neighbor
  {
    assert ll[i] in adj[id].linklist;
    FindStored(adj[a].linklist, l);
  }

  /** What expiry at time `now` leaves of node `id`. */
  ghost function ExpireOne(adj: AdjList, id: NodeId, now: int): AdjList
    requires id in adj
  {
    if adj[id].nodeValidity <= now then adj - {id}
    else if adj[id].edgeValidity <= now then adj[id := adj[id].(linklist := [])]
    else adj
  }

  /** What it leaves when the nodes in `which` have been visited: nodes and
      link lists past their validity are gone, the rest is untouched. */
  ghost function Survivors(adj: AdjList, which: set<NodeId>, now: int): AdjList {
    map v | v in adj && !(v in which && adj[v].nodeValidity <= now) ::
      if v in which && adj[v].edgeValidity <= now then adj[v].(linklist := []) else adj[v]
  }

  /** `next` is the earliest node expiry among the visited survivors, or the
      default delay when none of them expires sooner. */
  ghost predicate NextTimeout(adj: AdjList, which: set<NodeId>, now: int, next: int) {
    && next <= now + 3141500
    && (forall v | v in adj && v in which :: next <= adj[v].nodeValidity)
    && (next == now + 3141500 || exists v | v in adj && v in which :: next == adj[v].nodeValidity)
  }

  lemma TimeoutStep(adj: AdjList, done: set<NodeId>, id: NodeId, now: int, next: int)
    requires id in adj && id !in done && NextTimeout(adj, done, now, next)
    ensures var validity := adj[id].nodeValidity;
            NextTimeout(ExpireOne(adj, id, now), done + {id}, now, if now < validity < next then validity else next)
  {
    var validity, adj' := adj[id].nodeValidity, ExpireOne(adj, id, now);
    var next' := if now < validity < next then validity else next;
    if next' != now + 3141500 {
      if next' == next {
        var v :| v in adj && v in done && next == adj[v].nodeValidity;
        assert v in adj' && v in done + {id} && next' == adj'[v].nodeValidity;
      } else {
        assert id in adj' && id in done + {id} && next' == adj'[id].nodeValidity;
      }
    }
  }

  lemma NothingExpired(adj: AdjList, now: int)
    ensures Survivors(adj, {}, now) == adj
    ensures NextTimeout(adj, {}, now, now + 3141500)
  {
  }

  lemma SurvivorsStep(adj: AdjList, done: set<NodeId>, id: NodeId, now: int)
    requires id in adj && id !in done
    ensures id in Survivors(adj, done, now)
    ensures ExpireOne(Survivors(adj, done, now), id, now) == Survivors(adj, done + {id}, now)
  {
  }

  /** NDescr::findLinkQuality: std::lower_bound, then an equality test. */
  method FindLinkQuality(ll: seq<LinkQuality>, id: NodeId) returns (r: LinkQuality?)
    requires Sorted(ll)
    ensures r == Find(ll, id)
  {
    var lo, hi := 0, |ll|;
    while lo < hi
      invariant 0 <= lo <= hi <= |ll|
      invariant forall i | 0 <= i < lo :: ll[i].neighbor < id
      invariant forall i | hi <= i < |ll| :: ll[i].neighbor >= id
    {
      var mid := lo + (hi - lo) / 2;
      if ll[mid].neighbor < id { lo := mid + 1; } else { hi := mid; }
    }
    if lo == |ll| || ll[lo].neighbor != id {
      r := null;
      assert forall i | 0 <= i < |ll| :: ll[i].neighbor != id by {
        assert forall i | lo < i < |ll| :: ll[lo].neighbor < ll[i].neighbor;
      }
    } else {
      r := ll[lo];
      FindStored(ll, r);
    }
  }

  // ---------------------------------------------------------------------
  // Observer notifications

  datatype Event =
    | NodeAdded(id: NodeId) | NodeRemoved(id: NodeId)
    | LinkAdded(from: NodeId, to: NodeId) | LinkRemoved(from: NodeId, to: NodeId)

  /** What an observer that only applies notifications believes. */
  datatype Observed = Observed(nodes: set<NodeId>, links: set<(NodeId, NodeId)>)

  function Apply(o: Observed, e: Event): Observed {
    match e
    case NodeAdded(id) => o.(nodes := o.nodes + {id})
    case NodeRemoved(id) => o.(nodes := o.nodes - {id})
    case LinkAdded(a, b) => o.(links := o.links + {(a, b)})
    case LinkRemoved(a, b) => o.(links := o.links - {(a, b)})
  }

  function Replay(o: Observed, log: seq<Event>): Observed {
    if log == [] then o else Apply(Replay(o, log[..|log| - 1]), log[|log| - 1])
  }

  lemma ReplayOne(o: Observed, log: seq<Event>, e: Event)
    ensures Replay(o, log + [e]) == Apply(Replay(o, log), e)
  {
    assert (log + [e])[..|log|] == log;
  }

  lemma {:induction false} ReplayAppend(o: Observed, log: seq<Event>, more: seq<Event>)
    ensures Replay(o, log + more) == Replay(Replay(o, log), more)
  {
    if more == [] {
      assert log + more == log;
    } else {
      var k := |more| - 1;
      ReplayAppend(o, log, more[..k]);
      assert (log + more)[..|log| + k] == log + more[..k];
    }
  }

  /** The observer's node and link sets are those of the database. */
  ghost predicate Mirrors(o: Observed, adj: AdjList) {
    && o.nodes == adj.Keys
    && forall a: NodeId, b: NodeId :: (a, b) in o.links <==> Stored(adj, a, b) != null
  }

  /** Two observed states that mirror one database are the same. */
  lemma MirrorUnique(o: Observed, p: Observed, adj: AdjList)
    requires Mirrors(o, adj) && Mirrors(p, adj)
    ensures o == p
  {
    forall x | x in o.links ensures x in p.links { assert x == (x.0, x.1); }
    forall x | x in p.links ensures x in o.links { assert x == (x.0, x.1); }
    assert o.links == p.links;
  }

  // ---------------------------------------------------------------------
  // Views used by the routing part

  function Neighbors(ll: seq<LinkQuality>): set<NodeId> {
    set l | l in ll :: l.neighbor
  }

  ghost function LinkWeights(ll: seq<LinkQuality>): map<NodeId, nat>
    reads set l | l in ll
  {
    map b | b in Neighbors(ll) :: Find(ll, b).metricWeight
  }

  ghost function Dist(adj: AdjList): map<NodeId, nat> { map v | v in adj :: adj[v].distance }
  ghost function Prev(adj: AdjList): map<NodeId, NodeId> { map v | v in adj :: adj[v].prevHop }
  ghost function NextHops(adj: AdjList): map<NodeId, NodeId> { map v | v in adj :: adj[v].nextHop }

  /** Everything but the routing fields agrees. */
  ghost predicate SameLinks(adj: AdjList, adj': AdjList) {
    && adj.Keys == adj'.Keys
    && forall v | v in adj ::
         && adj'[v].linklist == adj[v].linklist && adj'[v].nodeName == adj[v].nodeName
         && adj'[v].nodeValidity == adj[v].nodeValidity && adj'[v].edgeValidity == adj[v].edgeValidity
  }

  lemma MatchesKept(g: Graph, adj: AdjList, adj': AdjList, a: NodeId)
    requires SameLinks(adj, adj') && a in adj && NodeMatches(g, a, adj[a].linklist)
    ensures NodeMatches(g, a, adj'[a].linklist)
  {
    hide NodeMatches;
  }

  lemma {:induction false} NearestExists(adj: AdjList, todo: set<NodeId>) returns (n: NodeId)
    requires todo != {} && todo <= adj.Keys
    ensures n in todo && forall v | v in todo :: adj[n].distance <= adj[v].distance
  {
    n :| n in todo;
    var rest := todo - {n};
    if rest != {} {
      var m := NearestExists(adj, rest);
      assert forall v | v in todo :: v == n || v in rest;
      if adj[m].distance <= adj[n].distance { n := m; }
    } else {
      assert todo == {n};
    }
  }

  /** A reached node's distance is realised through its extracted `prevHop`. */
  ghost predicate Realised(g: Graph, me: NodeId, adj: AdjList, done: set<NodeId>, v: NodeId)
    requires adj.Keys == g.Keys && v in g
  {
    var u := adj[v].prevHop;
    v != me && adj[v].distance < UINT_MAX ==>
      && u in done && Edge(g, u, v) && adj[u].distance < UINT_MAX
      && adj[v].distance == adj[u].distance + Weight(g, u, v)
  }

  /** No link out of an extracted node can shorten a distance. */
  ghost predicate Relaxed(g: Graph, adj: AdjList, u: NodeId, v: NodeId)
    requires adj.Keys == g.Keys
  {
    Edge(g, u, v) && adj[u].distance < UINT_MAX ==>
      adj[v].distance < UINT_MAX && adj[v].distance <= adj[u].distance + Weight(g, u, v)
  }

  /** A known distance is at most one maximal weight per extracted node, so the
      32-bit sum can neither wrap nor reach the infinity value. */
  ghost predicate Bounded(adj: AdjList, me: NodeId, count: nat, v: NodeId)
    requires v in adj
  {
    && adj[v].distance <= UINT_MAX && adj[v].nextHop == me
    && (adj[v].distance < UINT_MAX ==> adj[v].distance <= 0x3F_FFFF * count)
  }

  ghost predicate AllBounded(g: Graph, me: NodeId, adj: AdjList, count: nat)
    requires adj.Keys == g.Keys
  {
    forall v {:trigger Bounded(adj, me, count, v)} | v in g :: Bounded(adj, me, count, v)
  }

  ghost predicate AllRealised(g: Graph, me: NodeId, adj: AdjList, done: set<NodeId>)
    requires adj.Keys == g.Keys
  {
    forall v {:trigger Realised(g, me, adj, done, v)} | v in g :: Realised(g, me, adj, done, v)
  }

  ghost predicate AllRelaxed(g: Graph, adj: AdjList, done: set<NodeId>)
    requires adj.Keys == g.Keys
  {
    forall u, v {:trigger Relaxed(g, adj, u, v)} | u in done :: Relaxed(g, adj, u, v)
  }

  ghost predicate Nearer(adj: AdjList, done: set<NodeId>, todo: set<NodeId>)
    requires done <= adj.Keys && todo <= adj.Keys
  {
    forall u, v | u in done && v in todo :: adj[u].distance <= adj[v].distance
  }

  /** State of Dijkstra's algorithm between two extractions. */
  ghost predicate Progress(g: Graph, me: NodeId, adj: AdjList, done: set<NodeId>, todo: set<NodeId>) {
    && adj.Keys == g.Keys && me in g && done !! todo && done + todo == g.Keys
    && adj[me].distance == 0 && adj[me].prevHop == me
    && AllBounded(g, me, adj, |done|)
    && AllRealised(g, me, adj, done)
    && AllRelaxed(g, adj, done)
    && Nearer(adj, done, todo)
  }

  /** What the relaxation loop of node `n` may have done to node `v`. */
  ghost predicate Changed(g: Graph, adj0: AdjList, adj: AdjList, n: NodeId, v: NodeId)
    requires n in adj0 && v in adj0 && v in adj
  {
    && adj[v].nextHop == adj0[v].nextHop
    && ((adj[v].distance == adj0[v].distance && adj[v].prevHop == adj0[v].prevHop)
        || (&& Edge(g, n, v) && adj[v].prevHop == n && adj[v].distance < adj0[v].distance
            && adj[v].distance == adj0[n].distance + Weight(g, n, v)))
  }

  /** Between two iterations of that loop; `adj0` is the state before it. */
  ghost predicate Relaxing(g: Graph, me: NodeId, adj0: AdjList, adj: AdjList, n: NodeId) {
    && SameLinks(adj0, adj) && n in adj0 && adj0.Keys == g.Keys
    && forall v {:trigger Changed(g, adj0, adj, n, v)} | v in g :: Changed(g, adj0, adj, n, v)
  }

  /** Nothing extracted before `n` is changed, because its distance is smaller. */
  lemma DoneUnchanged(g: Graph, me: NodeId, adj0: AdjList, adj: AdjList, done: set<NodeId>, todo: set<NodeId>,
                      n: NodeId, v: NodeId)
    requires Progress(g, me, adj0, done, todo) && WeightsWithin(g, MAX_WEIGHT) && n in todo
    requires Relaxing(g, me, adj0, adj, n) && v in g && (v in done || v == n || v == me)
    ensures adj[v].distance == adj0[v].distance && adj[v].prevHop == adj0[v].prevHop
  {
    assert Changed(g, adj0, adj, n, v);
    if v in done { assert adj0[v].distance <= adj0[n].distance; }
  }

  lemma RelaxedNode(g: Graph, me: NodeId, adj0: AdjList, adj: AdjList, done: set<NodeId>, todo: set<NodeId>,
                    n: NodeId, v: NodeId)
    requires Progress(g, me, adj0, done, todo) && WeightsWithin(g, MAX_WEIGHT) && n in todo
    requires Relaxing(g, me, adj0, adj, n) && v in g
    requires adj[v].distance != adj0[v].distance ==> adj0[n].distance < UINT_MAX
    ensures Bounded(adj, me, |done + {n}|, v) && Realised(g, me, adj, done + {n}, v)
  {
    assert Bounded(adj0, me, |done|, v) && Bounded(adj0, me, |done|, n);
    assert |done + {n}| == |done| + 1;
    assert Realised(g, me, adj0, done, v);
    assert Changed(g, adj0, adj, n, v);
    DoneUnchanged(g, me, adj0, adj, done, todo, n, n);
    DoneUnchanged(g, me, adj0, adj, done, todo, n, me);
    if v != me && adj0[v].distance < UINT_MAX {
      DoneUnchanged(g, me, adj0, adj, done, todo, n, adj0[v].prevHop);
    }
  }

  lemma StaysRelaxed(g: Graph, me: NodeId, adj0: AdjList, adj: AdjList, done: set<NodeId>, todo: set<NodeId>, n: NodeId)
    requires Progress(g, me, adj0, done, todo) && WeightsWithin(g, MAX_WEIGHT) && n in todo
    requires Relaxing(g, me, adj0, adj, n) && AllRelaxed(g, adj, {n})
    ensures AllRelaxed(g, adj, done + {n})
  {
    forall u, v | u in done && Edge(g, u, v) ensures Relaxed(g, adj, u, v) {
      assert Relaxed(g, adj0, u, v) && Changed(g, adj0, adj, n, v);
      DoneUnchanged(g, me, adj0, adj, done, todo, n, u);
    }
  }

  lemma StaysNearer(g: Graph, me: NodeId, adj0: AdjList, adj: AdjList, done: set<NodeId>, todo: set<NodeId>, n: NodeId)
    requires Progress(g, me, adj0, done, todo) && WeightsWithin(g, MAX_WEIGHT)
    requires n in todo && (forall v | v in todo :: adj0[n].distance <= adj0[v].distance)
    requires Relaxing(g, me, adj0, adj, n)
    ensures Nearer(adj, done + {n}, todo - {n})
  {
    forall u, v | u in done + {n} && v in todo - {n} ensures adj[u].distance <= adj[v].distance {
      hide *;
      PairStaysNearer(g, me, adj0, adj, done, todo, n, u, v);
    }
  }

  lemma PairStaysNearer(g: Graph, me: NodeId, adj0: AdjList, adj: AdjList, done: set<NodeId>, todo: set<NodeId>,
                        n: NodeId, u: NodeId, v: NodeId)
    requires Progress(g, me, adj0, done, todo) && WeightsWithin(g, MAX_WEIGHT)
    requires n in todo && (forall v | v in todo :: adj0[n].distance <= adj0[v].distance)
    requires Relaxing(g, me, adj0, adj, n) && u in done + {n} && v in todo - {n}
    ensures adj[u].distance <= adj[v].distance
  {
    hide AllBounded, AllRealised, AllRelaxed;
    DoneUnchanged(g, me, adj0, adj, done, todo, n, u);
    assert Changed(g, adj0, adj, n, v);
    assert u in done ==> adj0[u].distance <= adj0[n].distance;
  }

  lemma StaysBounded(g: Graph, me: NodeId, adj0: AdjList, adj: AdjList, done: set<NodeId>, todo: set<NodeId>, n: NodeId)
    requires Progress(g, me, adj0, done, todo) && WeightsWithin(g, MAX_WEIGHT) && n in todo
    requires Relaxing(g, me, adj0, adj, n)
    requires adj0[n].distance >= UINT_MAX ==> adj == adj0
    ensures AllBounded(g, me, adj, |done + {n}|) && AllRealised(g, me, adj, done + {n})
  {
    forall v | v in g
      ensures Bounded(adj, me, |done + {n}|, v) && Realised(g, me, adj, done + {n}, v)
    {
      RelaxedNode(g, me, adj0, adj, done, todo, n, v);
    }
  }

  lemma RelaxedAll(g: Graph, me: NodeId, adj0: AdjList, adj: AdjList, done: set<NodeId>, todo: set<NodeId>, n: NodeId)
    requires Progress(g, me, adj0, done, todo) && WeightsWithin(g, MAX_WEIGHT)
    requires n in todo && (forall v | v in todo :: adj0[n].distance <= adj0[v].distance)
    requires Relaxing(g, me, adj0, adj, n) && AllRelaxed(g, adj, {n})
    requires adj0[n].distance >= UINT_MAX ==> adj == adj0
    ensures Progress(g, me, adj, done + {n}, todo - {n})
  {
    StaysBounded(g, me, adj0, adj, done, todo, n);
    StaysRelaxed(g, me, adj0, adj, done, todo, n);
    StaysNearer(g, me, adj0, adj, done, todo, n);
    DoneUnchanged(g, me, adj0, adj, done, todo, n, me);
  }

  lemma StartProgress(g: Graph, me: NodeId, adj: AdjList)
    requires adj.Keys == g.Keys && me in adj
    requires adj[me].distance == 0 && adj[me].prevHop == me
    requires forall v | v in adj :: adj[v].nextHop == me && (v != me ==> adj[v].distance == UINT_MAX)
    ensures Progress(g, me, adj, {}, g.Keys)
  {
    assert forall v | v in g :: Bounded(adj, me, 0, v) && Realised(g, me, adj, {}, v);
  }

  lemma NextHopsUnset(g: Graph, me: NodeId, adj: AdjList)
    requires Progress(g, me, adj, g.Keys, {})
    ensures forall v | v in adj :: adj[v].nextHop == me
  {
    assert forall v | v in g :: Bounded(adj, me, |g.Keys|, v);
  }

  /** Once every node is extracted, the routing fields form a shortest path tree. */
  lemma ProgressComplete(g: Graph, me: NodeId, adj: AdjList, done: set<NodeId>)
    requires Progress(g, me, adj, done, {})
    ensures ShortestPathTree(g, me, Dist(adj), Prev(adj), UINT_MAX)
  {
    hide AllBounded, AllRealised, AllRelaxed, Nearer, Hangs;
    assert done == g.Keys;
    var dist, prev := Dist(adj), Prev(adj);
    forall v | v in g ensures dist[v] <= UINT_MAX && Hangs(g, me, dist, prev, UINT_MAX, v) {
      CompleteNode(g, me, adj, done, v);
    }
    forall u, v | Edge(g, u, v) && dist[u] < UINT_MAX
      ensures dist[v] < UINT_MAX && dist[v] <= dist[u] + Weight(g, u, v)
    {
      CompleteEdge(g, adj, done, u, v);
    }
  }

  lemma CompleteNode(g: Graph, me: NodeId, adj: AdjList, done: set<NodeId>, v: NodeId)
    requires adj.Keys == g.Keys && AllBounded(g, me, adj, |done|) && AllRealised(g, me, adj, done) && v in g
    ensures Dist(adj)[v] <= UINT_MAX && Hangs(g, me, Dist(adj), Prev(adj), UINT_MAX, v)
  {
    assert Bounded(adj, me, |done|, v) && Realised(g, me, adj, done, v);
  }

  lemma CompleteEdge(g: Graph, adj: AdjList, done: set<NodeId>, u: NodeId, v: NodeId)
    requires adj.Keys == g.Keys && AllRelaxed(g, adj, done) && u in done && Edge(g, u, v) && adj[u].distance < UINT_MAX
    ensures adj[v].distance < UINT_MAX && adj[v].distance <= adj[u].distance + Weight(g, u, v)
  {
    assert Relaxed(g, adj, u, v);
  }

  ghost predicate Carries(adj: AdjList, dist: map<NodeId, nat>, prev: map<NodeId, NodeId>) {
    && adj.Keys == dist.Keys == prev.Keys
    && forall v | v in adj :: adj[v].distance == dist[v] && adj[v].prevHop == prev[v]
  }

  /** The next hop of `v` has its final value: that of the plain walk. */
  ghost predicate Final(adj: AdjList, me: NodeId, g: Graph, dist: map<NodeId, nat>, prev: map<NodeId, NodeId>,
                        v: NodeId)
    requires ShortestPathTree(g, me, dist, prev, UINT_MAX) && WeightsWithin(g, MAX_WEIGHT) && v in g && v in adj
  {
    adj[v].nextHop == FirstHop(g, me, dist, prev, UINT_MAX, v)
  }

  /** What memoisation keeps: a next hop is still unset or final. */
  ghost predicate Memo(adj: AdjList, me: NodeId, g: Graph, dist: map<NodeId, nat>, prev: map<NodeId, NodeId>, v: NodeId)
    requires ShortestPathTree(g, me, dist, prev, UINT_MAX) && WeightsWithin(g, MAX_WEIGHT) && v in g && v in adj
  {
    adj[v].nextHop == me || Final(adj, me, g, dist, prev, v)
  }

  /** Storing the final next hop of one node. */
  lemma HopSet(adj: AdjList, me: NodeId, g: Graph, dist: map<NodeId, nat>, prev: map<NodeId, NodeId>, id: NodeId,
               hop: NodeId)
    requires ShortestPathTree(g, me, dist, prev, UINT_MAX) && WeightsWithin(g, MAX_WEIGHT)
    requires adj.Keys == g.Keys && Carries(adj, dist, prev) && id in adj
    requires hop == FirstHop(g, me, dist, prev, UINT_MAX, id)
    requires forall v | v in adj :: Memo(adj, me, g, dist, prev, v)
    ensures var adj' := adj[id := adj[id].(nextHop := hop)];
      && SameLinks(adj, adj') && Carries(adj', dist, prev) && Final(adj', me, g, dist, prev, id)
      && forall v | v in adj :: Memo(adj', me, g, dist, prev, v) &&
           (Final(adj, me, g, dist, prev, v) ==> Final(adj', me, g, dist, prev, v))
  {
    hide ShortestPathTree, WeightsWithin, FirstHop;
    forall v | v in adj ensures Memo(adj[id := adj[id].(nextHop := hop)], me, g, dist, prev, v) {
      assert Memo(adj, me, g, dist, prev, v);
    }
  }

  lemma FinalCorrect(adj: AdjList, me: NodeId, g: Graph, dist: map<NodeId, nat>, prev: map<NodeId, NodeId>)
    requires ShortestPathTree(g, me, dist, prev, UINT_MAX) && WeightsWithin(g, MAX_WEIGHT) && adj.Keys == g.Keys
    requires forall v | v in adj :: Final(adj, me, g, dist, prev, v)
    ensures Routed(g, me, dist, prev, UINT_MAX, NextHops(adj)) && CorrectNextHops(g, me, NextHops(adj))
  {
    hide ShortestPathTree, FirstHop, CorrectNextHops;
    assert Positive(g);
    forall v | v in g ensures NextHops(adj)[v] == FirstHop(g, me, dist, prev, UINT_MAX, v) {
      assert Final(adj, me, g, dist, prev, v);
    }
    RoutedCorrect(g, me, dist, prev, UINT_MAX, NextHops(adj));
  }

  /** The links stored at `a`, as the graph `g` sees them. */
  ghost predicate NodeMatches(g: Graph, a: NodeId, ll: seq<LinkQuality>)
    reads set l | l in ll
  {
    a in g && Sorted(ll) && g[a] == LinkWeights(ll) && forall l | l in ll :: Weighted(l)
  }

  /** Shape of the database that does not depend on the heap: sorted lists of
      entries owned by their node, and edges that never outlive their node. */
  ghost predicate Shape(adj: AdjList) {
    forall a | a in adj ::
      && Sorted(adj[a].linklist)
      && (forall l | l in adj[a].linklist :: l.owner == a)
      && adj[a].edgeValidity <= adj[a].nodeValidity
  }

  /** The weight of every stored link is positive and clamped. */
  ghost predicate Weighted(l: LinkQuality)
    reads l`metricWeight
  {
    1 <= l.metricWeight <= MAX_WEIGHT
  }

  /** Link `l`, stored at `a`, points at exactly the stored reverse link, or
      nowhere when there is none. */
  ghost predicate PointsBack(adj: AdjList, a: NodeId, l: LinkQuality)
    reads l`counterpart
  {
    l.counterpart == Stored(adj, l.neighbor, a)
  }

  /** A linked pair has one positive weight. */
  ghost predicate Balanced(adj: AdjList, a: NodeId, l: LinkQuality)
    reads l`metricWeight, Opt(Stored(adj, l.neighbor, a))`metricWeight
  {
    var m := Stored(adj, l.neighbor, a);
    Weighted(l) && (m != null ==> m.metricWeight == l.metricWeight)
  }

  ghost predicate Within(adj: AdjList, links: set<LinkQuality>) {
    forall a, l | a in adj && l in adj[a].linklist :: l in links
  }

  ghost predicate PointersOk(adj: AdjList, links: set<LinkQuality>)
    requires Within(adj, links)
    reads links`counterpart
  {
    forall a, l {:trigger PointsBack(adj, a, l)} | a in adj && l in adj[a].linklist :: PointsBack(adj, a, l)
  }

  ghost predicate WeightsOk(adj: AdjList, links: set<LinkQuality>)
    requires Within(adj, links)
    reads links`metricWeight
  {
    forall a, l {:trigger Balanced(adj, a, l)} | a in adj && l in adj[a].linklist :: Balanced(adj, a, l)
  }

  /** Every list of `adj'` is empty or one of `adj`. */
  ghost predicate Prunes(adj: AdjList, adj': AdjList) {
    forall a | a in adj' :: adj'[a].linklist == [] || (a in adj && adj'[a].linklist == adj[a].linklist)
  }

  ghost predicate SameStored(adj: AdjList, adj': AdjList) {
    forall a: NodeId, b: NodeId :: Stored(adj', a, b) == Stored(adj, a, b)
  }

  lemma PruneKeepsWeights(adj: AdjList, adj': AdjList, links: set<LinkQuality>)
    requires Within(adj, links) && WeightsOk(adj, links) && Prunes(adj, adj')
    ensures Within(adj', links) && WeightsOk(adj', links)
  {
    forall a, l | a in adj' && l in adj'[a].linklist ensures Balanced(adj', a, l) {
      assert Balanced(adj, a, l);
    }
  }

  lemma SameStoredKeepsPointers(adj: AdjList, adj': AdjList, links: set<LinkQuality>)
    requires Within(adj, links) && PointersOk(adj, links) && Prunes(adj, adj') && SameStored(adj, adj')
    ensures Within(adj', links) && PointersOk(adj', links)
  {
    forall a, l | a in adj' && l in adj'[a].linklist ensures PointsBack(adj', a, l) {
      assert PointsBack(adj, a, l);
    }
  }

  // ---------------------------------------------------------------------
  // Merging a topology packet: the two-pointer loop of `feed`

  /** `a` is a neighbour of `ll` at position `i` or later. */
  ghost predicate Pending(ll: seq<LinkQuality>, i: nat, a: NodeId) {
    exists k | i <= k < |ll| :: ll[k].neighbor == a
  }

  ghost predicate Settled(adj: AdjList, a: NodeId, l: LinkQuality)
    reads l, Opt(Stored(adj, l.neighbor, a))
  {
    PointsBack(adj, a, l) && Balanced(adj, a, l)
  }

  /** Link `l` of node `a` while the list `newL` replaces `oldL` at `src`: new
      links are settled once passed, and only the reverse links of neighbours
      still to come may be unsettled. */
  ghost predicate MergeState(adj: AdjList, src: NodeId, newL: seq<LinkQuality>, oldL: seq<LinkQuality>, i: nat, j: nat,
                             a: NodeId, l: LinkQuality)
    requires i <= |newL|
    reads l, Opt(Stored(adj, l.neighbor, a))
  {
    if a == src then InPrefix(newL, i, l.neighbor) ==> Settled(adj, a, l)
    else Weighted(l) && (Settled(adj, a, l) || (l.neighbor == src && (Pending(newL, i, a) || Pending(oldL, j, a))))
  }

  /** The shape of the database while merging. */
  ghost predicate MergeShape(adj: AdjList, links: set<LinkQuality>, src: NodeId,
                             newL: seq<LinkQuality>, oldL: seq<LinkQuality>, i: nat, j: nat) {
    && Shape(adj) && Within(adj, links) && src in adj && adj[src].linklist == newL && Sorted(newL) && Sorted(oldL)
    && i <= |newL| && j <= |oldL|
    && (forall k, m | 0 <= k < i && j <= m < |oldL| :: newL[k].neighbor < oldL[m].neighbor)
  }

  ghost predicate Merging(adj: AdjList, links: set<LinkQuality>, src: NodeId,
                          newL: seq<LinkQuality>, oldL: seq<LinkQuality>, i: nat, j: nat)
    requires MergeShape(adj, links, src, newL, oldL, i, j)
    reads links
  {
    forall a, l {:trigger MergeState(adj, src, newL, oldL, i, j, a, l)} | a in adj && l in adj[a].linklist ::
      MergeState(adj, src, newL, oldL, i, j, a, l)
  }

  /** Link `l` of `src` has the weight that its own quality and that of the stored
      reverse link give. */
  ghost predicate PricedAt(weigh: (nat, nat) -> nat, adj: AdjList, src: NodeId, l: LinkQuality)
    reads l`metricWeight
  {
    l.metricWeight == Price(weigh, l.quality, QualityOf(Stored(adj, l.neighbor, src)))
  }

  ghost predicate PricedUpTo(weigh: (nat, nat) -> nat, adj: AdjList, src: NodeId, newL: seq<LinkQuality>, i: nat)
    requires i <= |newL|
    reads (set l | l in newL)`metricWeight
  {
    forall k | 0 <= k < i :: PricedAt(weigh, adj, src, newL[k])
  }

  lemma NothingPriced(weigh: (nat, nat) -> nat, adj: AdjList, src: NodeId, newL: seq<LinkQuality>)
    ensures PricedUpTo(weigh, adj, src, newL, 0)
  {
  }

  /** A link the first `i` steps of a merge have no reason to reweigh. */
  ghost predicate Bystander(src: NodeId, newL: seq<LinkQuality>, i: nat, l: LinkQuality)
    requires i <= |newL|
  {
    l !in newL && !(l.neighbor == src && InPrefix(newL, i, l.owner))
  }

  /** The links priced so far are apart from the pair of the next link. */
  lemma PrefixApart(adj: AdjList, links: set<LinkQuality>, src: NodeId, newL: seq<LinkQuality>, oldL: seq<LinkQuality>,
                    i: nat, j: nat)
    requires MergeShape(adj, links, src, newL, oldL, i, j) && i < |newL|
    ensures forall k | 0 <= k < i ::
      newL[k] in links && newL[k] != newL[i] && newL[k] != Stored(adj, newL[i].neighbor, src)
    ensures forall l | l in links && Bystander(src, newL, i + 1, l) ::
      Bystander(src, newL, i, l) && l != newL[i] && l != Stored(adj, newL[i].neighbor, src)
  {
    assert newL[i] in adj[src].linklist;
    FindStored(newL, newL[i]);
    forall k | 0 <= k < i
      ensures newL[k] in links && newL[k] != newL[i] && newL[k] != Stored(adj, newL[i].neighbor, src)
    {
      assert newL[k] in adj[src].linklist;
    }
    forall l | l in links && Bystander(src, newL, i + 1, l)
      ensures Bystander(src, newL, i, l) && l != newL[i] && l != Stored(adj, newL[i].neighbor, src)
    {
      var m := Stored(adj, newL[i].neighbor, src);
      if m != null { assert m.owner == newL[i].neighbor && m.neighbor == src && InPrefix(newL, i + 1, m.owner); }
    }
  }

  lemma StoredTouched(adj: AdjList, adj': AdjList, links: set<LinkQuality>, src: NodeId, newL: seq<LinkQuality>,
                      oldL: seq<LinkQuality>, i: nat, j: nat, b: NodeId)
    requires MergeShape(adj, links, src, newL, oldL, i, j) && Touched(adj, adj', b)
    ensures SameStored(adj, adj')
  {
    TouchedKeeps(adj, adj', b);
  }

  /** Passing the new link at `i` changes nothing for the links of other pairs. */
  lemma OtherLink(adj: AdjList, links: set<LinkQuality>, src: NodeId, newL: seq<LinkQuality>, oldL: seq<LinkQuality>,
                  i: nat, j: nat, j': nat, a: NodeId, l: LinkQuality)
    requires MergeShape(adj, links, src, newL, oldL, i, j) && i < |newL|
    requires j' == j || (j' == j + 1 && j < |oldL| && oldL[j].neighbor == newL[i].neighbor)
    requires a in adj && l in adj[a].linklist && l != newL[i] && l != Stored(adj, newL[i].neighbor, src)
    ensures Stored(adj, l.neighbor, a) != newL[i]
    ensures Stored(adj, newL[i].neighbor, src) != null ==>
        Stored(adj, l.neighbor, a) != Stored(adj, newL[i].neighbor, src)
    ensures a == src && InPrefix(newL, i + 1, l.neighbor) ==> InPrefix(newL, i, l.neighbor)
    ensures a != src && l.neighbor == src && Pending(newL, i, a) ==> Pending(newL, i + 1, a)
    ensures a != src && l.neighbor == src && Pending(oldL, j, a) ==> Pending(oldL, j', a)
  {
    FindStored(adj[a].linklist, l);
    FindStored(newL, newL[i]);
  }

  lemma MergeFacts(adj: AdjList, links: set<LinkQuality>, src: NodeId, newL: seq<LinkQuality>, oldL: seq<LinkQuality>,
                   i: nat, j: nat)
    requires MergeShape(adj, links, src, newL, oldL, i, j)
    ensures forall b | b in adj :: Sorted(adj[b].linklist) && Opt(Stored(adj, b, src)) <= links
    ensures forall k | 0 <= k < |newL| :: newL[k] in links
    ensures i <= |newL| && j <= |oldL|
  {
    forall k | 0 <= k < |newL| ensures newL[k] in links { assert newL[k] in adj[src].linklist; }
  }

  /** The new link at `i` and the reverse link it was joined with are settled. */
  lemma JoinedLink(adj: AdjList, links: set<LinkQuality>, src: NodeId, newL: seq<LinkQuality>, oldL: seq<LinkQuality>,
                   i: nat, j: nat, j': nat, a: NodeId, l: LinkQuality)
    requires MergeShape(adj, links, src, newL, oldL, i, j) && i < |newL|
    requires a in adj && l in adj[a].linklist && (l == newL[i] || l == Stored(adj, newL[i].neighbor, src))
    requires var cp := Stored(adj, newL[i].neighbor, src);
      && newL[i].counterpart == cp && Weighted(newL[i])
      && (cp != null ==> cp.counterpart == newL[i] && cp.metricWeight == newL[i].metricWeight)
    ensures MergeState(adj, src, newL, oldL, i + 1, j', a, l)
  {
    FindStored(adj[a].linklist, l);
    FindStored(newL, newL[i]);
  }

  lemma UnlinkedLink(adj: AdjList, links: set<LinkQuality>, src: NodeId, newL: seq<LinkQuality>, oldL: seq<LinkQuality>,
                     i: nat, j: nat, a: NodeId, l: LinkQuality)
    requires MergeShape(adj, links, src, newL, oldL, i, j) && j < |oldL| && Find(newL, oldL[j].neighbor) == null
    requires a in adj && l in adj[a].linklist
    ensures l == Stored(adj, oldL[j].neighbor, src) ==>
              a == oldL[j].neighbor && a != src && l.neighbor == src && Stored(adj, l.neighbor, a) == null
    ensures l != Stored(adj, oldL[j].neighbor, src) && a != src && l.neighbor == src && Pending(oldL, j, a) ==>
        Pending(oldL, j + 1, a)
  {
    FindStored(adj[a].linklist, l);
  }

  lemma MergeStart(adj0: AdjList, adj: AdjList, links: set<LinkQuality>, src: NodeId, newL: seq<LinkQuality>,
                   oldL: seq<LinkQuality>)
    requires Shape(adj0) && Within(adj0, links) && PointersOk(adj0, links) && WeightsOk(adj0, links)
    requires src in adj0 && adj0[src].linklist == oldL
    requires adj.Keys == adj0.Keys && adj[src].linklist == newL
    requires forall a | a in adj && a != src :: adj[a].linklist == adj0[a].linklist
    requires MergeShape(adj, links, src, newL, oldL, 0, 0)
    ensures Merging(adj, links, src, newL, oldL, 0, 0)
  {
    forall a, l | a in adj && l in adj[a].linklist ensures MergeState(adj, src, newL, oldL, 0, 0, a, l) {
      if a != src {
        assert PointsBack(adj0, a, l) && Balanced(adj0, a, l);
        if l.neighbor == src {
          if !Pending(newL, 0, a) { assert Find(newL, a) == null; }
          if !Pending(oldL, 0, a) { assert Find(oldL, a) == null; }
        }
      }
    }
  }

  lemma SwappedShape(adj0: AdjList, adj: AdjList, links: set<LinkQuality>, all: set<LinkQuality>, src: NodeId,
                     newL: seq<LinkQuality>, oldL: seq<LinkQuality>)
    requires Shape(adj0) && Within(adj0, links) && src in adj0 && adj0[src].linklist == oldL && Sorted(newL)
    requires adj == adj0[src := adj0[src].(linklist := newL)] && all == links + (set l | l in newL)
    requires forall l | l in newL :: l.owner == src
    ensures MergeShape(adj, all, src, newL, oldL, 0, 0) && Within(adj0, all) && adj.Keys == adj0.Keys
    ensures adj[src].linklist == newL && forall a | a in adj && a != src :: adj[a].linklist == adj0[a].linklist
  {
  }

  lemma MirrorsAtStart(o: Observed, adj0: AdjList, adj: AdjList, src: NodeId, newL: seq<LinkQuality>,
                       oldL: seq<LinkQuality>)
    requires Mirrors(o, adj0) && src in adj0 && adj0[src].linklist == oldL && adj.Keys == adj0.Keys
    requires forall a | a in adj && a != src :: adj[a].linklist == adj0[a].linklist
    ensures MergeMirrors(o, adj, src, newL, oldL, 0, 0)
  {
    forall y ensures Stored(adj0, src, y) != null <==> Pending(oldL, 0, y) {
      var r := Find(oldL, y);
    }
  }

  lemma MergeEnd(adj: AdjList, links: set<LinkQuality>, src: NodeId, newL: seq<LinkQuality>, oldL: seq<LinkQuality>)
    requires MergeShape(adj, links, src, newL, oldL, |newL|, |oldL|)
    requires Merging(adj, links, src, newL, oldL, |newL|, |oldL|)
    ensures PointersOk(adj, links) && WeightsOk(adj, links)
  {
    forall a, l | a in adj && l in adj[a].linklist ensures PointsBack(adj, a, l) && Balanced(adj, a, l) {
      assert MergeState(adj, src, newL, oldL, |newL|, |oldL|, a, l);
    }
  }

  lemma MergeParts(adj: AdjList, links: set<LinkQuality>, src: NodeId, newL: seq<LinkQuality>, oldL: seq<LinkQuality>)
    requires MergeShape(adj, links, src, newL, oldL, |newL|, |oldL|)
    ensures Shape(adj) && Within(adj, links) && src in adj && adj[src].linklist == newL && Sorted(newL)
  {
  }

  lemma MergeIgnoresEmptyNodes(adj: AdjList, adj': AdjList, links: set<LinkQuality>, src: NodeId,
                               newL: seq<LinkQuality>, oldL: seq<LinkQuality>, i: nat, j: nat)
    requires MergeShape(adj, links, src, newL, oldL, i, j) && Merging(adj, links, src, newL, oldL, i, j)
    requires Shape(adj') && src in adj' && adj'[src].linklist == newL && Prunes(adj, adj') && SameStored(adj, adj')
    ensures MergeShape(adj', links, src, newL, oldL, i, j) && Merging(adj', links, src, newL, oldL, i, j)
  {
    forall a, l | a in adj' && l in adj'[a].linklist ensures MergeState(adj', src, newL, oldL, i, j, a, l) {
      assert MergeState(adj, src, newL, oldL, i, j, a, l);
    }
  }

  /** What the observers have been told while merging. */
  ghost predicate MergeMirrors(o: Observed, adj: AdjList, src: NodeId,
                               newL: seq<LinkQuality>, oldL: seq<LinkQuality>, i: nat, j: nat)
    requires i <= |newL|
  {
    && o.nodes == adj.Keys
    && forall x: NodeId, y: NodeId :: (x, y) in o.links <==>
         if x == src then InPrefix(newL, i, y) || Pending(oldL, j, y) else Stored(adj, x, y) != null
  }

  lemma MirrorsTouched(o: Observed, o': Observed, adj: AdjList, adj': AdjList, b: NodeId, src: NodeId,
                       newL: seq<LinkQuality>, oldL: seq<LinkQuality>, i: nat, j: nat)
    requires i <= |newL| && MergeMirrors(o, adj, src, newL, oldL, i, j) && SameStored(adj, adj')
    requires adj'.Keys == adj.Keys + {b} && o' == if b in adj then o else Apply(o, NodeAdded(b))
    ensures MergeMirrors(o', adj', src, newL, oldL, i, j)
  {
    hide InPrefix, Pending;
  }

  lemma MirrorsAdded(o: Observed, o': Observed, adj: AdjList, adj': AdjList, b: NodeId)
    requires Mirrors(o, adj) && SameStored(adj, adj')
    requires adj'.Keys == adj.Keys + {b} && o' == if b in adj then o else Apply(o, NodeAdded(b))
    ensures Mirrors(o', adj')
  {
  }

  lemma MirrorsSame(o: Observed, adj: AdjList, adj': AdjList)
    requires Mirrors(o, adj) && SameStored(adj, adj') && adj'.Keys == adj.Keys
    ensures Mirrors(o, adj')
  {
  }

  lemma RedescribedKeeps(adj: AdjList, adj': AdjList, id: NodeId, d: NDescr)
    requires Shape(adj) && id in adj && adj' == adj[id := d] && d.linklist == adj[id].linklist
    requires d.edgeValidity <= d.nodeValidity
    ensures Shape(adj') && Prunes(adj, adj') && SameStored(adj, adj') && adj'.Keys == adj.Keys
    ensures forall a | a in adj :: adj'[a].linklist == adj[a].linklist
  {
  }

  lemma TouchedNew(adj: AdjList, adj': AdjList, b: NodeId)
    requires Touched(adj, adj', b) && b !in adj
    ensures adj' == adj[b := adj'[b]]
  {
  }

  lemma OneRowMore(g: Graph, g': Graph, adj: AdjList, adj': AdjList, id: NodeId)
    requires g.Keys == adj.Keys && g'.Keys == adj'.Keys && adj'.Keys == adj.Keys + {id}
    requires forall a | a in adj :: g'[a] == g[a]
    ensures OnlyRow(g, g', id)
  {
  }

  lemma MirrorKept(o: Observed, adj: AdjList, src: NodeId, newL: seq<LinkQuality>, oldL: seq<LinkQuality>, i: nat,
                   j: nat)
    requires i < |newL| && j < |oldL| && newL[i].neighbor == oldL[j].neighbor
    requires MergeMirrors(o, adj, src, newL, oldL, i, j)
    ensures MergeMirrors(o, adj, src, newL, oldL, i + 1, j + 1)
  {
    forall y ensures InPrefix(newL, i + 1, y) || Pending(oldL, j + 1, y) <==>
      InPrefix(newL, i, y) || Pending(oldL, j, y)
    {
      PrefixStep(newL, i, y);
      PendingStep(oldL, j, y);
    }
  }

  lemma MirrorAdded(o: Observed, adj: AdjList, src: NodeId, newL: seq<LinkQuality>, oldL: seq<LinkQuality>, i: nat,
                    j: nat)
    requires i < |newL| && MergeMirrors(o, adj, src, newL, oldL, i, j)
    ensures MergeMirrors(Apply(o, LinkAdded(src, newL[i].neighbor)), adj, src, newL, oldL, i + 1, j)
  {
    forall y ensures InPrefix(newL, i + 1, y) <==> InPrefix(newL, i, y) || y == newL[i].neighbor {
      PrefixStep(newL, i, y);
    }
  }

  lemma MirrorRemoved(o: Observed, adj: AdjList, src: NodeId, newL: seq<LinkQuality>, oldL: seq<LinkQuality>, i: nat,
                      j: nat)
    requires i <= |newL| && j < |oldL| && Sorted(oldL) && !InPrefix(newL, i, oldL[j].neighbor)
    requires MergeMirrors(o, adj, src, newL, oldL, i, j)
    ensures MergeMirrors(Apply(o, LinkRemoved(src, oldL[j].neighbor)), adj, src, newL, oldL, i, j + 1)
  {
    forall y ensures Pending(oldL, j, y) <==> Pending(oldL, j + 1, y) || y == oldL[j].neighbor {
      PendingStep(oldL, j, y);
    }
    assert !Pending(oldL, j + 1, oldL[j].neighbor);
  }

  lemma PrefixStep(ll: seq<LinkQuality>, i: nat, y: NodeId)
    requires i < |ll|
    ensures InPrefix(ll, i + 1, y) <==> InPrefix(ll, i, y) || y == ll[i].neighbor
  {
  }

  lemma PendingStep(ll: seq<LinkQuality>, j: nat, y: NodeId)
    requires j < |ll|
    ensures Pending(ll, j, y) <==> Pending(ll, j + 1, y) || y == ll[j].neighbor
  {
  }

  /** The routing fields of a new entry: identifiers start as zero, `distance` is
      not initialised (src/awds/Topology.h:133-151). */
  predicate Blank(d: NDescr) { d.prevHop == 0 && d.nextHop == 0 }

  /** Adding a node without links, or prolonging one, leaves all links alone. */
  ghost predicate Touched(adj: AdjList, adj': AdjList, b: NodeId) {
    && adj'.Keys == adj.Keys + {b}
    && (forall a | a in adj && a != b :: adj'[a] == adj[a])
    && (b in adj ==> && adj'[b] == adj[b].(nodeValidity := adj'[b].nodeValidity)
                     && adj[b].nodeValidity <= adj'[b].nodeValidity)
    && (b !in adj ==> adj'[b].linklist == [] && Blank(adj'[b]))
    && adj'[b].edgeValidity <= adj'[b].nodeValidity
  }

  lemma TouchedHas(adj: AdjList, adj': AdjList, b: NodeId)
    requires Touched(adj, adj', b)
    ensures b in adj' && adj'.Keys == adj.Keys + {b}
    ensures forall a | a in adj :: adj'[a].linklist == adj[a].linklist
  {
  }

  lemma TouchedLonger(adj: AdjList, adj1: AdjList, adj2: AdjList, b: NodeId, validity: int)
    requires Touched(adj, adj1, b) && b in adj1 && adj1[b].nodeValidity < validity
    requires adj2 == adj1[b := adj1[b].(nodeValidity := validity)]
    ensures Touched(adj, adj2, b)
  {
  }

  lemma MergeShapeParts(adj: AdjList, links: set<LinkQuality>, src: NodeId, newL: seq<LinkQuality>,
                        oldL: seq<LinkQuality>, i: nat, j: nat)
    requires MergeShape(adj, links, src, newL, oldL, i, j)
    ensures Shape(adj) && src in adj && adj[src].linklist == newL && i <= |newL| && j <= |oldL|
  {
  }

  lemma NotInNew(newL: seq<LinkQuality>, oldL: seq<LinkQuality>, i: nat, j: nat)
    requires Sorted(newL) && Sorted(oldL) && i <= |newL| && j < |oldL|
    requires forall k, m | 0 <= k < i && j <= m < |oldL| :: newL[k].neighbor < oldL[m].neighbor
    requires i == |newL| || oldL[j].neighbor < newL[i].neighbor
    ensures Find(newL, oldL[j].neighbor) == null && !InPrefix(newL, i, oldL[j].neighbor)
  {
    assert forall k | 0 <= k < i :: newL[k].neighbor < oldL[j].neighbor;
  }

  lemma TouchedKeeps(adj: AdjList, adj': AdjList, b: NodeId)
    requires Shape(adj) && Touched(adj, adj', b)
    ensures Shape(adj') && Prunes(adj, adj') && SameStored(adj, adj')
  {
  }

  function Infos(ll: seq<LinkQuality>): seq<LinkInfo> {
    seq(|ll|, i requires 0 <= i < |ll| => LinkInfo(ll[i].neighbor, ll[i].quality))
  }

  /** `adj'` has the nodes of `adj` with the same links, at least as valid, and
      otherwise only nodes without links. */
  ghost predicate Extends(adj: AdjList, adj': AdjList) {
    && adj.Keys <= adj'.Keys
    && (forall a | a in adj :: && adj'[a] == adj[a].(nodeValidity := adj'[a].nodeValidity)
                               && adj[a].nodeValidity <= adj'[a].nodeValidity)
    && (forall a | a in adj' && a !in adj :: adj'[a].linklist == [] && Blank(adj'[a]))
  }

  lemma ExtendsTouched(adj: AdjList, adj1: AdjList, adj2: AdjList, b: NodeId)
    requires Extends(adj, adj1) && Touched(adj1, adj2, b)
    ensures Extends(adj, adj2) && adj2.Keys == adj1.Keys + {b}
  {
  }

  /** How long an entry is valid: a new one for 100 milliseconds, and a prolonged
      one at least until `validity`. */
  ghost function Until(adj: AdjList, b: NodeId, prolong: bool, now: int, validity: int): int {
    var v := if b in adj then adj[b].nodeValidity else now + 100;
    if prolong && v < validity then validity else v
  }

  /** How long node `b` is valid after the entry of a link to it was looked up,
      and prolonged when the link is present. */
  ghost predicate Noted(adj: AdjList, adj': AdjList, b: NodeId, present: bool, now: int, validity: int) {
    && b in adj' && adj'[b].nodeValidity == Until(adj, b, present, now, validity)
    && (b !in adj ==> adj'[b].edgeValidity == now + 100)
    && (!present && b in adj ==> adj' == adj)
  }

  /** The validities once the links to `bs` have been prolonged. */
  ghost predicate Prolonged(adj: AdjList, adj': AdjList, bs: set<NodeId>, now: int, validity: int) {
    && (forall b | b in bs :: b in adj')
    && (forall a | a in adj' :: adj'[a].nodeValidity == Until(adj, a, a in bs, now, validity))
    && (forall a | a in adj' && a !in adj :: adj'[a].edgeValidity == now + 100)
    && (forall a | a in adj && a !in bs :: a in adj' && adj'[a] == adj[a])
  }

  lemma NotedNow(adj: AdjList, adj': AdjList, b: NodeId, prolong: bool, now: int, validity: int)
    requires b in adj' && adj'[b].nodeValidity == Until(adj, b, prolong, now, validity)
    requires b !in adj ==> adj'[b].edgeValidity == now + 100
    requires !prolong && b in adj ==> adj' == adj
    ensures Noted(adj, adj', b, prolong, now, validity)
  {
  }

  lemma UntilUnfold(adj: AdjList, b: NodeId, prolong: bool, now: int, validity: int)
    ensures var v := if b in adj then adj[b].nodeValidity else now + 100;
      Until(adj, b, prolong, now, validity) == if prolong && v < validity then validity else v
  {
  }

  lemma NotedFor(adj: AdjList, adj': AdjList, b: NodeId, present: bool, now: int, validity: int)
    requires Noted(adj, adj', b, present, now, if present then validity else now)
    ensures Noted(adj, adj', b, present, now, validity)
  {
  }

  lemma NothingProlonged(adj: AdjList, newL: seq<LinkQuality>, now: int, validity: int)
    ensures Prolonged(adj, adj, Neighbors(newL[..0]), now, validity)
  {
  }

  lemma ProlongedStep(adj: AdjList, adj1: AdjList, adj2: AdjList, newL: seq<LinkQuality>, i: nat, i': nat, b: NodeId,
                      now: int, validity: int)
    requires i <= i' <= i + 1 && i' <= |newL| && (i < i' ==> newL[i].neighbor == b)
    requires Extends(adj, adj1) && Prolonged(adj, adj1, Neighbors(newL[..i]), now, validity)
    requires Touched(adj1, adj2, b) && Noted(adj1, adj2, b, i < i', now, validity)
    ensures Prolonged(adj, adj2, Neighbors(newL[..i']), now, validity)
  {
    hide Neighbors;
    if i < i' { NeighborsStep(newL, i); }
  }

  lemma NeighborsStep(ll: seq<LinkQuality>, i: nat)
    requires i < |ll|
    ensures Neighbors(ll[..i + 1]) == Neighbors(ll[..i]) + {ll[i].neighbor}
  {
    assert ll[..i + 1] == ll[..i] + [ll[i]];
  }

  /** Agreement of two link lists as far as the merge has read them. */
  ghost predicate AgreeUpTo(newL: seq<LinkQuality>, oldL: seq<LinkQuality>, i: nat, j: nat)
    requires i <= |newL| && j <= |oldL|
  {
    i == j && forall k | 0 <= k < i :: newL[k].neighbor == oldL[k].neighbor && newL[k].quality == oldL[k].quality
  }

  lemma NothingMerged(adj: AdjList, newL: seq<LinkQuality>, oldL: seq<LinkQuality>)
    ensures Extends(adj, adj) && adj.Keys == adj.Keys + Neighbors(newL[..0]) + Neighbors(oldL[..0])
  {
  }

  /** The dirty flag as far as the merge has compared the lists. */
  ghost predicate Compared(newL: seq<LinkQuality>, oldL: seq<LinkQuality>, i: nat, j: nat, dirty0: bool, dirty: bool)
    requires i <= |newL| && j <= |oldL|
  {
    (dirty && Infos(newL) != Infos(oldL)) || (dirty == dirty0 && AgreeUpTo(newL, oldL, i, j))
  }

  lemma ComparedStep(newL: seq<LinkQuality>, oldL: seq<LinkQuality>, i: nat, j: nat, i': nat, j': nat,
                     dirty0: bool, dirty: bool, dirty': bool)
    requires i <= i' <= i + 1 && j <= j' <= j + 1 && i + j < i' + j' && i' <= |newL| && j' <= |oldL|
    requires i < i' && j < j' ==> newL[i].neighbor == oldL[j].neighbor
    requires i == i' || j == j' ==> i == |newL| || j == |oldL| || newL[i].neighbor != oldL[j].neighbor
    requires dirty' == (dirty || i == i' || j == j' || newL[i].quality != oldL[j].quality)
    requires Compared(newL, oldL, i, j, dirty0, dirty)
    ensures Compared(newL, oldL, i', j', dirty0, dirty')
  {
    hide Infos;
    if i == j && (i == i' || j == j' || newL[i].quality != oldL[j].quality) { DiffersAt(newL, oldL, i); }
  }

  lemma ComparedAll(newL: seq<LinkQuality>, oldL: seq<LinkQuality>, dirty0: bool, dirty: bool)
    requires Compared(newL, oldL, |newL|, |oldL|, dirty0, dirty)
    ensures dirty == (dirty0 || Infos(newL) != Infos(oldL))
  {
  }

  lemma NeighborsSteps(newL: seq<LinkQuality>, oldL: seq<LinkQuality>, i: nat, j: nat, i': nat, j': nat, b: NodeId)
    requires i <= i' <= i + 1 && j <= j' <= j + 1 && i + j < i' + j' && i' <= |newL| && j' <= |oldL|
    requires (i < i' ==> newL[i].neighbor == b) && (j < j' ==> oldL[j].neighbor == b)
    ensures Neighbors(newL[..i']) + Neighbors(oldL[..j']) == Neighbors(newL[..i]) + Neighbors(oldL[..j]) + {b}
  {
    if i < i' { NeighborsStep(newL, i); }
    if j < j' { NeighborsStep(oldL, j); }
  }

  lemma DiffersAt(newL: seq<LinkQuality>, oldL: seq<LinkQuality>, i: nat)
    requires i <= |newL| && i <= |oldL| && (i < |newL| || i < |oldL|)
    requires i < |newL| && i < |oldL| ==> newL[i].neighbor != oldL[i].neighbor || newL[i].quality != oldL[i].quality
    ensures Infos(newL) != Infos(oldL)
  {
    var a, b := Infos(newL), Infos(oldL);
    if |newL| == |oldL| {
      assert a[i] == LinkInfo(newL[i].neighbor, newL[i].quality) && b[i] == LinkInfo(oldL[i].neighbor, oldL[i].quality);
    }
  }

  /** The parsing loop of `feed`: one fresh entry per link of the packet
      (src/Topology.cc:350-369). */
  method ParseLinks(p: Packet) returns (ll: seq<LinkQuality>)
    requires p.Valid() && !LinksMissing(p)
    ensures fresh(set l | l in ll)
    ensures Infos(ll) == Links(p)
    ensures forall l | l in ll :: l.owner == Source(p)
  {
    ll := [];
    var n := p.buffer[OFF_NUM_LINKS];
    var addr := OFF_LINKS;
    for i := 0 to n
      invariant |ll| == i && addr == OFF_LINKS + LINK_SIZE * i
      invariant fresh(set l | l in ll)
      invariant forall k | 0 <= k < i :: LinkInfo(ll[k].neighbor, ll[k].quality) == LinkAt(p, k)
      invariant forall l | l in ll :: l.owner == Source(p)
    {
      var node := LoadId(p.buffer, addr);
      var q := LoadBytes(p.buffer, addr + ID_SIZE, 2);
      var l := new LinkQuality(Source(p), node, q);
      ll := ll + [l];
      addr := addr + LINK_SIZE;
    }
  }

  /** `linklist.resize(n)` on an empty list: default entries. */
  method DefaultLinks(n: nat, ghost owner: NodeId) returns (ll: seq<LinkQuality>)
    ensures fresh(set l | l in ll) && |ll| == n
    ensures forall l | l in ll :: l.metricWeight == 0 && l.owner == owner
  {
    ll := [];
    for i := 0 to n
      invariant |ll| == i && fresh(set l | l in ll)
      invariant forall l | l in ll :: l.metricWeight == 0 && l.owner == owner
    {
      var l := new LinkQuality(owner, 0, 0);
      ll := ll + [l];
    }
  }

  /** What merging packet `p` does to the nodes: the sender has the packet's
      links for the packet's validity, everybody else keeps theirs, and nodes
      that are only mentioned have none. */
  ghost predicate MergedFrom(adj: AdjList, adj': AdjList, p: Packet, now: int)
    requires p.Valid()
  {
    var src := Source(p);
    && src in adj' && Infos(adj'[src].linklist) == Links(p)
    && adj'[src].edgeValidity == now + Validity(p) <= adj'[src].nodeValidity
    && adj'[src].nodeName == NameAfter(p, if src in adj then adj[src].nodeName else [])
    && adj'.Keys == adj.Keys + {src} + LinkTargets(Links(p)) + (if src in adj then Neighbors(adj[src].linklist) else {})
    && (forall a | a in adj && a != src ::
          && adj'[a] == adj[a].(nodeValidity := adj'[a].nodeValidity)
          && adj[a].nodeValidity <= adj'[a].nodeValidity)
    && (forall a | a in adj' && a !in adj && a != src :: adj'[a].linklist == [])
    && (src in adj ==> SameRoute(adj[src], adj'[src]))
    && (forall a | a in adj' && a !in adj :: Blank(adj'[a]))
  }

  /** How long the nodes are valid after merging packet `p`. */
  ghost predicate MergedValid(adj: AdjList, adj': AdjList, p: Packet, now: int)
    requires p.Valid()
  {
    var src, targets := Source(p), LinkTargets(Links(p));
    && (forall b | b in targets :: b in adj')
    && (forall a | a in adj' ::
          adj'[a].nodeValidity == Until(adj, a, a == src || a in targets, now, now + Validity(p)))
    && (forall a | a in adj' && a !in adj && a != src :: adj'[a].edgeValidity == now + 100)
    && (forall a | a in adj && a != src && a !in targets :: a in adj' && adj'[a] == adj[a])
  }

  /** The sender's entry exists and is prolonged, nothing else changed. */
  ghost predicate SourceTouched(adj: AdjList, adj': AdjList, src: NodeId, now: int, validity: int) {
    && adj'.Keys == adj.Keys + {src}
    && adj'[src].edgeValidity == validity <= adj'[src].nodeValidity == Until(adj, src, true, now, validity)
    && (forall a | a in adj && a != src :: adj'[a] == adj[a])
    && adj'[src].linklist == (if src in adj then adj[src].linklist else [])
    && adj'[src].nodeName == (if src in adj then adj[src].nodeName else [])
    && (src in adj ==> adj[src].nodeValidity <= adj'[src].nodeValidity && SameRoute(adj[src], adj'[src]))
    && (src !in adj ==> Blank(adj'[src]))
  }

  /** The fields `calcRoutes` writes. */
  predicate SameRoute(d: NDescr, d': NDescr) {
    d'.distance == d.distance && d'.prevHop == d.prevHop && d'.nextHop == d.nextHop
  }

  lemma SourceProlonged(adj: AdjList, adj1: AdjList, adj': AdjList, src: NodeId, now: int, validity: int)
    requires src in adj1 && (src in adj ==> adj1 == adj)
    requires src !in adj ==> adj1 == adj[src := adj1[src]] && adj1[src].linklist == [] && adj1[src].nodeName == []
    requires src !in adj ==> Blank(adj1[src]) && adj1[src].nodeValidity == now + 100
    requires var d := adj1[src];
      adj' == adj1[src := d.(nodeValidity := if d.nodeValidity < validity then validity else d.nodeValidity,
                             edgeValidity := validity)]
    ensures SourceTouched(adj, adj', src, now, validity)
  {
  }

  lemma SourceIn(adj: AdjList, adj': AdjList, src: NodeId, now: int, validity: int)
    requires SourceTouched(adj, adj', src, now, validity)
    ensures src in adj'
    ensures Infos(adj'[src].linklist) == if src in adj then Infos(adj[src].linklist) else []
  {
    assert Infos([]) == [];
  }

  lemma MergedSteps(adj: AdjList, adj1: AdjList, adj2: AdjList, p: Packet, now: int, newL: seq<LinkQuality>)
    requires p.Valid()
    requires var src := Source(p);
      && SourceTouched(adj, adj1, src, now, now + Validity(p)) && Infos(newL) == Links(p) && src in adj1
      && Extends(adj1[src := adj1[src].(linklist := newL)], adj2)
      && adj2.Keys == adj1.Keys + Neighbors(newL) + Neighbors(adj1[src].linklist)
    ensures Source(p) in adj2
    ensures MergedFrom(adj,
        adj2[Source(p) := adj2[Source(p)].(nodeName := NameAfter(p, adj2[Source(p)].nodeName))], p, now)
  {
    hide Infos, Links, NameAfter, Neighbors, LinkTargets, Validity, Source;
    TargetsOfInfos(newL);
    NoNeighbors();
    var src := Source(p);
    var named := adj2[src := adj2[src].(nodeName := NameAfter(p, adj2[src].nodeName))];
    assert named.Keys == adj2.Keys;
    assert named[src].linklist == newL;
    forall a | a in adj && a != src
      ensures named[a] == adj[a].(nodeValidity := named[a].nodeValidity) && adj[a].nodeValidity <= named[a].nodeValidity
    {
      assert a in adj1[src := adj1[src].(linklist := newL)];
    }
  }

  // ---------------------------------------------------------------------
  // The graph after a merge

  /** The quality of the link back to `src` over an announced link. */
  ghost function BackQuality(adj: AdjList, src: NodeId, x: LinkInfo): Option<nat> {
    if x.neighbor == src then Some(x.quality) else QualityOf(Stored(adj, x.neighbor, src))
  }

  /** The weight of an announced link. */
  ghost function NewWeight(weigh: (nat, nat) -> nat, adj: AdjList, src: NodeId, x: LinkInfo): nat {
    Price(weigh, x.quality, BackQuality(adj, src, x))
  }

  /** The graph `g'` after the links of `src` became `links`: the announced links
      and their reverse links are priced anew, every other weight stays, even
      that of a link whose counterpart is gone. */
  ghost predicate Reweighed(weigh: (nat, nat) -> nat, adj: AdjList, g: Graph, g': Graph, src: NodeId,
                            links: seq<LinkInfo>) {
    && src in g' && g'[src].Keys == LinkTargets(links)
    && (forall x | x in links :: g'[src][x.neighbor] == NewWeight(weigh, adj, src, x))
    && (forall a | a in g && a != src :: a in g' && Repriced(g[a], g'[a], src, g'[src], a))
    && (forall a | a in g' && a !in g && a != src :: g'[a] == map[])
  }

  /** The links of node `a` before and after. */
  ghost predicate Repriced(m: map<NodeId, nat>, m': map<NodeId, nat>, src: NodeId, prices: map<NodeId, nat>,
                           a: NodeId) {
    && m'.Keys == m.Keys
    && forall b | b in m :: m'[b] == if b == src && a in prices then prices[a] else m[b]
  }

  /** The weights a graph was built from, link by link. */
  ghost predicate BuiltFrom(adj: AdjList, w: map<LinkQuality, nat>, g: Graph) {
    && g.Keys == adj.Keys
    && forall a | a in adj :: RowFrom(adj[a].linklist, w, g[a])
  }

  ghost predicate RowFrom(ll: seq<LinkQuality>, w: map<LinkQuality, nat>, row: map<NodeId, nat>) {
    && row.Keys == Neighbors(ll)
    && forall b | b in row :: Find(ll, b) != null && Find(ll, b) in w && row[b] == w[Find(ll, b)]
  }

  /** The lists after a merge: those of before but for `src`, and empty ones. */
  ghost predicate ListsReplaced(adj: AdjList, adj': AdjList, src: NodeId, newL: seq<LinkQuality>) {
    && src in adj' && adj'[src].linklist == newL
    && (forall a | a in adj && a != src :: a in adj' && adj'[a].linklist == adj[a].linklist)
    && (forall a | a in adj' && a !in adj && a != src :: adj'[a].linklist == [])
  }

  lemma ReplacedBack(adj: AdjList, adj': AdjList, src: NodeId, newL: seq<LinkQuality>, l: LinkQuality)
    requires ListsReplaced(adj, adj', src, newL) && Sorted(newL) && l in newL
    ensures QualityOf(Stored(adj', l.neighbor, src)) == BackQuality(adj, src, LinkInfo(l.neighbor, l.quality))
  {
    FindStored(newL, l);
  }

  lemma NewRow(weigh: (nat, nat) -> nat, adj: AdjList, adj': AdjList, src: NodeId, newL: seq<LinkQuality>,
               links: seq<LinkInfo>, row: map<NodeId, nat>)
    requires ListsReplaced(adj, adj', src, newL) && Sorted(newL) && links == Infos(newL) && row == LinkWeights(newL)
    requires PricedUpTo(weigh, adj', src, newL, |newL|)
    ensures row.Keys == LinkTargets(links)
    ensures forall x | x in links :: row[x.neighbor] == NewWeight(weigh, adj, src, x)
  {
    TargetsOfInfos(newL);
    forall x | x in links ensures x.neighbor in row && row[x.neighbor] == NewWeight(weigh, adj, src, x) {
      var k :| 0 <= k < |links| && links[k] == x;
      assert newL[k] in newL;
      FindStored(newL, newL[k]);
      ReplacedBack(adj, adj', src, newL, newL[k]);
      assert PricedAt(weigh, adj', src, newL[k]);
    }
  }

  /** A linked pair is reweighed together. */
  lemma PairEntry(adj: AdjList, all: set<LinkQuality>, src: NodeId, newL: seq<LinkQuality>, a: NodeId, l: LinkQuality)
    requires src in adj && adj[src].linklist == newL && Within(adj, all) && WeightsOk(adj, all)
    requires a in Neighbors(newL) && l == Stored(adj, a, src)
    ensures Find(newL, a) != null && l.metricWeight == Find(newL, a).metricWeight
  {
    var k := Find(newL, a);
    assert k in adj[src].linklist && Balanced(adj, src, k);
  }

  lemma OtherEntry(src: NodeId, newL: seq<LinkQuality>, l: LinkQuality, w: map<LinkQuality, nat>)
    requires l in w && l !in newL && !(l.neighbor == src && l.owner in Neighbors(newL))
    requires forall l | l in w && Bystander(src, newL, |newL|, l) :: l.metricWeight == w[l]
    ensures l.metricWeight == w[l]
  {
    assert Bystander(src, newL, |newL|, l);
  }

  lemma OwnerOf(adj: AdjList, a: NodeId, l: LinkQuality)
    requires Shape(adj) && a in adj && l in adj[a].linklist
    ensures l.owner == a
  {
  }

  lemma OtherRow(adj: AdjList, adj': AdjList, all: set<LinkQuality>, src: NodeId, newL: seq<LinkQuality>, a: NodeId,
                 w: map<LinkQuality, nat>, row: map<NodeId, nat>, row': map<NodeId, nat>)
    requires ListsReplaced(adj, adj', src, newL) && Shape(adj') && Within(adj', all) && WeightsOk(adj', all)
    requires a in adj && a != src && RowFrom(adj[a].linklist, w, row) && row' == LinkWeights(adj[a].linklist)
    requires forall l | l in w && Bystander(src, newL, |newL|, l) :: l.metricWeight == w[l]
    requires forall l | l in w :: l !in newL
    ensures Repriced(row, row', src, LinkWeights(newL), a)
  {
    hide Shape, WeightsOk, Within, Bystander, Find;
    var ll := adj[a].linklist;
    forall b | b in row ensures row'[b] == if b == src && a in Neighbors(newL) then LinkWeights(newL)[a] else row[b] {
      var l := Find(ll, b);
      OwnerOf(adj', a, l);
      if b == src && a in Neighbors(newL) {
        PairEntry(adj', all, src, newL, a, l);
      } else {
        OtherEntry(src, newL, l, w);
      }
    }
  }

  lemma MergedGraph(weigh: (nat, nat) -> nat, adj: AdjList, adj': AdjList, all: set<LinkQuality>, src: NodeId,
                    newL: seq<LinkQuality>, w: map<LinkQuality, nat>, g: Graph, g': Graph)
    requires ListsReplaced(adj, adj', src, newL) && Sorted(newL)
    requires Shape(adj') && Within(adj', all) && WeightsOk(adj', all)
    requires BuiltFrom(adj, w, g) && g' == map a | a in adj' :: LinkWeights(adj'[a].linklist)
    requires PricedUpTo(weigh, adj', src, newL, |newL|)
    requires forall l | l in w && Bystander(src, newL, |newL|, l) :: l.metricWeight == w[l]
    requires forall l | l in w :: l !in newL
    ensures Reweighed(weigh, adj, g, g', src, Infos(newL))
  {
    hide PricedUpTo, Shape, WeightsOk, Within, Bystander, RowFrom, LinkWeights, Repriced, Infos;
    NewRow(weigh, adj, adj', src, newL, Infos(newL), g'[src]);
    forall a | a in g && a != src ensures Repriced(g[a], g'[a], src, g'[src], a) {
      assert RowFrom(adj[a].linklist, w, g[a]);
      OtherRow(adj, adj', all, src, newL, a, w, g[a], g'[a]);
    }
    EmptyRow();
  }

  lemma ReplacedLists(adj: AdjList, adj': AdjList, src: NodeId, newL: seq<LinkQuality>)
    requires src in adj && Extends(adj[src := adj[src].(linklist := newL)], adj')
    ensures ListsReplaced(adj, adj', src, newL)
  {
    var adj1 := adj[src := adj[src].(linklist := newL)];
    assert src in adj1 && forall a | a in adj :: a in adj1;
  }

  /** The graph after `feed`: the sender's links are priced anew, the links of
      nodes that keep theirs as in `Reweighed`. */
  ghost predicate GraphFed(weigh: (nat, nat) -> nat, adj: AdjList, adj': AdjList, g: Graph, g': Graph, src: NodeId,
                           links: seq<LinkInfo>)
  {
    && g.Keys == adj.Keys && g'.Keys == adj'.Keys && src in g' && g'[src].Keys == LinkTargets(links)
    && (forall x | x in links :: g'[src][x.neighbor] == NewWeight(weigh, adj, src, x))
    && (forall a | a in adj && a in adj' && a != src && adj'[a].linklist == adj[a].linklist ::
          Repriced(g[a], g'[a], src, g'[src], a))
  }

  /** Which qualities a link is priced from: the announced one and that of the
      stored link back. Both directions get the weight, limited to 0x3F_FFFF, which
      is also the weight without a link back. */
  lemma PairWeights(weigh: (nat, nat) -> nat, adj: AdjList, adj': AdjList, g: Graph, g': Graph, src: NodeId,
                    links: seq<LinkInfo>, x: LinkInfo)
    requires GraphFed(weigh, adj, adj', g, g', src, links) && RowsOf(adj, g) && x in links && x.neighbor != src
    ensures var b := x.neighbor; var back := Stored(adj, b, src);
      && src in g' && b in g'[src]
      && (back == null ==> g'[src][b] == 0x3F_FFFF)
      && (back != null ==>
            var w := weigh(x.quality, back.quality); g'[src][b] == if w < 0x3F_FFFF then w else 0x3F_FFFF)
      && (back != null && b in adj' && adj'[b].linklist == adj[b].linklist ==>
            b in g' && src in g'[b] && g'[b][src] == g'[src][b])
  {
    var b := x.neighbor;
    if Stored(adj, b, src) != null && b in adj' && adj'[b].linklist == adj[b].linklist {
      assert Repriced(g[b], g'[b], src, g'[src], b);
    }
  }

  /** Expiry empties rows and leaves the others as they are. */
  lemma GraphFedFrom(weigh: (nat, nat) -> nat, adj: AdjList, adj1: AdjList, adj': AdjList, g: Graph, g1: Graph,
                     g': Graph, p: Packet, now: int)
    requires p.Valid() && Reweighed(weigh, adj, g, g1, Source(p), Links(p)) && MergedFrom(adj, adj1, p, now)
    requires RowsOf(adj, g) && g1.Keys == adj1.Keys && g'.Keys == adj'.Keys && adj'.Keys <= adj1.Keys
    requires FedFrom(adj, adj', p, now) && adj'[Source(p)].linklist == adj1[Source(p)].linklist
    requires forall a | a in adj' && adj'[a].linklist == adj1[a].linklist :: g'[a] == g1[a]
    ensures GraphFed(weigh, adj, adj', g, g', Source(p), Links(p))
  {
    hide Links, NameAfter, Infos, Value, Repriced, LinkTargets, Neighbors, NewWeight;
    var src := Source(p);
    forall a | a in adj && a in adj' && a != src && adj'[a].linklist == adj[a].linklist
      ensures Repriced(g[a], g'[a], src, g'[src], a)
    {
      assert adj1[a].linklist == adj[a].linklist;
    }
  }

  lemma SurvivingLists(adj1: AdjList, adj2: AdjList, p: Packet, adj: AdjList, now: int)
    requires p.Valid() && MergedFrom(adj, adj1, p, now) && Validity(p) > 0
    requires adj2 == adj1 || SameLinks(Survivors(adj1, adj1.Keys, now), adj2)
    ensures adj2.Keys <= adj1.Keys && Source(p) in adj2 && adj2[Source(p)].linklist == adj1[Source(p)].linklist
  {
    hide Links, NameAfter, Infos, Value;
  }

  /** Only the row of `src` may differ, or be new. */
  ghost predicate OnlyRow(g: Graph, g': Graph, src: NodeId) {
    g'.Keys == g.Keys + {src} && forall a | a in g && a != src :: g'[a] == g[a]
  }

  lemma ReweighedFromTouched(weigh: (nat, nat) -> nat, adj: AdjList, adj1: AdjList, g: Graph, g1: Graph, g': Graph,
                             src: NodeId, now: int, validity: int, links: seq<LinkInfo>)
    requires SourceTouched(adj, adj1, src, now, validity) && OnlyRow(g, g1, src)
    requires Reweighed(weigh, adj1, g1, g', src, links)
    ensures Reweighed(weigh, adj, g, g', src, links)
  {
    hide Repriced, LinkTargets;
    forall x | x in links ensures NewWeight(weigh, adj, src, x) == NewWeight(weigh, adj1, src, x) {
      assert Stored(adj1, x.neighbor, src) == Stored(adj, x.neighbor, src) || x.neighbor == src;
    }
  }

  /** The stored routes agree with the weights that a repeated announcement of
      `links` by `src` gives: every announced neighbour is a known node, and the
      reweighed links fit the distances in both directions. */
  ghost predicate StillFits(weigh: (nat, nat) -> nat, adj: AdjList, me: NodeId, src: NodeId, links: seq<LinkInfo>) {
    src in adj && forall x | x in links :: LinkFits(weigh, adj, me, src, x)
  }

  ghost predicate LinkFits(weigh: (nat, nat) -> nat, adj: AdjList, me: NodeId, src: NodeId, x: LinkInfo)
    requires src in adj
  {
    var b, w := x.neighbor, NewWeight(weigh, adj, src, x);
    && b in adj
    && EdgeFits(me, Dist(adj), Prev(adj), UINT_MAX, src, b, w)
    && (Stored(adj, b, src) != null ==> EdgeFits(me, Dist(adj), Prev(adj), UINT_MAX, b, src, w))
  }

  ghost function TouchedLinks(src: NodeId, links: seq<LinkInfo>): set<(NodeId, NodeId)> {
    (set x | x in links :: (src, x.neighbor)) + (set x | x in links :: (x.neighbor, src))
  }

  /** The rows of a graph hold the stored links. */
  ghost predicate RowsOf(adj: AdjList, g: Graph) {
    g.Keys == adj.Keys && forall a | a in adj :: g[a].Keys == Neighbors(adj[a].linklist)
  }

  lemma RowHas(adj: AdjList, g: Graph, a: NodeId, b: NodeId)
    requires RowsOf(adj, g) && a in adj
    ensures b in g[a] <==> Stored(adj, a, b) != null
  {
    if b in g[a] { var l :| l in adj[a].linklist && l.neighbor == b; }
  }

  lemma TargetTouched(src: NodeId, links: seq<LinkInfo>, b: NodeId)
    ensures b in LinkTargets(links) ==> (src, b) in TouchedLinks(src, links) && (b, src) in TouchedLinks(src, links)
  {
    if b in LinkTargets(links) {
      var x :| x in links && x.neighbor == b;
    }
  }

  lemma RepeatedEdges(weigh: (nat, nat) -> nat, adj: AdjList, g: Graph, g': Graph, src: NodeId, links: seq<LinkInfo>)
    requires Reweighed(weigh, adj, g, g', src, links) && RowsOf(adj, g) && src in adj && g'.Keys == g.Keys
    requires g[src].Keys == LinkTargets(links)
    ensures SameEdges(g, g')
    ensures forall u: NodeId, v: NodeId | Edge(g, u, v) && (u, v) !in TouchedLinks(src, links) ::
      Weight(g', u, v) == Weight(g, u, v)
  {
    forall u: NodeId, v: NodeId | Edge(g, u, v) && (u, v) !in TouchedLinks(src, links)
      ensures Weight(g', u, v) == Weight(g, u, v)
    {
      TargetTouched(src, links, u);
      TargetTouched(src, links, v);
      assert u == src || Repriced(g[u], g'[u], src, g'[src], u);
    }
  }

  lemma RepeatedFits(weigh: (nat, nat) -> nat, adj: AdjList, g: Graph, g': Graph, me: NodeId, src: NodeId,
                     links: seq<LinkInfo>)
    requires Reweighed(weigh, adj, g, g', src, links) && RowsOf(adj, g) && src in adj && g'.Keys == g.Keys
    requires g[src].Keys == LinkTargets(links) && LinkTargets(links) <= adj.Keys
    ensures TouchedFit(g', me, Dist(adj), Prev(adj), UINT_MAX, TouchedLinks(src, links)) <==>
      forall x | x in links :: LinkFits(weigh, adj, me, src, x)
  {
    hide EdgeFits, NewWeight;
    var dist, prev := Dist(adj), Prev(adj);
    forall x | x in links
      ensures Edge(g', src, x.neighbor) && Weight(g', src, x.neighbor) == NewWeight(weigh, adj, src, x)
      ensures Edge(g', x.neighbor, src) <==> Stored(adj, x.neighbor, src) != null
      ensures Edge(g', x.neighbor, src) ==> Weight(g', x.neighbor, src) == NewWeight(weigh, adj, src, x)
    {
      RowHas(adj, g, x.neighbor, src);
      assert x.neighbor in LinkTargets(links);
      if x.neighbor != src { assert Repriced(g[x.neighbor], g'[x.neighbor], src, g'[src], x.neighbor); }
    }
    if TouchedFit(g', me, dist, prev, UINT_MAX, TouchedLinks(src, links)) {
      forall x | x in links ensures LinkFits(weigh, adj, me, src, x) {
        assert (src, x.neighbor) in TouchedLinks(src, links) && (x.neighbor, src) in TouchedLinks(src, links);
      }
    }
  }

  /** A repeated announcement keeps exact routes exact if and only if the new
      weights fit them. */
  lemma RepeatedRoutes(weigh: (nat, nat) -> nat, adj: AdjList, adj': AdjList, g: Graph, g': Graph, me: NodeId,
                       src: NodeId, links: seq<LinkInfo>)
    requires Routed(g, me, Dist(adj), Prev(adj), UINT_MAX, NextHops(adj)) && Positive(g')
    requires RowsOf(adj, g) && g'.Keys == adj'.Keys && Reweighed(weigh, adj, g, g', src, links)
    requires if src in adj then g[src].Keys == LinkTargets(links) else links == []
    requires adj'.Keys == adj.Keys + {src} + LinkTargets(links)
    requires forall a | a in adj :: SameRoute(adj[a], adj'[a])
    requires forall a | a in adj' && a !in adj :: Blank(adj'[a])
    ensures adj'.Keys == adj.Keys || 0 !in adj' ==>
      (Routed(g', me, Dist(adj'), Prev(adj'), UINT_MAX, NextHops(adj')) <==> StillFits(weigh, adj, me, src, links))
  {
    hide Reweighed, Routed, Positive, StillFits, RowsOf, LinkTargets;
    if v :| v in adj' && v !in adj {
      KnowsSelf(g, me, adj) by { assert g.Keys == adj.Keys by { RowKeys(adj, g); } }
      if 0 !in adj' { NewNodeMissed(adj', g', me, v); }
      UnknownDoesNotFit(weigh, adj, me, src, links, v);
    } else {
      assert adj'.Keys == adj.Keys;
      SameRoutes(adj, adj');
      RepeatedKnown(weigh, adj, g, g', me, src, links) by { RowKeys(adj, g); }
    }
  }

  lemma RowKeys(adj: AdjList, g: Graph)
    requires RowsOf(adj, g)
    ensures g.Keys == adj.Keys
  {
  }

  lemma KnowsSelf(g: Graph, me: NodeId, adj: AdjList)
    requires Routed(g, me, Dist(adj), Prev(adj), UINT_MAX, NextHops(adj)) && g.Keys == adj.Keys
    ensures me in adj
  {
    hide FirstHop;
  }

  lemma SameRoutes(adj: AdjList, adj': AdjList)
    requires adj'.Keys == adj.Keys && forall a | a in adj :: SameRoute(adj[a], adj'[a])
    ensures Dist(adj') == Dist(adj) && Prev(adj') == Prev(adj) && NextHops(adj') == NextHops(adj)
  {
  }

  lemma RepeatedKnown(weigh: (nat, nat) -> nat, adj: AdjList, g: Graph, g': Graph, me: NodeId, src: NodeId,
                      links: seq<LinkInfo>)
    requires Routed(g, me, Dist(adj), Prev(adj), UINT_MAX, NextHops(adj)) && Positive(g')
    requires RowsOf(adj, g) && g'.Keys == g.Keys && Reweighed(weigh, adj, g, g', src, links)
    requires src in adj && g[src].Keys == LinkTargets(links) && LinkTargets(links) <= adj.Keys
    ensures Routed(g', me, Dist(adj), Prev(adj), UINT_MAX, NextHops(adj)) <==> StillFits(weigh, adj, me, src, links)
  {
    hide Reweighed, FirstHop, TouchedFit, Positive, LinkFits, ShortestPathTree, LinkTargets, TouchedLinks, SameEdges;
    RepeatedEdges(weigh, adj, g, g', src, links);
    RoutedSurvives(g, g', me, Dist(adj), Prev(adj), UINT_MAX, NextHops(adj), TouchedLinks(src, links));
    RepeatedFits(weigh, adj, g, g', me, src, links);
  }

  /** A new entry cannot be part of exact routes, whatever its distance says. */
  lemma NewNodeMissed(adj: AdjList, g: Graph, me: NodeId, v: NodeId)
    requires v in adj && v != me && Blank(adj[v]) && 0 !in adj && g.Keys == adj.Keys
    ensures !Routed(g, me, Dist(adj), Prev(adj), UINT_MAX, NextHops(adj))
  {
    if Routed(g, me, Dist(adj), Prev(adj), UINT_MAX, NextHops(adj)) {
      BlankRoute(g, me, Dist(adj), Prev(adj), UINT_MAX, NextHops(adj), v);
      assert false;
    }
  }

  lemma UnknownDoesNotFit(weigh: (nat, nat) -> nat, adj: AdjList, me: NodeId, src: NodeId, links: seq<LinkInfo>,
                          v: NodeId)
    requires v !in adj && (v == src || v in LinkTargets(links))
    ensures !StillFits(weigh, adj, me, src, links)
  {
    if v != src && src in adj {
      var x :| x in links && x.neighbor == v;
      assert !LinkFits(weigh, adj, me, src, x);
    }
  }

  lemma NoTargets()
    ensures LinkTargets([]) == {}
  {
  }

  lemma EmptyRow()
    ensures LinkWeights([]) == map[]
  {
    NoNeighbors();
  }

  lemma MergedValidities(adj: AdjList, adj1: AdjList, adj2: AdjList, adj': AdjList, p: Packet, now: int,
                         newL: seq<LinkQuality>, validity: int)
    requires p.Valid() && Source(p) in adj1 && Source(p) in adj2 && validity == now + Validity(p)
    requires SourceTouched(adj, adj1, Source(p), now, validity) && Infos(newL) == Links(p)
    requires Prolonged(adj1[Source(p) := adj1[Source(p)].(linklist := newL)], adj2, Neighbors(newL), now, validity)
    requires adj' == adj2[Source(p) := adj2[Source(p)].(nodeName := NameAfter(p, adj2[Source(p)].nodeName))]
    ensures MergedValid(adj, adj', p, now)
  {
    hide Infos, Links, NameAfter, LinkTargets, Neighbors, Validity, Source, Prolonged;
    TargetsOfInfos(newL);
    var src := Source(p);
    var swapped := adj1[src := adj1[src].(linklist := newL)];
    assert forall a | a in adj && a != src :: a in swapped && swapped[a] == adj[a];
    assert swapped.Keys == adj.Keys + {src};
    assert swapped[src].nodeValidity == Until(adj, src, true, now, validity);
    ProlongedKept(adj, swapped, adj2, adj', src, Neighbors(newL), now, validity);
  }

  /** What is known of validities does not depend on the sender's name and list. */
  lemma ProlongedKept(adj: AdjList, swapped: AdjList, adj2: AdjList, adj': AdjList, src: NodeId, bs: set<NodeId>,
                      now: int, validity: int)
    requires swapped.Keys == adj.Keys + {src} && forall a | a in adj && a != src :: swapped[a] == adj[a]
    requires Prolonged(swapped, adj2, bs, now, validity) && src in adj2 && src in adj'
    requires adj' == adj2[src := adj2[src].(nodeName := adj'[src].nodeName)]
    requires swapped[src].nodeValidity == Until(adj, src, true, now, validity)
    ensures forall b | b in bs :: b in adj'
    ensures forall a | a in adj' ::
      adj'[a].nodeValidity == Until(adj, a, a == src || a in bs, now, validity)
    ensures forall a | a in adj' && a !in adj && a != src :: adj'[a].edgeValidity == now + 100
    ensures forall a | a in adj && a != src && a !in bs :: a in adj' && adj'[a] == adj[a]
  {
  }

  lemma MergedFacts(adj: AdjList, adj': AdjList, p: Packet, now: int)
    requires p.Valid() && MergedFrom(adj, adj', p, now)
    requires Links(p) == if Source(p) in adj then Infos(adj[Source(p)].linklist) else []
    ensures adj'.Keys == adj.Keys + {Source(p)} + LinkTargets(Links(p))
    ensures Source(p) in adj ==> Neighbors(adj[Source(p)].linklist) == LinkTargets(Links(p))
    ensures forall a | a in adj :: SameRoute(adj[a], adj'[a])
    ensures forall a | a in adj' && a !in adj :: Blank(adj'[a])
  {
    hide Infos, Links, NameAfter, LinkTargets, Neighbors, Validity;
    if Source(p) in adj { TargetsOfInfos(adj[Source(p)].linklist); }
    NoTargets();
  }

  /** The own node is there after merging `p` and the expiry that follows, as
      `calcRoutes` asserts (src/Topology.cc:674): it sent the packet, is announced
      in it, is still valid, or is looked up again for a link that is gone. */
  predicate SelfPresent(adj: AdjList, me: NodeId, src: NodeId, links: seq<LinkInfo>, now: int) {
    || me == src
    || me in LinkTargets(links)
    || (if me in adj then adj[me].nodeValidity > now else src in adj && me in Neighbors(adj[src].linklist))
  }

  /** This is exactly when the merge leaves the own node valid. */
  lemma SelfPresentExact(adj: AdjList, adj': AdjList, me: NodeId, p: Packet, now: int)
    requires p.Valid() && MergedFrom(adj, adj', p, now) && MergedValid(adj, adj', p, now) && Validity(p) > 0
    ensures SelfPresent(adj, me, Source(p), Links(p), now) <==> me in adj' && adj'[me].nodeValidity > now
  {
    hide Infos, Links, NameAfter, LinkTargets, Neighbors, Validity;
  }

  lemma NoNeighbors()
    ensures Neighbors([]) == {}
  {
  }

  function LinkTargets(s: seq<LinkInfo>): set<NodeId> {
    set x | x in s :: x.neighbor
  }

  lemma MirrorsAtEnd(o: Observed, adj: AdjList, src: NodeId, newL: seq<LinkQuality>, oldL: seq<LinkQuality>)
    requires src in adj && adj[src].linklist == newL && MergeMirrors(o, adj, src, newL, oldL, |newL|, |oldL|)
    ensures Mirrors(o, adj)
  {
    forall y ensures Stored(adj, src, y) != null <==> InPrefix(newL, |newL|, y) {
      var r := Find(newL, y);
    }
  }

  lemma TargetsOfInfos(ll: seq<LinkQuality>)
    ensures LinkTargets(Infos(ll)) == Neighbors(ll)
  {
    forall x | x in Neighbors(ll) ensures x in LinkTargets(Infos(ll)) {
      var l :| l in ll && l.neighbor == x;
      var i :| 0 <= i < |ll| && ll[i] == l;
      assert Infos(ll)[i] in Infos(ll);
    }
    forall x | x in LinkTargets(Infos(ll)) ensures x in Neighbors(ll) {
      var y :| y in Infos(ll) && y.neighbor == x;
      var i :| 0 <= i < |ll| && Infos(ll)[i] == y;
      assert ll[i] in ll;
    }
  }

  lemma SortedInfos(ll: seq<LinkQuality>, s: seq<LinkInfo>)
    requires Infos(ll) == s && StrictlyOrdered(s)
    ensures Sorted(ll)
  {
    forall i, j | 0 <= i < j < |ll| ensures ll[i].neighbor < ll[j].neighbor {
      assert s[i] == LinkInfo(ll[i].neighbor, ll[i].quality) && s[j] == LinkInfo(ll[j].neighbor, ll[j].quality);
    }
  }

  /** What expiry leaves; a locked database is left alone. */
  ghost function Expired(adj: AdjList, locked: bool, now: int): AdjList {
    if locked then adj else Survivors(adj, adj.Keys, now)
  }

  /** Expiry at `now` leaves the own node, and for every other remaining node that
      is reached, its predecessor with its links. */
  ghost predicate RoutesOutlive(adj: AdjList, me: NodeId, now: int) {
    && me in adj && adj[me].nodeValidity > now
    && forall v | v in adj && v != me && adj[v].nodeValidity > now && adj[v].distance < UINT_MAX ::
         Outlives(adj, adj[v].prevHop, now)
  }

  ghost predicate Outlives(adj: AdjList, u: NodeId, now: int) {
    u in adj && adj[u].nodeValidity > now && adj[u].edgeValidity > now
  }

  /** Exact routes stay exact over an expiry if and only if the tree outlives it. */
  lemma ExpiredRoutes(adj: AdjList, adj': AdjList, g: Graph, g': Graph, me: NodeId, now: int)
    requires Routed(g, me, Dist(adj), Prev(adj), UINT_MAX, NextHops(adj)) && RowsOf(adj, g) && RowsOf(adj', g')
    requires adj' == Survivors(adj, adj.Keys, now)
    requires forall a | a in adj' && adj'[a].linklist == adj[a].linklist :: g'[a] == g[a]
    ensures Routed(g', me, Dist(adj'), Prev(adj'), UINT_MAX, NextHops(adj')) <==> RoutesOutlive(adj, me, now)
  {
    hide *;
    ExpiredRows(adj, adj', g, g', now);
    ExpiredMaps(adj, adj', g', now);
    PrunedRoutes(g, g', me, Dist(adj), Prev(adj), UINT_MAX, NextHops(adj));
    TreeOutlives(adj, adj', g, g', me, now);
  }

  lemma ExpiredMaps(adj: AdjList, adj': AdjList, g': Graph, now: int)
    requires adj' == Survivors(adj, adj.Keys, now) && RowsOf(adj', g')
    ensures Dist(adj') == Restrict(Dist(adj), g'.Keys) && Prev(adj') == Restrict(Prev(adj), g'.Keys)
    ensures NextHops(adj') == Restrict(NextHops(adj), g'.Keys)
  {
  }

  lemma ExpiredRows(adj: AdjList, adj': AdjList, g: Graph, g': Graph, now: int)
    requires RowsOf(adj, g) && RowsOf(adj', g') && adj' == Survivors(adj, adj.Keys, now)
    requires forall a | a in adj' && adj'[a].linklist == adj[a].linklist :: g'[a] == g[a]
    ensures PrunedTo(g, g')
  {
    hide Neighbors;
    NoNeighbors();
    forall a | a in g' ensures g'[a] == g[a] || g'[a] == map[] {
      if adj'[a].linklist != adj[a].linklist { assert g'[a].Keys == {}; }
    }
  }

  lemma TreeOutlives(adj: AdjList, adj': AdjList, g: Graph, g': Graph, me: NodeId, now: int)
    requires Routed(g, me, Dist(adj), Prev(adj), UINT_MAX, NextHops(adj)) && RowsOf(adj, g) && RowsOf(adj', g')
    requires adj' == Survivors(adj, adj.Keys, now)
    requires forall a | a in adj' && adj'[a].linklist == adj[a].linklist :: g'[a] == g[a]
    ensures TreeKept(g', me, Dist(adj), Prev(adj), UINT_MAX) <==> RoutesOutlive(adj, me, now)
  {
    hide FirstHop, Neighbors;
    forall v | v in g' && v != me && adj[v].distance < UINT_MAX
      ensures Edge(g', adj[v].prevHop, v) <==> Outlives(adj, adj[v].prevHop, now)
    {
      EdgeOutlives(adj, adj', g, g', me, now, v);
    }
  }

  lemma EdgeOutlives(adj: AdjList, adj': AdjList, g: Graph, g': Graph, me: NodeId, now: int, v: NodeId)
    requires Routed(g, me, Dist(adj), Prev(adj), UINT_MAX, NextHops(adj)) && RowsOf(adj, g) && RowsOf(adj', g')
    requires adj' == Survivors(adj, adj.Keys, now)
    requires forall a | a in adj' && adj'[a].linklist == adj[a].linklist :: g'[a] == g[a]
    requires v in g' && v != me && adj[v].distance < UINT_MAX
    ensures Edge(g', adj[v].prevHop, v) <==> Outlives(adj, adj[v].prevHop, now)
  {
    hide FirstHop, Neighbors;
    assert Hangs(g, me, Dist(adj), Prev(adj), UINT_MAX, v);
    NoNeighbors();
  }

  lemma SelfSurvives(adj: AdjList, me: NodeId, now: int)
    ensures me in Survivors(adj, adj.Keys, now) <==> me in adj && adj[me].nodeValidity > now
  {
  }

  lemma SourceMerged(adj: AdjList, adj': AdjList, p: Packet, now: int)
    requires p.Valid() && MergedFrom(adj, adj', p, now)
    ensures Source(p) in adj'
  {
  }

  lemma SurvivorsShrink(adj: AdjList, me: NodeId, now: int)
    requires me in adj && adj[me].nodeValidity > now
    ensures me in Survivors(adj, adj.Keys, now)
    ensures |Survivors(adj, adj.Keys, now).Keys| <= |adj.Keys|
  {
    SubsetSize(Survivors(adj, adj.Keys, now).Keys, adj.Keys);
  }

  /** The database after `feed`: the sender has the packet's links and name, a
      node whose edges are still valid has its former links, any other node has
      its former ones or, when they expired, none; nodes come only from the
      packet and from before. */
  ghost predicate FedFrom(adj: AdjList, adj': AdjList, p: Packet, now: int)
    requires p.Valid()
  {
    var src := Source(p);
    && src in adj' && Infos(adj'[src].linklist) == Links(p)
    && adj'[src].nodeName == NameAfter(p, if src in adj then adj[src].nodeName else [])
    && now + Validity(p) == adj'[src].edgeValidity <= adj'[src].nodeValidity
    && (forall a | a in adj && a != src && adj[a].edgeValidity > now && adj[a].nodeValidity > now ::
          && a in adj' && adj'[a].linklist == adj[a].linklist
          && adj'[a].edgeValidity == adj[a].edgeValidity && adj'[a].nodeValidity >= adj[a].nodeValidity)
    && (forall a | a in adj' && a != src ::
          adj'[a].linklist == [] || (a in adj && adj'[a].linklist == adj[a].linklist))
    && adj'.Keys <= adj.Keys + {src} + LinkTargets(Links(p)) + (if src in adj then Neighbors(adj[src].linklist) else {})
    && ValidFed(adj, adj', src, LinkTargets(Links(p)), now, now + Validity(p))
  }

  /** The validities after `feed`: the sender `src` and the nodes it announces are
      valid until the later of their former validity, 100 milliseconds for new
      nodes, and the packet's; the others as before. Only nodes whose validity is
      over are missing. */
  ghost predicate ValidFed(adj: AdjList, adj': AdjList, src: NodeId, targets: set<NodeId>, now: int, validity: int) {
    && (forall a | a in adj' && a !in adj && a != src :: adj'[a].edgeValidity == now + 100)
    && (forall a | a in adj' :: LaterOf(adj'[a].nodeValidity, if a in adj then adj[a].nodeValidity else now + 100,
                                        validity, a == src || a in targets))
    && (forall a | a in adj && a !in adj' :: adj[a].nodeValidity <= now && a !in targets)
    && (forall a | a in targets :: a in adj')
  }

  /** `v` is the later of `v0` and `v1`, or `v0` if `v1` does not apply. */
  ghost predicate LaterOf(v: int, v0: int, v1: int, applies: bool) {
    if applies then v >= v0 && v >= v1 && (v == v0 || v == v1) else v == v0
  }

  lemma MergedKeys(adj: AdjList, adj': AdjList, p: Packet, now: int)
    requires p.Valid() && MergedFrom(adj, adj', p, now)
    ensures adj'.Keys == adj.Keys + {Source(p)} + LinkTargets(Links(p)) +
              (if Source(p) in adj then Neighbors(adj[Source(p)].linklist) else {})
  {
  }

  lemma FedFromMerged(adj: AdjList, adj1: AdjList, adj2: AdjList, p: Packet, now: int)
    requires p.Valid() && MergedFrom(adj, adj1, p, now) && MergedValid(adj, adj1, p, now) && Validity(p) > 0
    requires adj2 == adj1 || SameLinks(Survivors(adj1, adj1.Keys, now), adj2)
    ensures FedFrom(adj, adj2, p, now)
  {
    hide Links, NameAfter, Infos, Value, LinkTargets, Neighbors, ValidFed, MergedValid;
    ValidFedFromMerged(adj, adj1, adj2, p, now);
  }

  lemma ValidFedFromMerged(adj: AdjList, adj1: AdjList, adj2: AdjList, p: Packet, now: int)
    requires p.Valid() && MergedFrom(adj, adj1, p, now) && MergedValid(adj, adj1, p, now) && Validity(p) > 0
    requires adj2 == adj1 || SameLinks(Survivors(adj1, adj1.Keys, now), adj2)
    ensures ValidFed(adj, adj2, Source(p), LinkTargets(Links(p)), now, now + Validity(p))
  {
    hide *;
    ValidMerged(adj, adj1, p, now);
    ValidExpired(adj, adj1, adj2, Source(p), LinkTargets(Links(p)), now, now + Validity(p));
  }

  lemma ValidMerged(adj: AdjList, adj1: AdjList, p: Packet, now: int)
    requires p.Valid() && MergedFrom(adj, adj1, p, now) && MergedValid(adj, adj1, p, now)
    ensures ValidFed(adj, adj1, Source(p), LinkTargets(Links(p)), now, now + Validity(p))
  {
    hide Links, NameAfter, Infos, Value, LinkTargets, Neighbors, Validity, Source;
  }

  lemma ValidExpired(adj: AdjList, adj1: AdjList, adj2: AdjList, src: NodeId, targets: set<NodeId>, now: int,
                     validity: int)
    requires ValidFed(adj, adj1, src, targets, now, validity) && validity > now
    requires adj2 == adj1 || SameLinks(Survivors(adj1, adj1.Keys, now), adj2)
    ensures ValidFed(adj, adj2, src, targets, now, validity)
  {
  }

  ghost function Invalidated(adj: AdjList, me: NodeId, clock: int): AdjList {
    map v | v in adj :: if v == me then adj[v] else adj[v].(nodeValidity := clock, edgeValidity := clock)
  }

  /** What a reset leaves, node by node. */
  lemma ResetAt(adj: AdjList, me: NodeId, clock: int, locked: bool, now: int)
    ensures var adj' := Expired(Invalidated(adj, me, clock), locked, now);
      && adj'.Keys <= adj.Keys
      && (!locked && clock <= now ==> adj'.Keys == if me in adj && adj[me].nodeValidity > now then {me} else {})
      && (!locked && clock > now ==> forall v | v in adj && v != me ::
            v in adj' && adj'[v] == adj[v].(nodeValidity := clock, edgeValidity := clock))
      && (!locked ==> (me in adj' <==> me in adj && adj[me].nodeValidity > now))
      && (!locked && me in adj' ==>
            adj'[me] == if adj[me].edgeValidity > now then adj[me] else adj[me].(linklist := []))
      && (locked ==> adj'.Keys == adj.Keys && (me in adj' ==> adj'[me] == adj[me]))
      && (locked ==> forall v | v in adj' && v != me ::
            adj'[v] == adj[v].(nodeValidity := clock, edgeValidity := clock))
  {
  }

  /** The fields of a node entry that `calcRoutes` writes. */
  datatype Route = Route(distance: nat, prevHop: NodeId, nextHop: NodeId)

  /** The events that change the database. */
  datatype Op = Packet(p: Packet, now: int) | Cleanup(now: int) | Restart(clock: int, now: int) | Lock(on: bool) {
    /** Packets must satisfy the assertions in `feed` and hold their links. */
    predicate Acceptable() {
      Packet? ==> p.Valid() && PassesAssertions(p) && (HeaderMissing(p) || !LinksMissing(p))
    }
  }

  class RTopology {
    const me: NodeId
    /** Metric::my_calculate of the installed metric. */
    const weigh: (nat, nat) -> nat
    var adjList: AdjList
    var dirty: bool
    var locked: bool
    /** Notifications sent so far, in order. */
    var events: seq<Event>
    /** What an observer knew before the first of `events`. */
    ghost const snapshot: Observed
    ghost var Repr: set<LinkQuality>

    ghost predicate Valid()
      reads this, Repr
    {
      && (forall f, b :: weigh(f, b) >= 1)
      && Shape(adjList)
      && Within(adjList, Repr)
      && PointersOk(adjList, Repr)
      && WeightsOk(adjList, Repr)
      && Mirrors(Replay(snapshot, events), adjList)
    }

    lemma ValidParts()
      requires Valid()
      ensures (forall f, b :: weigh(f, b) >= 1) && Shape(adjList) && Within(adjList, Repr)
      ensures PointersOk(adjList, Repr) && WeightsOk(adjList, Repr) && Mirrors(Replay(snapshot, events), adjList)
    {
    }

    lemma ValidFromParts()
      requires (forall f, b :: weigh(f, b) >= 1) && Shape(adjList) && Within(adjList, Repr)
      requires PointersOk(adjList, Repr) && WeightsOk(adjList, Repr) && Mirrors(Replay(snapshot, events), adjList)
      ensures Valid()
    {
    }

    ghost function Graph(): Graph
      requires Valid()
      reads this, Repr
    {
      map a | a in adjList :: LinkWeights(adjList[a].linklist)
    }

    /** Distances and next hops are those of the stored graph. */
    ghost predicate RoutesExact()
      requires Valid()
      reads this, Repr
    {
      Routed(Graph(), me, Dist(adjList), Prev(adjList), UINT_MAX, NextHops(adjList))
    }

    lemma ExactNow()
      requires Valid() && Routed(Graph(), me, Dist(adjList), Prev(adjList), UINT_MAX, NextHops(adjList))
      ensures RoutesExact()
    {
    }

    /** What exact routes say about one destination: the distance is the least
        length of a walk, infinity stands for exactly the unreachable nodes, and
        the next hop is the node itself for these or starts a shortest path. */
    lemma ExactAt(dest: NodeId)
      requires Valid() && RoutesExact() && dest in adjList
      ensures dest in Graph()
      ensures adjList[dest].distance == UINT_MAX <==> !Reachable(Graph(), me, dest)
      ensures adjList[dest].distance < UINT_MAX ==> IsDistance(Graph(), me, dest, adjList[dest].distance)
      ensures adjList[dest].nextHop != me <==> dest != me && Reachable(Graph(), me, dest)
      ensures adjList[dest].nextHop != me ==> StartsShortestPath(Graph(), me, adjList[dest].nextHop, dest)
    {
      hide ShortestPathTree, Positive, FirstHop, Reachable, IsDistance, StartsShortestPath;
      var g, dist, prev, nh := Graph(), Dist(adjList), Prev(adjList), NextHops(adjList);
      RoutedCorrect(g, me, dist, prev, UINT_MAX, nh);
      DistancesExact(g, me, dist, prev, UINT_MAX, dest);
      assert CorrectHop(g, me, nh[dest], dest);
    }

    constructor (me: NodeId, weigh: (nat, nat) -> nat, now: int)
      requires forall f, b :: weigh(f, b) >= 1
      ensures Valid() && Repr == {} && dirty && !locked
      ensures this.me == me && this.weigh == weigh && events == []
      ensures adjList.Keys == {me} && adjList[me].linklist == []
      ensures adjList[me].nodeValidity == adjList[me].edgeValidity == now + 5000
    {
      this.me, this.weigh := me, weigh;
      var distance := Uninitialised();
      adjList := map[me := NDescr([], 0, 0, now + 5000, now + 5000, distance, [])];
      dirty, locked, events := true, false, [];
      snapshot := Observed({me}, {});
      Repr := {};
    }

    // -------------------------------------------------------------------
    // Routes

    /** One link of the extracted node `n`, the sum taken modulo 2^32. */
    method RelaxLink(n: NodeId, d: nat, l: LinkQuality, ghost g: Graph, ghost adj0: AdjList)
      requires Relaxing(g, me, adj0, adjList, n) && d == adj0[n].distance
      requires MatchesGraph(g, n, l) && d + MAX_WEIGHT < UINT_MAX
      modifies this`adjList
      ensures Relaxing(g, me, adj0, adjList, n)
      ensures Reached(adjList, d, l)
      ensures adjList.Keys == old(adjList).Keys
      ensures forall v | v in adjList :: adjList[v].distance <= old(adjList)[v].distance
    {
      var v := l.neighbor;
      if v !in adjList { return; }
      var newDist := (d + l.metricWeight) % 0x1_0000_0000;
      ghost var adj1 := adjList;
      if newDist < adjList[v].distance {
        assert Changed(g, adj0, adj1, n, v);
        adjList := adjList[v := adjList[v].(distance := newDist, prevHop := n)];
        forall x | x in g ensures Changed(g, adj0, adjList, n, x) {
          assert Changed(g, adj0, adj1, n, x);
        }
      }
    }

    /** The inner loop of `calcRoutes` for the extracted node `n`
        (src/Topology.cc:698-726). */
    method RelaxLinks(n: NodeId, ghost g: Graph)
      requires adjList.Keys == g.Keys && n in adjList
      requires NodeMatches(g, n, adjList[n].linklist)
      requires adjList[n].distance == UINT_MAX || adjList[n].distance + MAX_WEIGHT < UINT_MAX
      modifies this`adjList
      ensures Relaxing(g, me, old(adjList), adjList, n) && AllRelaxed(g, adjList, {n})
      ensures old(adjList)[n].distance == UINT_MAX ==> adjList == old(adjList)
    {
      hide Relaxing, NodeMatches, AllRelaxed;
      ghost var adj0 := adjList;
      var ll := adjList[n].linklist;
      var d := adjList[n].distance;
      LinksMatchGraph(g, n, adj0);
      NothingRelaxed(g, me, adj0, n);
      if d < UINT_MAX {
        for i := 0 to |ll|
          invariant adjList.Keys == g.Keys
          invariant Relaxing(g, me, adj0, adjList, n)
          invariant forall k | 0 <= k < i :: Reached(adjList, d, ll[k])
        {
          RelaxLink(n, d, ll[i], g, adj0);
        }
      }
      RelaxedFromLinks(g, me, adj0, adjList, n, ll);
    }

    /** Routing fields are outside of what the invariant speaks about. */
    twostate lemma RoutingKeepsValid()
      requires old(Valid()) && SameLinks(old(adjList), adjList)
      requires unchanged(this`events) && unchanged(this`Repr) && unchanged(Repr)
      ensures Valid() && Graph() == old(Graph())
    {
      PruneKeepsWeights(old(adjList), adjList, Repr);
      SameStoredKeepsPointers(old(adjList), adjList, Repr);
      assert Mirrors(Replay(snapshot, events), adjList);
      forall a | a in adjList
        ensures LinkWeights(adjList[a].linklist) == old(LinkWeights(adjList[a].linklist))
      {
      }
      assert Graph() == old(Graph());
    }

    /** Sorting `todo` by distance and taking its last entry is modelled as
        picking any nearest node, which covers every order std::sort may leave
        among equal distances. */
    method PickNearest(todo: set<NodeId>) returns (n: NodeId)
      requires todo != {} && todo <= adjList.Keys
      ensures n in todo && forall v | v in todo :: adjList[n].distance <= adjList[v].distance
    {
      ghost var m := NearestExists(adjList, todo);
      n :| n in todo && forall v | v in todo :: adjList[n].distance <= adjList[v].distance;
    }

    /** One round of the main loop of `calcRoutes`. */
    method Extract(n: NodeId, ghost g: Graph, ghost done: set<NodeId>, ghost todo: set<NodeId>)
      requires |g.Keys| <= MAX_NODES && WeightsWithin(g, MAX_WEIGHT)
      requires Progress(g, me, adjList, done, todo) && n in todo
      requires forall v | v in todo :: adjList[n].distance <= adjList[v].distance
      requires NodeMatches(g, n, adjList[n].linklist)
      modifies this`adjList
      ensures SameLinks(old(adjList), adjList)
      ensures Progress(g, me, adjList, done + {n}, todo - {n})
    {
      NoOverflow(g, me, adjList, done, todo, n);
      ghost var adj0 := adjList;
      RelaxLinks(n, g);
      RelaxedAll(g, me, adj0, adjList, done, todo, n);
    }

    method ExtractNearest(ghost g: Graph)
      requires adjList.Keys == g.Keys && |g.Keys| <= MAX_NODES && WeightsWithin(g, MAX_WEIGHT)
      requires forall a | a in adjList :: NodeMatches(g, a, adjList[a].linklist)
      requires Progress(g, me, adjList, {}, g.Keys)
      modifies this`adjList
      ensures SameLinks(old(adjList), adjList)
      ensures Progress(g, me, adjList, g.Keys, {})
    {
      hide AllBounded, AllRealised, AllRelaxed, Nearer, NodeMatches, WeightsWithin;
      var todo := adjList.Keys;
      ghost var done := {};
      while todo != {}
        invariant SameLinks(old(adjList), adjList)
        invariant Progress(g, me, adjList, done, todo)
      {
        var nearest := PickNearest(todo);
        MatchesKept(g, old(adjList), adjList, nearest);
        Extract(nearest, g, done, todo);
        done, todo := done + {nearest}, todo - {nearest};
      }
      assert done == g.Keys;
    }

    method ResetRoutes(ghost g: Graph)
      requires adjList.Keys == g.Keys && me in adjList
      modifies this`adjList
      ensures SameLinks(old(adjList), adjList) && Progress(g, me, adjList, {}, g.Keys)
    {
      adjList := map v | v in adjList ::
        if v == me then adjList[v].(nextHop := me, distance := 0, prevHop := me)
        else adjList[v].(nextHop := me, distance := UINT_MAX);
      StartProgress(g, me, adjList);
    }

    lemma GraphMatches()
      requires Valid()
      ensures Graph().Keys == adjList.Keys
      ensures forall a | a in adjList :: NodeMatches(Graph(), a, adjList[a].linklist)
    {
      assert Graph().Keys == adjList.Keys;
      forall a, l | a in adjList && l in adjList[a].linklist ensures Weighted(l) {
        assert Balanced(adjList, a, l);
      }
    }

    /** `calcRoutes`: afterwards every `distance` is exact and every `nextHop`
        starts a shortest path. */
    method CalcRoutes()
      requires Valid() && me in adjList && |adjList.Keys| <= MAX_NODES
      modifies this`adjList, this`dirty
      ensures Valid() && !dirty && SameLinks(old(adjList), adjList) && Graph() == old(Graph())
      ensures RoutesExact()
    {
      hide *;
      ghost var g := Graph();
      GraphMatches();
      MatchedWithin(adjList, g);
      ComputeRoutes(g);
      dirty := false;
      RoutingKeepsValid();
      ExactNow();
    }

    method ComputeRoutes(ghost g: Graph)
      requires adjList.Keys == g.Keys && |g.Keys| <= MAX_NODES && WeightsWithin(g, MAX_WEIGHT) && me in g
      requires forall a | a in adjList :: NodeMatches(g, a, adjList[a].linklist)
      modifies this`adjList
      ensures SameLinks(old(adjList), adjList)
      ensures Routed(g, me, Dist(adjList), Prev(adjList), UINT_MAX, NextHops(adjList))
    {
      ResetRoutes(g);
      ExtractNearest(g);
      ProgressComplete(g, me, adjList, g.Keys);
      NextHopsUnset(g, me, adjList);
      CalcNextHops(g, Dist(adjList), Prev(adjList));
    }

    method CalcNextHops(ghost g: Graph, ghost dist: map<NodeId, nat>, ghost prev: map<NodeId, NodeId>)
      requires ShortestPathTree(g, me, dist, prev, UINT_MAX) && WeightsWithin(g, MAX_WEIGHT)
      requires adjList.Keys == g.Keys && prev[me] == me && Carries(adjList, dist, prev)
      requires forall v | v in adjList :: adjList[v].nextHop == me
      modifies this`adjList
      ensures SameLinks(old(adjList), adjList) && Dist(adjList) == dist && Prev(adjList) == prev
      ensures Routed(g, me, dist, prev, UINT_MAX, NextHops(adjList))
    {
      hide ShortestPathTree, WeightsWithin, Final, FirstHop;
      var todo := adjList.Keys;
      assert forall v | v in adjList :: Memo(adjList, me, g, dist, prev, v);
      while todo != {}
        invariant todo <= adjList.Keys
        invariant SameLinks(old(adjList), adjList) && Carries(adjList, dist, prev)
        invariant forall v | v in adjList :: Memo(adjList, me, g, dist, prev, v)
        invariant forall v | v in adjList && v !in todo :: Final(adjList, me, g, dist, prev, v)
      {
        var v :| v in todo;
        CalcNextHop(v, g, dist, prev);
        todo := todo - {v};
      }
      FinalCorrect(adjList, me, g, dist, prev);
    }

    /** `calcNextHop`: memoised recursion along `prevHop`. */
    method CalcNextHop(id: NodeId, ghost g: Graph, ghost dist: map<NodeId, nat>, ghost prev: map<NodeId, NodeId>)
      requires ShortestPathTree(g, me, dist, prev, UINT_MAX) && WeightsWithin(g, MAX_WEIGHT)
      requires prev[me] == me && Carries(adjList, dist, prev) && id in adjList
      requires forall v | v in adjList :: Memo(adjList, me, g, dist, prev, v)
      modifies this`adjList
      ensures SameLinks(old(adjList), adjList) && Carries(adjList, dist, prev)
      ensures forall v | v in adjList :: Memo(adjList, me, g, dist, prev, v)
      ensures Final(adjList, me, g, dist, prev, id)
      ensures forall v | v in adjList && Final(old(adjList), me, g, dist, prev, v) ::
          Final(adjList, me, g, dist, prev, v)
      decreases dist[id]
    {
      assert Hangs(g, me, dist, prev, UINT_MAX, id);
      assert Memo(adjList, me, g, dist, prev, id);
      var d := adjList[id];
      if d.distance == UINT_MAX {
        var hop := me;
        HopSet(adjList, me, g, dist, prev, id, hop);
        adjList := adjList[id := adjList[id].(nextHop := hop)];
        return;
      }
      if d.nextHop != me {
        return;
      }
      if d.prevHop == me {
        var hop := id;
        HopSet(adjList, me, g, dist, prev, id, hop);
        adjList := adjList[id := adjList[id].(nextHop := hop)];
      } else {
        CalcNextHop(d.prevHop, g, dist, prev);
        assert Final(adjList, me, g, dist, prev, d.prevHop);
        var hop := adjList[d.prevHop].nextHop;
        HopSet(adjList, me, g, dist, prev, id, hop);
        adjList := adjList[id := adjList[id].(nextHop := hop)];
      }
    }

    // -------------------------------------------------------------------
    // Expiry

    method Send(e: Event)
      modifies this`events
      ensures events == old(events) + [e]
      ensures Replay(snapshot, events) == Apply(Replay(snapshot, old(events)), e)
    {
      ReplayOne(snapshot, events, e);
      events := events + [e];
    }

    /** While the references to the links of `id` are cut: the first `i` are done. */
    ghost predicate Cutting(id: NodeId, ll: seq<LinkQuality>, i: nat)
      requires i <= |ll|
      reads this, Repr
    {
      && Shape(adjList) && Within(adjList, Repr) && id in adjList && adjList[id].linklist == ll
      && (forall k | i <= k < |ll| :: ll[k].counterpart == Stored(adjList, ll[k].neighbor, id))
      && (forall a, l {:trigger CutFrom(adjList, id, ll, i, a, l)} |
            a in adjList && a != id && l in adjList[a].linklist ::
            CutFrom(adjList, id, ll, i, a, l))
    }

    method CutOne(id: NodeId, ghost ll: seq<LinkQuality>, ghost i: nat, link: LinkQuality)
      requires i < |ll| && Cutting(id, ll, i) && link == ll[i]
      modifies Repr`counterpart
      ensures Cutting(id, ll, i + 1)
    {
      hide Shape;
      assert link in adjList[id].linklist;
      link.RemoveReference();
      forall k | i < k < |ll| ensures ll[k].counterpart == Stored(adjList, ll[k].neighbor, id) {
        CutElsewhere(adjList, id, ll, i, k);
      }
      forall a, l | a in adjList && a != id && l in adjList[a].linklist ensures CutFrom(adjList, id, ll, i + 1, a, l) {
        assert old(CutFrom(adjList, id, ll, i, a, l));
        CutHere(adjList, id, ll, i, a, l);
      }
    }

    /** First loop of `removeOldNodes` for one node: references to its links
        are cut on both sides (src/Topology.cc:883-887). */
    method CutReferences(id: NodeId)
      requires Valid() && id in adjList
      modifies Repr`counterpart
      ensures Cutting(id, adjList[id].linklist, |adjList[id].linklist|)
    {
      var ll := adjList[id].linklist;
      assert Cutting(id, ll, 0) by {
        forall a, l | a in adjList && l in adjList[a].linklist ensures l.counterpart == Stored(adjList, l.neighbor, a) {
          assert PointsBack(adjList, a, l);
        }
      }
      for i := 0 to |ll|
        invariant Cutting(id, ll, i)
      {
        CutOne(id, ll, i, ll[i]);
      }
    }

    /** Second loop: observers are told about every removed link. */
    method AnnounceCut(id: NodeId)
      requires id in adjList && Mirrors(Replay(snapshot, events), adjList)
      modifies this`events
      ensures old(events) <= events
      ensures Mirrors(Replay(snapshot, events), adjList[id := adjList[id].(linklist := [])])
    {
      var ll := adjList[id].linklist;
      for i := 0 to |ll|
        invariant old(events) <= events
        invariant Replay(snapshot, events).nodes == adjList.Keys
        invariant forall x: NodeId, y: NodeId :: (x, y) in Replay(snapshot, events).links <==>
                    Stored(adjList, x, y) != null && !(x == id && InPrefix(ll, i, y))
      {
        Send(LinkRemoved(id, ll[i].neighbor));
      }
      forall y: NodeId ensures (id, y) !in Replay(snapshot, events).links {
        if !InPrefix(ll, |ll|, y) { assert Find(ll, y) == null; }
      }
    }

    /** Clearing the links of a node keeps the database sound. */
    method DropLinks(id: NodeId)
      requires Valid() && id in adjList
      modifies this`adjList, this`events, Repr`counterpart
      ensures Valid() && old(events) <= events
      ensures adjList == old(adjList)[id := old(adjList)[id].(linklist := [])]
    {
      var descr := adjList[id];
      CutReferences(id);
      AnnounceCut(id);
      ghost var adj' := adjList[id := descr.(linklist := [])];
      PruneKeepsWeights(adjList, adj', Repr);
      CutKeepsPointers(id, descr.linklist, adj');
      adjList := adjList[id := descr.(linklist := [])];
    }

    lemma CutKeepsPointers(id: NodeId, ll: seq<LinkQuality>, adj': AdjList)
      requires Cutting(id, ll, |ll|) && adj' == adjList[id := adjList[id].(linklist := [])]
      ensures Within(adj', Repr) && PointersOk(adj', Repr)
    {
      forall a, l | a in adj' && l in adj'[a].linklist ensures PointsBack(adj', a, l) {
        assert CutFrom(adjList, id, ll, |ll|, a, l);
        if l.neighbor == id && !InPrefix(ll, |ll|, a) {
          assert Find(ll, a) == null;
        }
      }
    }

    /** The body of the loop in `removeOldNodes` for node `id`. */
    method Expire(id: NodeId, now: int)
      requires Valid() && id in adjList
      modifies this`adjList, this`events, Repr`counterpart
      ensures Valid() && old(events) <= events
      ensures adjList == ExpireOne(old(adjList), id, now)
    {
      var edgeValidity, nodeValidity := adjList[id].edgeValidity, adjList[id].nodeValidity;
      if edgeValidity <= now {
        DropLinks(id);
      }
      if nodeValidity <= now {
        EraseNode(id);
      }
    }

    method EraseNode(id: NodeId)
      requires Valid() && id in adjList && adjList[id].linklist == []
      modifies this`adjList, this`events
      ensures Valid() && old(events) <= events && adjList == old(adjList) - {id}
    {
      ghost var adj0 := adjList;
      adjList := adjList - {id};
      Send(NodeRemoved(id));
      PruneKeepsWeights(adj0, adjList, Repr);
      SameStoredKeepsPointers(adj0, adjList, Repr);
      assert Mirrors(Replay(snapshot, events), adjList);
    }

    /** `removeOldNodes`; the nodes are visited in any order. Returns when to
        look again. */
    method RemoveOldNodes(now: int) returns (next: int)
      requires Valid() && adjList.Keys != {}
      modifies this`adjList, this`events, Repr`counterpart
      ensures Valid() && old(events) <= events
      ensures locked ==> adjList == old(adjList) && next == now + 3141500
      ensures !locked ==> adjList == Survivors(old(adjList), old(adjList).Keys, now)
      ensures !locked ==> NextTimeout(adjList, old(adjList).Keys, now, next)
      ensures forall a | a in adjList && adjList[a].linklist == old(adjList)[a].linklist ::
          Graph()[a] == old(Graph())[a]
      ensures !locked && old(RoutesExact()) ==> (RoutesExact() <==> RoutesOutlive(old(adjList), me, now))
    {
      hide *;
      ghost var adj0, g0, exact := adjList, Graph(), RoutesExact();
      GraphRows();
      if exact { ExactUnfold(); }
      next := ExpireNodes(now);
      GraphRows();
      if exact && !locked {
        ExpiredRoutes(adj0, adjList, g0, Graph(), me, now);
        ExactFold();
      }
    }

    /** The rows of lists that stay are those of before. */
    method ExpireNodes(now: int) returns (next: int)
      requires Valid()
      modifies this`adjList, this`events, Repr`counterpart
      ensures Valid() && old(events) <= events
      ensures locked ==> adjList == old(adjList) && next == now + 3141500
      ensures !locked ==> adjList == Survivors(old(adjList), old(adjList).Keys, now)
      ensures !locked ==> NextTimeout(adjList, old(adjList).Keys, now, next)
      ensures adjList.Keys <= old(adjList).Keys
      ensures Graph().Keys == adjList.Keys && old(Graph()).Keys == old(adjList).Keys
      ensures forall a | a in adjList && adjList[a].linklist == old(adjList)[a].linklist ::
          Graph()[a] == old(Graph())[a]
    {
      hide PointersOk, WeightsOk, Mirrors, Shape, NextTimeout;
      next := VisitNodes(now);
      forall a | a in adjList && adjList[a].linklist == old(adjList)[a].linklist ensures Graph()[a] == old(Graph())[a] {
        var ll := adjList[a].linklist;
        assert forall l | l in ll :: l.metricWeight == old(l.metricWeight);
        assert LinkWeights(ll) == old(LinkWeights(ll));
      }
    }

    lemma ExactFold()
      requires Valid()
      ensures RoutesExact() <==> Routed(Graph(), me, Dist(adjList), Prev(adjList), UINT_MAX, NextHops(adjList))
    {
    }

    /** The loop over the nodes (src/Topology.cc:867-939). */
    method VisitNodes(now: int) returns (next: int)
      requires Valid()
      modifies this`adjList, this`events, Repr`counterpart
      ensures Valid() && old(events) <= events
      ensures locked ==> adjList == old(adjList) && next == now + 3141500
      ensures !locked ==> adjList == Survivors(old(adjList), old(adjList).Keys, now)
      ensures !locked ==> NextTimeout(adjList, old(adjList).Keys, now, next)
    {
      hide RTopology.Valid, Survivors, NextTimeout;
      next := now + 3141500;
      if locked { return; }
      var todo := adjList.Keys;
      ghost var done := {};
      ghost var adj0 := adjList;
      NothingExpired(adj0, now);
      while todo != {}
        invariant todo !! done && todo + done == adj0.Keys
        invariant Valid() && old(events) <= events && adjList == Survivors(adj0, done, now)
        invariant NextTimeout(adjList, done, now, next)
      {
        var id :| id in todo;
        SurvivorsStep(adj0, done, id, now);
        TimeoutStep(adjList, done, id, now, next);
        var validity := adjList[id].nodeValidity;
        Expire(id, now);
        done, todo := done + {id}, todo - {id};
        if now < validity < next { next := validity; }
      }
      assert done == adj0.Keys;
    }

    // -------------------------------------------------------------------
    // Merging a topology packet

    /** One link of the new list gets its counterpart and weight
        (src/Topology.cc:392-398, 422-438); `j'` is the position in the old
        list afterwards. */
    method LinkUp(src: NodeId, link: LinkQuality, ghost newL: seq<LinkQuality>, ghost oldL: seq<LinkQuality>,
                  ghost i: nat, ghost j: nat, ghost j': nat)
      requires forall f, b :: weigh(f, b) >= 1
      requires MergeShape(adjList, Repr, src, newL, oldL, i, j) && Merging(adjList, Repr, src, newL, oldL, i, j)
      requires i < |newL| && newL[i] == link && link.neighbor in adjList
      requires MergeShape(adjList, Repr, src, newL, oldL, i + 1, j')
      requires j' == j || (j' == j + 1 && j < |oldL| && oldL[j].neighbor == link.neighbor)
      requires !Pending(oldL, j', link.neighbor)
      modifies Repr`counterpart, Repr`metricWeight
      ensures Merging(adjList, Repr, src, newL, oldL, i + 1, j')
      ensures PricedAt(weigh, adjList, src, link)
      ensures forall l | l in Repr && l != link && l != Stored(adjList, link.neighbor, src) ::
        l.metricWeight == old(l.metricWeight)
    {
      hide MergeShape, InPrefix, Pending, Find, Price;
      MergeFacts(adjList, Repr, src, newL, oldL, i, j);
      var cp := FindLinkQuality(adjList[link.neighbor].linklist, src);
      Join(link, cp);
      forall a, l | a in adjList && l in adjList[a].linklist
        ensures MergeState(adjList, src, newL, oldL, i + 1, j', a, l)
      {
        if l != link && l != cp {
          assert old(MergeState(adjList, src, newL, oldL, i, j, a, l));
          OtherLink(adjList, Repr, src, newL, oldL, i, j, j', a, l);
          var m := Stored(adjList, l.neighbor, a);
          assert m != null ==> m.metricWeight == old(m.metricWeight);
          assert old(Settled(adjList, a, l)) ==> Settled(adjList, a, l);
        } else {
          JoinedLink(adjList, Repr, src, newL, oldL, i, j, j', a, l);
        }
      }
    }

    method Join(link: LinkQuality, cp: LinkQuality?)
      requires forall f, b :: weigh(f, b) >= 1
      modifies {link}`counterpart, {link}`metricWeight, Opt(cp)`counterpart, Opt(cp)`metricWeight
      ensures link.counterpart == cp && Weighted(link)
      ensures cp != null ==> cp.counterpart == link && cp.metricWeight == link.metricWeight
      ensures link.metricWeight == Price(weigh, link.quality, QualityOf(cp))
    {
      link.SetCounterpart(cp);
      link.Calculate(weigh);
    }

    /** A link that is gone: its reverse link, if any, loses its counterpart
        (src/Topology.cc:451-459). */
    method Unlink(src: NodeId, y: NodeId, ghost newL: seq<LinkQuality>, ghost oldL: seq<LinkQuality>, ghost i: nat,
                  ghost j: nat)
      requires MergeShape(adjList, Repr, src, newL, oldL, i, j) && Merging(adjList, Repr, src, newL, oldL, i, j)
      requires MergeShape(adjList, Repr, src, newL, oldL, i, j + 1)
      requires j < |oldL| && oldL[j].neighbor == y && y in adjList && Find(newL, y) == null
      modifies Repr`counterpart
      ensures Merging(adjList, Repr, src, newL, oldL, i, j + 1)
    {
      hide MergeShape, InPrefix, Pending, Find;
      MergeFacts(adjList, Repr, src, newL, oldL, i, j);
      var cp := FindLinkQuality(adjList[y].linklist, src);
      if cp != null {
        cp.SetCounterpart(null);
      }
      forall a, l | a in adjList && l in adjList[a].linklist
        ensures MergeState(adjList, src, newL, oldL, i, j + 1, a, l)
      {
        assert old(MergeState(adjList, src, newL, oldL, i, j, a, l));
        UnlinkedLink(adjList, Repr, src, newL, oldL, i, j, a, l);
        assert l.metricWeight == old(l.metricWeight) && (l != cp ==> l.counterpart == old(l.counterpart));
        assert l != cp && old(Settled(adjList, a, l)) ==> Settled(adjList, a, l);
      }
    }

    method GetNodeEntry(b: NodeId, now: int)
      requires Shape(adjList)
      modifies this`adjList, this`events
      ensures Touched(old(adjList), adjList, b) && old(events) <= events
      ensures old(b in adjList) ==> events == old(events) && adjList == old(adjList)
      ensures old(b !in adjList) ==> Replay(snapshot, events) == Apply(Replay(snapshot, old(events)), NodeAdded(b))
      ensures old(b !in adjList) ==> adjList[b] == NDescr([], 0, 0, now + 100, now + 100, adjList[b].distance, [])
    {
      if b !in adjList {
        var distance := Uninitialised();
        adjList := adjList[b := NDescr([], 0, 0, now + 100, now + 100, distance, [])];
        Send(NodeAdded(b));
      }
    }

    /** The node entry of a merge step; `prolong` for links that are present. */
    method TouchNode(b: NodeId, now: int, validity: int, prolong: bool, ghost src: NodeId,
                     ghost newL: seq<LinkQuality>, ghost oldL: seq<LinkQuality>, ghost i: nat, ghost j: nat)
      requires MergeShape(adjList, Repr, src, newL, oldL, i, j) && Merging(adjList, Repr, src, newL, oldL, i, j)
      requires MergeMirrors(Replay(snapshot, events), adjList, src, newL, oldL, i, j)
      modifies this`adjList, this`events
      ensures MergeShape(adjList, Repr, src, newL, oldL, i, j) && Merging(adjList, Repr, src, newL, oldL, i, j)
      ensures MergeMirrors(Replay(snapshot, events), adjList, src, newL, oldL, i, j)
      ensures old(events) <= events && Touched(old(adjList), adjList, b)
      ensures Noted(old(adjList), adjList, b, prolong, now, validity)
    {
      hide *;
      ghost var adj0, o := adjList, Replay(snapshot, events);
      MergeShapeParts(adjList, Repr, src, newL, oldL, i, j);
      GetNodeEntry(b, now);
      TouchedHas(adj0, adjList, b);
      ghost var adj1 := adjList;
      if prolong && adjList[b].nodeValidity < validity {
        adjList := adjList[b := adjList[b].(nodeValidity := validity)];
        TouchedLonger(adj0, adj1, adjList, b, validity);
      }
      TouchedKeeps(adj0, adjList, b);
      TouchedHas(adj0, adjList, b);
      UntilUnfold(adj0, b, prolong, now, validity);
      NotedNow(adj0, adjList, b, prolong, now, validity);
      MergeIgnoresEmptyNodes(adj0, adjList, Repr, src, newL, oldL, i, j);
      MirrorsTouched(o, Replay(snapshot, events), adj0, adjList, b, src, newL, oldL, i, j);
    }

    /** Case 1 of the loop in `feed`: the link is kept (src/Topology.cc:387-415). */
    method KeepLink(src: NodeId, newL: seq<LinkQuality>, oldL: seq<LinkQuality>, i: nat, j: nat, now: int,
                    validity: int)
      requires forall f, b :: weigh(f, b) >= 1
      requires MergeShape(adjList, Repr, src, newL, oldL, i, j) && Merging(adjList, Repr, src, newL, oldL, i, j)
      requires MergeMirrors(Replay(snapshot, events), adjList, src, newL, oldL, i, j)
      requires i < |newL| && j < |oldL| && newL[i].neighbor == oldL[j].neighbor
      modifies this`adjList, this`events, this`dirty, Repr`counterpart, Repr`metricWeight
      ensures MergeShape(adjList, Repr, src, newL, oldL, i + 1, j + 1)
      ensures Merging(adjList, Repr, src, newL, oldL, i + 1, j + 1)
      ensures MergeMirrors(Replay(snapshot, events), adjList, src, newL, oldL, i + 1, j + 1)
      ensures old(events) <= events && Touched(old(adjList), adjList, newL[i].neighbor)
      ensures dirty == (old(dirty) || newL[i].quality != oldL[j].quality)
      ensures PricedAt(weigh, adjList, src, newL[i])
      ensures forall l | l in Repr && l != newL[i] && l != Stored(adjList, newL[i].neighbor, src) ::
        l.metricWeight == old(l.metricWeight)
      ensures Noted(old(adjList), adjList, newL[i].neighbor, true, now, validity)
    {
      hide Merging, MergeMirrors, Touched, Noted;
      TouchNode(newL[i].neighbor, now, validity, true, src, newL, oldL, i, j);
      TouchedHas(old(adjList), adjList, newL[i].neighbor);
      LinkUp(src, newL[i], newL, oldL, i, j, j + 1);
      if newL[i].quality != oldL[j].quality { dirty := true; }
      MirrorKept(Replay(snapshot, events), adjList, src, newL, oldL, i, j);
    }

    /** Case 2: a new link (src/Topology.cc:416-445). */
    method AddLink(src: NodeId, newL: seq<LinkQuality>, oldL: seq<LinkQuality>, i: nat, j: nat, now: int, validity: int)
      requires forall f, b :: weigh(f, b) >= 1
      requires MergeShape(adjList, Repr, src, newL, oldL, i, j) && Merging(adjList, Repr, src, newL, oldL, i, j)
      requires MergeMirrors(Replay(snapshot, events), adjList, src, newL, oldL, i, j)
      requires i < |newL| && (j == |oldL| || newL[i].neighbor < oldL[j].neighbor)
      modifies this`adjList, this`events, this`dirty, Repr`counterpart, Repr`metricWeight
      ensures MergeShape(adjList, Repr, src, newL, oldL, i + 1, j) && Merging(adjList, Repr, src, newL, oldL, i + 1, j)
      ensures MergeMirrors(Replay(snapshot, events), adjList, src, newL, oldL, i + 1, j)
      ensures old(events) <= events && Touched(old(adjList), adjList, newL[i].neighbor) && dirty
      ensures PricedAt(weigh, adjList, src, newL[i])
      ensures forall l | l in Repr && l != newL[i] && l != Stored(adjList, newL[i].neighbor, src) ::
        l.metricWeight == old(l.metricWeight)
      ensures Noted(old(adjList), adjList, newL[i].neighbor, true, now, validity)
    {
      hide Merging, MergeMirrors, Touched, Noted;
      TouchNode(newL[i].neighbor, now, validity, true, src, newL, oldL, i, j);
      TouchedHas(old(adjList), adjList, newL[i].neighbor);
      LinkUp(src, newL[i], newL, oldL, i, j, j);
      MirrorAdded(Replay(snapshot, events), adjList, src, newL, oldL, i, j);
      Send(LinkAdded(src, newL[i].neighbor));
      dirty := true;
    }

    /** Case 3: an old link is gone (src/Topology.cc:446-477). */
    method DropLink(src: NodeId, newL: seq<LinkQuality>, oldL: seq<LinkQuality>, i: nat, j: nat, now: int)
      requires MergeShape(adjList, Repr, src, newL, oldL, i, j) && Merging(adjList, Repr, src, newL, oldL, i, j)
      requires MergeMirrors(Replay(snapshot, events), adjList, src, newL, oldL, i, j)
      requires j < |oldL| && (i == |newL| || oldL[j].neighbor < newL[i].neighbor)
      modifies this`adjList, this`events, this`dirty, Repr`counterpart
      ensures MergeShape(adjList, Repr, src, newL, oldL, i, j + 1) && Merging(adjList, Repr, src, newL, oldL, i, j + 1)
      ensures MergeMirrors(Replay(snapshot, events), adjList, src, newL, oldL, i, j + 1)
      ensures old(events) <= events && Touched(old(adjList), adjList, oldL[j].neighbor) && dirty
      ensures Noted(old(adjList), adjList, oldL[j].neighbor, false, now, now)
    {
      hide Merging, MergeMirrors, Touched, Noted;
      var y := oldL[j].neighbor;
      TouchNode(y, now, now, false, src, newL, oldL, i, j);
      TouchedHas(old(adjList), adjList, y);
      NotInNew(newL, oldL, i, j);
      Unlink(src, y, newL, oldL, i, j);
      MirrorRemoved(Replay(snapshot, events), adjList, src, newL, oldL, i, j);
      Send(LinkRemoved(src, y));
      dirty := true;
    }

    /** One turn of the loop: `b` is the neighbour it deals with. */
    method MergeStep(src: NodeId, newL: seq<LinkQuality>, oldL: seq<LinkQuality>, i: nat, j: nat, now: int,
                     validity: int)
      returns (i': nat, j': nat, ghost b: NodeId)
      requires forall f, b :: weigh(f, b) >= 1
      requires MergeShape(adjList, Repr, src, newL, oldL, i, j) && Merging(adjList, Repr, src, newL, oldL, i, j)
      requires MergeMirrors(Replay(snapshot, events), adjList, src, newL, oldL, i, j)
      requires (i < |newL| || j < |oldL|) && PricedUpTo(weigh, adjList, src, newL, i)
      modifies this`adjList, this`events, this`dirty, Repr`counterpart, Repr`metricWeight
      ensures MergeShape(adjList, Repr, src, newL, oldL, i', j') && Merging(adjList, Repr, src, newL, oldL, i', j')
      ensures MergeMirrors(Replay(snapshot, events), adjList, src, newL, oldL, i', j')
      ensures i <= i' <= i + 1 && j <= j' <= j + 1 && i + j < i' + j' && i' <= |newL| && j' <= |oldL|
      ensures (i < i' ==> newL[i].neighbor == b) && (j < j' ==> oldL[j].neighbor == b)
      ensures i == i' || j == j' ==> i == |newL| || j == |oldL| || newL[i].neighbor != oldL[j].neighbor
      ensures old(events) <= events && Touched(old(adjList), adjList, b)
      ensures dirty == (old(dirty) || i == i' || j == j' || newL[i].quality != oldL[j].quality)
      ensures PricedUpTo(weigh, adjList, src, newL, i')
      ensures forall l | l in Repr && Bystander(src, newL, i', l) ::
        Bystander(src, newL, i, l) && l.metricWeight == old(l.metricWeight)
      ensures Noted(old(adjList), adjList, b, i < i', now, validity)
    {
      hide Merging, MergeMirrors, Touched, Bystander, Sorted, Shape, Within, Noted;
      ghost var adj0 := adjList;
      if i < |newL| && j < |oldL| && newL[i].neighbor == oldL[j].neighbor {
        i', j', b := i + 1, j + 1, newL[i].neighbor;
        KeepLink(src, newL, oldL, i, j, now, validity);
      } else if j == |oldL| || (i < |newL| && newL[i].neighbor < oldL[j].neighbor) {
        i', j', b := i + 1, j, newL[i].neighbor;
        AddLink(src, newL, oldL, i, j, now, validity);
      } else {
        i', j', b := i, j + 1, oldL[j].neighbor;
        DropLink(src, newL, oldL, i, j, now);
      }
      StoredTouched(adj0, adjList, Repr, src, newL, oldL, i, j, b);
      NotedFor(adj0, adjList, b, i < i', now, validity);
      if i < i' { PrefixApart(adj0, Repr, src, newL, oldL, i, j); }
    }

    /** The two-pointer loop of `feed` (src/Topology.cc:380-479). */
    method MergeLinks(src: NodeId, newL: seq<LinkQuality>, oldL: seq<LinkQuality>, now: int, validity: int)
      requires forall f, b :: weigh(f, b) >= 1
      requires MergeShape(adjList, Repr, src, newL, oldL, 0, 0) && Merging(adjList, Repr, src, newL, oldL, 0, 0)
      requires MergeMirrors(Replay(snapshot, events), adjList, src, newL, oldL, 0, 0)
      modifies this`adjList, this`events, this`dirty, Repr`counterpart, Repr`metricWeight
      ensures MergeShape(adjList, Repr, src, newL, oldL, |newL|, |oldL|)
      ensures Merging(adjList, Repr, src, newL, oldL, |newL|, |oldL|)
      ensures MergeMirrors(Replay(snapshot, events), adjList, src, newL, oldL, |newL|, |oldL|)
      ensures old(events) <= events && Extends(old(adjList), adjList)
      ensures adjList.Keys == old(adjList).Keys + Neighbors(newL) + Neighbors(oldL)
      ensures dirty == (old(dirty) || Infos(newL) != Infos(oldL))
      ensures PricedUpTo(weigh, adjList, src, newL, |newL|)
      ensures forall l | l in Repr && Bystander(src, newL, |newL|, l) :: l.metricWeight == old(l.metricWeight)
      ensures Prolonged(old(adjList), adjList, Neighbors(newL), now, validity)
    {
      hide Merging, MergeMirrors, MergeShape, Touched, Extends, Neighbors, Infos, PricedUpTo, Bystander, Noted;
      hide Prolonged;
      ghost var adj0, dirty0 := adjList, dirty;
      NothingMerged(adj0, newL, oldL);
      NothingPriced(weigh, adj0, src, newL);
      NothingProlonged(adj0, newL, now, validity);
      var i, j := 0, 0;
      while i < |newL| || j < |oldL|
        invariant i <= |newL| && j <= |oldL|
        invariant MergeShape(adjList, Repr, src, newL, oldL, i, j) && Merging(adjList, Repr, src, newL, oldL, i, j)
        invariant MergeMirrors(Replay(snapshot, events), adjList, src, newL, oldL, i, j)
        invariant old(events) <= events && Extends(adj0, adjList)
        invariant adjList.Keys == adj0.Keys + Neighbors(newL[..i]) + Neighbors(oldL[..j])
        invariant Compared(newL, oldL, i, j, dirty0, dirty)
        invariant PricedUpTo(weigh, adjList, src, newL, i)
        invariant Prolonged(adj0, adjList, Neighbors(newL[..i]), now, validity)
        invariant forall l | l in Repr && Bystander(src, newL, i, l) :: l.metricWeight == old(l.metricWeight)
        decreases |newL| - i + |oldL| - j
      {
        ghost var adj1, dirty1 := adjList, dirty;
        var i', j', b := MergeStep(src, newL, oldL, i, j, now, validity);
        ProlongedStep(adj0, adj1, adjList, newL, i, i', b, now, validity);
        ExtendsTouched(adj0, adj1, adjList, b);
        NeighborsSteps(newL, oldL, i, j, i', j', b);
        ComparedStep(newL, oldL, i, j, i', j', dirty0, dirty1, dirty);
        i, j := i', j';
      }
      assert newL[..i] == newL && oldL[..j] == oldL;
      ComparedAll(newL, oldL, dirty0, dirty);
    }

    /** The node entry of the sender, prolonged (src/Topology.cc:313-320). */
    method TouchSource(src: NodeId, now: int, validity: int)
      requires Valid() && now < validity
      modifies this`adjList, this`events
      ensures Valid() && old(events) <= events
      ensures SourceTouched(old(adjList), adjList, src, now, validity) && OnlyRow(old(Graph()), Graph(), src)
    {
      hide *;
      ghost var adj0, g0 := adjList, Graph();
      AddNode(src, now);
      ghost var adj1 := adjList;
      var d := adjList[src];
      Redescribe(src, d.(nodeValidity := if d.nodeValidity < validity then validity else d.nodeValidity,
                         edgeValidity := validity));
      SourceProlonged(adj0, adj1, adjList, src, now, validity);
    }

    method AddNode(id: NodeId, now: int)
      requires Valid()
      modifies this`adjList, this`events
      ensures Valid() && old(events) <= events
      ensures id in adjList && (old(id in adjList) ==> adjList == old(adjList))
      ensures old(id !in adjList) ==>
        adjList == old(adjList)[id := NDescr([], 0, 0, now + 100, now + 100, adjList[id].distance, [])]
      ensures OnlyRow(old(Graph()), Graph(), id)
    {
      hide *;
      ghost var adj0 := adjList;
      ValidParts();
      GetNodeEntry(id, now);
      TouchedHas(adj0, adjList, id);
      TouchedKeeps(adj0, adjList, id);
      PruneKeepsWeights(adj0, adjList, Repr);
      SameStoredKeepsPointers(adj0, adjList, Repr);
      MirrorsAdded(Replay(snapshot, old(events)), Replay(snapshot, events), adj0, adjList, id);
      ValidFromParts();
      RowsKept(adj0);
      OneRowMore(old(Graph()), Graph(), adj0, adjList, id);
      if id !in adj0 { TouchedNew(adj0, adjList, id); }
    }

    /** Rows of nodes whose lists stay are those of before. */
    twostate lemma RowsKept(adj0: AdjList)
      requires old(Valid()) && Valid() && adj0 == old(adjList) && unchanged(old(Repr))
      requires adj0.Keys <= adjList.Keys && forall a | a in adj0 :: adjList[a].linklist == adj0[a].linklist
      ensures old(Graph()).Keys == adj0.Keys && Graph().Keys == adjList.Keys
      ensures forall a | a in adj0 :: Graph()[a] == old(Graph())[a]
    {
      hide PointersOk, WeightsOk, Mirrors, Shape;
      forall a | a in adj0 ensures Graph()[a] == old(Graph())[a] {
        var ll := adj0[a].linklist;
        assert LinkWeights(ll) == old(LinkWeights(ll));
      }
    }

    /** Fields of a node other than its link list may change freely. */
    method Redescribe(id: NodeId, d: NDescr)
      requires Valid() && id in adjList && d.linklist == adjList[id].linklist && d.edgeValidity <= d.nodeValidity
      modifies this`adjList
      ensures Valid() && adjList == old(adjList)[id := d] && Graph() == old(Graph())
    {
      hide *;
      ghost var adj0 := adjList;
      ValidParts();
      adjList := adjList[id := d];
      RedescribedKeeps(adj0, adjList, id, d);
      PruneKeepsWeights(adj0, adjList, Repr);
      SameStoredKeepsPointers(adj0, adjList, Repr);
      MirrorsSame(Replay(snapshot, events), adj0, adjList);
      ValidFromParts();
      RowsKept(adj0);
      assert Graph() == old(Graph());
    }

    /** `old_linklist.swap(linklist)` followed by parsing: the new list takes
        the place of the old one, and merging can start. */
    method SwapList(src: NodeId, newL: seq<LinkQuality>)
      requires Valid() && src in adjList && Sorted(newL)
      requires forall l | l in newL :: l.owner == src && l !in Repr
      modifies this`adjList, this`Repr
      ensures adjList == old(adjList)[src := old(adjList)[src].(linklist := newL)]
      ensures Repr == old(Repr) + (set l | l in newL)
      ensures MergeShape(adjList, Repr, src, newL, old(adjList)[src].linklist, 0, 0)
      ensures Merging(adjList, Repr, src, newL, old(adjList)[src].linklist, 0, 0)
      ensures MergeMirrors(Replay(snapshot, events), adjList, src, newL, old(adjList)[src].linklist, 0, 0)
    {
      hide *;
      ValidParts();
      ghost var adj0, oldL, links := adjList, adjList[src].linklist, Repr;
      Repr := Repr + (set l | l in newL);
      adjList := adjList[src := adjList[src].(linklist := newL)];
      SwappedShape(adj0, adjList, links, Repr, src, newL, oldL);
      MergeStart(adj0, adjList, Repr, src, newL, oldL);
      MirrorsAtStart(Replay(snapshot, events), adj0, adjList, src, newL, oldL);
    }

    /** The list of `src` is replaced by `newL`, with all counterparts, weights
        and notifications that follow from it. */
    method ReplaceLinks(src: NodeId, newL: seq<LinkQuality>, now: int, validity: int)
      requires Valid() && src in adjList && Sorted(newL)
      requires forall l | l in newL :: l.owner == src && l !in Repr
      modifies this`adjList, this`Repr, this`events, this`dirty
      modifies Repr`counterpart, Repr`metricWeight, (set l | l in newL)`counterpart, (set l | l in newL)`metricWeight
      ensures Valid() && Repr == old(Repr) + (set l | l in newL) && old(events) <= events
      ensures Extends(old(adjList)[src := old(adjList)[src].(linklist := newL)], adjList)
      ensures adjList.Keys == old(adjList).Keys + Neighbors(newL) + Neighbors(old(adjList)[src].linklist)
      ensures dirty == (old(dirty) || Infos(newL) != Infos(old(adjList)[src].linklist))
      ensures Reweighed(weigh, old(adjList), old(Graph()), Graph(), src, Infos(newL))
      ensures Prolonged(old(adjList)[src := old(adjList)[src].(linklist := newL)], adjList, Neighbors(newL), now,
        validity)
    {
      hide *;
      var oldL := adjList[src].linklist;
      ValidParts();
      ghost var adj0, g, w := adjList, Graph(), map l | l in Repr :: l.metricWeight;
      GraphBuilt(w);
      SwapList(src, newL);
      ghost var links := Repr;
      MergeLinks(src, newL, oldL, now, validity);
      MergeParts(adjList, Repr, src, newL, oldL);
      MergeEnd(adjList, Repr, src, newL, oldL);
      MirrorsAtEnd(Replay(snapshot, events), adjList, src, newL, oldL);
      ValidFromParts();
      ReplacedLists(adj0, adjList, src, newL);
      Rows();
      MergedGraph(weigh, adj0, adjList, Repr, src, newL, w, g, Graph());
    }

    lemma Rows()
      requires Valid()
      ensures Graph() == map a | a in adjList :: LinkWeights(adjList[a].linklist)
    {
    }

    lemma GraphBuilt(w: map<LinkQuality, nat>)
      requires Valid() && w == map l | l in Repr :: l.metricWeight
      ensures BuiltFrom(adjList, w, Graph())
    {
      forall a | a in adjList ensures RowFrom(adjList[a].linklist, w, Graph()[a]) {
        var ll := adjList[a].linklist;
        forall b | b in Neighbors(ll) ensures Find(ll, b) != null && Find(ll, b) in w {
          var l := Find(ll, b);
        }
      }
    }

    lemma SourceShape(src: NodeId)
      requires Valid() && src in adjList
      ensures adjList[src].edgeValidity <= adjList[src].nodeValidity
    {
    }

    /** The links stored for a node, as announced. */
    function AnnouncedBefore(src: NodeId): seq<LinkInfo>
      reads this
    {
      if src in adjList then Infos(adjList[src].linklist) else []
    }

    /** `feed` up to the route update, for a packet whose links are complete. */
    method MergePacket(p: Packet, now: int)
      requires Valid() && p.Valid() && PassesAssertions(p) && !HeaderMissing(p) && !LinksMissing(p)
      modifies this, Repr
      ensures Valid() && fresh(Repr - old(Repr)) && old(events) <= events && locked == old(locked)
      ensures MergedFrom(old(adjList), adjList, p, now)
      ensures dirty == (old(dirty) || Links(p) != old(AnnouncedBefore(Source(p))))
      ensures Reweighed(weigh, old(adjList), old(Graph()), Graph(), Source(p), Links(p))
      ensures MergedValid(old(adjList), adjList, p, now)
    {
      hide RTopology.Valid, RTopology.Graph, Prolonged, MergedValid, Neighbors, Sorted, Infos, Links, MergedFrom;
      hide Extends, SourceTouched;
      hide NameAfter;
      hide Value, StrictlyOrdered, Reweighed, OnlyRow;
      var src := LoadId(p.buffer, OFF_SRC);
      var validity := now + Validity(p);
      TouchSource(src, now, validity);
      SourceIn(old(adjList), adjList, src, now, validity);
      ghost var adj1, g1 := adjList, Graph();
      var newL := ParseLinks(p);
      SortedInfos(newL, Links(p));
      ReplaceLinks(src, newL, now, validity);
      ghost var adj2 := adjList;
      MergedSteps(old(adjList), adj1, adj2, p, now, newL);
      ReweighedFromTouched(weigh, old(adjList), adj1, old(Graph()), g1, Graph(), src, now, validity, Links(p));
      SourceShape(src);
      Redescribe(src, adjList[src].(nodeName := NameAfter(p, adjList[src].nodeName)));
      MergedValidities(old(adjList), adj1, adj2, adjList, p, now, newL, validity);
    }

    /** `feed` on a packet shorter than its announced links: the sender's list
        has already been replaced by default entries when the length is
        checked, and stays so (src/Topology.cc:322-343). */
    method RejectShort(p: Packet, now: int)
      requires Valid() && p.Valid() && PassesAssertions(p) && !HeaderMissing(p) && LinksMissing(p)
      modifies this`adjList, this`events, this`Repr
      ensures !Valid() && fresh(Repr - old(Repr)) && old(events) <= events
      ensures Source(p) in adjList && |adjList[Source(p)].linklist| == NumLinks(p) > 0
    {
      hide RTopology.Valid, RTopology.Graph, OnlyRow, SourceTouched, Value;
      var src := LoadId(p.buffer, OFF_SRC);
      TouchSource(src, now, now + Validity(p));
      SourceIn(old(adjList), adjList, src, now, now + Validity(p));
      var ll := DefaultLinks(p.buffer[OFF_NUM_LINKS], src);
      Repr := Repr + (set l | l in ll);
      adjList := adjList[src := adjList[src].(linklist := ll)];
      assert ll[0] in adjList[src].linklist;
      NoWeight(src, ll[0]);
    }

    lemma NoWeight(a: NodeId, l: LinkQuality)
      requires a in adjList && l in adjList[a].linklist && l.metricWeight == 0
      ensures !Valid()
    {
      assert !Balanced(adjList, a, l);
    }

    /** `updateTopology`: expire, route, dump. The source asserts that its own
        node is still present. */
    method UpdateTopology(now: int) returns (data: seq<byte>, ghost table: seq<Entry>)
      requires Valid() && me in adjList && adjList[me].nodeValidity > now && |adjList.Keys| <= MAX_NODES
      modifies this`adjList, this`events, this`dirty, Repr`counterpart
      ensures Valid() && !dirty && old(events) <= events
      ensures SameLinks(Expired(old(adjList), locked, now), adjList)
      ensures RoutesExact()
      ensures Describes(table, NextHops(adjList)) && data == Dump(table)
    {
      hide RTopology.Valid, RTopology.RoutesExact, Describes, Survivors, SameLinks;
      var next := RemoveOldNodes(now);
      SurvivorsShrink(old(adjList), me, now);
      CalcRoutes();
      data, table := DumpTable(map v | v in adjList :: adjList[v].nextHop);
    }

    /** `getNextHop`: exact whenever the routes had to be recomputed. */
    method GetNextHop(dest: NodeId, now: int) returns (found: bool, hop: NodeId)
      requires Valid() && (dirty ==> me in adjList && adjList[me].nodeValidity > now && |adjList.Keys| <= MAX_NODES)
      modifies this`adjList, this`events, this`dirty, Repr`counterpart
      ensures Valid()
      ensures found <==> dest in adjList && adjList[dest].nextHop != me
      ensures found ==> hop == adjList[dest].nextHop
      ensures old(dirty) ==>
                && RoutesExact()
                && (found <==> dest in Graph() && dest != me && Reachable(Graph(), me, dest))
                && (found ==> StartsShortestPath(Graph(), me, hop, dest))
      ensures !old(dirty) ==> adjList == old(adjList)
    {
      hide RTopology.Valid, RTopology.RoutesExact, SameLinks, Describes, Reachable, StartsShortestPath;
      hop := 0;
      if dirty {
        var data, table := UpdateTopology(now);
        GraphMatches();
        if dest in adjList { ExactAt(dest); }
      }
      found := dest in adjList;
      if found { hop := adjList[dest].nextHop; }
      if hop == me { found := false; }
    }

    /** Merging `p` leaves `dirty` set, so that the routes are computed anew. */
    predicate UpdatesRoutes(p: Packet)
      requires p.Valid()
      reads this
    {
      dirty || Links(p) != AnnouncedBefore(Source(p))
    }

    /** What `feed` needs for its route update, if there is one. */
    predicate Routable(p: Packet, now: int)
      requires p.Valid()
      reads this
    {
      UpdatesRoutes(p) ==>
        && SelfPresent(adjList, me, Source(p), Links(p), now)
        && var src := Source(p);
           |adjList.Keys + {src} + LinkTargets(Links(p))
            + (if src in adjList then Neighbors(adjList[src].linklist) else {})| <= MAX_NODES
    }

    /** `feed`. The invariant survives exactly the packets whose announced links
        are present (or that are ignored). The routes are computed anew when the
        links changed; a repeated announcement leaves them as they are, although
        it may change weights, and keeps them exact if and only if the new weights
        fit. */
    method Feed(p: Packet, now: int)
      requires Valid() && p.Valid() && PassesAssertions(p)
      requires !locked && !HeaderMissing(p) && !LinksMissing(p) ==> Routable(p, now)
      modifies this, Repr
      ensures fresh(Repr - old(Repr)) && old(events) <= events && locked == old(locked)
      ensures locked || HeaderMissing(p) ==> Valid() && adjList == old(adjList) && events == old(events)
      ensures !locked && !HeaderMissing(p) ==> (Valid() <==> !LinksMissing(p))
      ensures !locked && !HeaderMissing(p) && !LinksMissing(p) ==>
                && !dirty && FedFrom(old(adjList), adjList, p, now)
                && GraphFed(weigh, old(adjList), adjList, old(Graph()), Graph(), Source(p), Links(p))
      ensures !locked && !HeaderMissing(p) && !LinksMissing(p) ==>
                (old(dirty) || Links(p) != old(AnnouncedBefore(Source(p)))) ==>
                  RoutesExact()
      ensures !locked && !HeaderMissing(p) && !LinksMissing(p) ==>
                !old(dirty) && Links(p) == old(AnnouncedBefore(Source(p))) && old(RoutesExact())
                && (adjList.Keys == old(adjList).Keys || 0 !in adjList) ==>
                  (RoutesExact() <==> StillFits(weigh, old(adjList), me, Source(p), Links(p)))
    {
      hide RTopology.RoutesExact, RTopology.Graph, RTopology.AnnouncedBefore, GraphFed, FedFrom, StillFits;
      if locked { return; }
      if HeaderMissing(p) { return; }
      if LinksMissing(p) {
        RejectShort(p, now);
        return;
      }
      FeedComplete(p, now);
    }

    method FeedComplete(p: Packet, now: int)
      requires Valid() && p.Valid() && PassesAssertions(p) && !HeaderMissing(p) && !LinksMissing(p)
      requires !locked && Routable(p, now)
      modifies this, Repr
      ensures Valid() && fresh(Repr - old(Repr)) && old(events) <= events && locked == old(locked) && !dirty
      ensures FedFrom(old(adjList), adjList, p, now)
      ensures GraphFed(weigh, old(adjList), adjList, old(Graph()), Graph(), Source(p), Links(p))
      ensures (old(dirty) || Links(p) != old(AnnouncedBefore(Source(p)))) ==> RoutesExact()
      ensures !old(dirty) && Links(p) == old(AnnouncedBefore(Source(p))) && old(RoutesExact())
              && (adjList.Keys == old(adjList).Keys || 0 !in adjList) ==>
                (RoutesExact() <==> StillFits(weigh, old(adjList), me, Source(p), Links(p)))
    {
      hide *;
      ghost var adj0, g0, before := adjList, Graph(), AnnouncedBefore(Source(p));
      ghost var exact := RoutesExact();
      GraphRows();
      FeedReady(p, now);
      if exact { ExactUnfold(); }
      MergePacket(p, now);
      SelfPresentExact(adj0, adjList, me, p, now);
      MergedKeys(adj0, adjList, p, now);
      FinishFeed(p, now, adj0, g0, before, exact);
    }

    /** `if (dirty) updateTopology()` after a merge (src/Topology.cc:534-535). */
    method FinishFeed(p: Packet, now: int, ghost adj0: AdjList, ghost g0: Graph, ghost before: seq<LinkInfo>,
                      ghost exact: bool)
      requires Valid() && p.Valid() && Validity(p) > 0 && !locked
      requires MergedFrom(adj0, adjList, p, now) && MergedValid(adj0, adjList, p, now)
      requires dirty ==> me in adjList && adjList[me].nodeValidity > now && |adjList.Keys| <= MAX_NODES
      requires Reweighed(weigh, adj0, g0, Graph(), Source(p), Links(p)) && RowsOf(adj0, g0)
      requires exact ==> Routed(g0, me, Dist(adj0), Prev(adj0), UINT_MAX, NextHops(adj0))
      requires before == if Source(p) in adj0 then Infos(adj0[Source(p)].linklist) else []
      requires !dirty ==> Links(p) == before
      modifies this`adjList, this`events, this`dirty, Repr`counterpart
      ensures Valid() && old(events) <= events && !dirty && FedFrom(adj0, adjList, p, now)
      ensures GraphFed(weigh, adj0, adjList, g0, Graph(), Source(p), Links(p))
      ensures old(dirty) ==> RoutesExact()
      ensures !old(dirty) && exact && (adjList.Keys == adj0.Keys || 0 !in adjList) ==>
                (RoutesExact() <==> StillFits(weigh, adj0, me, Source(p), Links(p)))
    {
      hide *;
      ghost var adj1, g1 := adjList, Graph();
      GraphRows();
      if dirty {
        Reroute(now);
      } else if exact {
        Unrouted(adj0, g0, p, now);
      }
      GraphRows();
      FedFromMerged(adj0, adj1, adjList, p, now);
      SurvivingLists(adj1, adjList, p, adj0, now);
      GraphFedFrom(weigh, adj0, adj1, adjList, g0, g1, Graph(), p, now);
    }

    lemma FeedReady(p: Packet, now: int)
      requires p.Valid() && PassesAssertions(p) && !HeaderMissing(p) && Routable(p, now)
      ensures Validity(p) > 0
      ensures AnnouncedBefore(Source(p)) == if Source(p) in adjList then Infos(adjList[Source(p)].linklist) else []
      ensures dirty || Links(p) != AnnouncedBefore(Source(p)) ==>
        && SelfPresent(adjList, me, Source(p), Links(p), now)
        && |adjList.Keys + {Source(p)} + LinkTargets(Links(p))
            + (if Source(p) in adjList then Neighbors(adjList[Source(p)].linklist) else {})| <= MAX_NODES
    {
    }

    lemma ExactUnfold()
      requires Valid() && RoutesExact()
      ensures Routed(Graph(), me, Dist(adjList), Prev(adjList), UINT_MAX, NextHops(adjList))
    {
    }

    /** The route update of `feed`. */
    method Reroute(now: int)
      requires Valid() && !locked && me in adjList && adjList[me].nodeValidity > now && |adjList.Keys| <= MAX_NODES
      modifies this`adjList, this`events, this`dirty, Repr`counterpart
      ensures Valid() && !dirty && old(events) <= events && RoutesExact()
      ensures SameLinks(Survivors(old(adjList), old(adjList).Keys, now), adjList) && adjList.Keys <= old(adjList).Keys
      ensures forall a | a in adjList && adjList[a].linklist == old(adjList)[a].linklist ::
          Graph()[a] == old(Graph())[a]
    {
      hide RTopology.RoutesExact, PointersOk, WeightsOk, Mirrors, Describes;
      var data, table := UpdateTopology(now);
      forall a | a in adjList && adjList[a].linklist == old(adjList)[a].linklist ensures Graph()[a] == old(Graph())[a] {
        var ll := adjList[a].linklist;
        assert forall l | l in ll :: l.metricWeight == old(l.metricWeight);
        assert LinkWeights(ll) == old(LinkWeights(ll));
      }
    }

    /** The rows of the graph. */
    lemma GraphRows()
      requires Valid()
      ensures RowsOf(adjList, Graph()) && Graph().Keys == adjList.Keys
    {
    }

    /** A repeated announcement leaves the routes to the new weights. */
    lemma Unrouted(adj0: AdjList, g0: Graph, p: Packet, now: int)
      requires Valid() && p.Valid() && MergedFrom(adj0, adjList, p, now)
      requires Reweighed(weigh, adj0, g0, Graph(), Source(p), Links(p)) && RowsOf(adj0, g0)
      requires Routed(g0, me, Dist(adj0), Prev(adj0), UINT_MAX, NextHops(adj0))
      requires Links(p) == if Source(p) in adj0 then Infos(adj0[Source(p)].linklist) else []
      ensures adjList.Keys == adj0.Keys || 0 !in adjList ==>
        (RoutesExact() <==> StillFits(weigh, adj0, me, Source(p), Links(p)))
    {
      hide RTopology.Valid, Reweighed, StillFits, FirstHop, Links, Infos, NameAfter, Value, MergedFrom, LinkTargets;
      hide Neighbors, WeightsWithin, NodeMatches;
      var src, links := Source(p), Links(p);
      GraphRows();
      GraphMatches();
      MatchedWithin(adjList, Graph());
      MergedFacts(adj0, adjList, p, now);
      RepeatedRoutes(weigh, adj0, adjList, g0, Graph(), me, src, links);
    }

    /** `reset`: every other node is declared expired at `clock`, then expiry
        runs for the time `now` of the current event. */
    method Reset(clock: int, now: int)
      requires Valid() && adjList.Keys != {}
      modifies this`adjList, this`events, this`dirty, Repr`counterpart
      ensures Valid() && dirty && old(events) <= events && adjList.Keys <= old(adjList).Keys
      ensures adjList == Expired(Invalidated(old(adjList), me, clock), locked, now)
      ensures !locked && clock <= now ==>
        adjList.Keys == if me in old(adjList) && old(adjList)[me].nodeValidity > now then {me} else {}
      ensures !locked && clock > now ==> forall v | v in old(adjList) && v != me ::
        v in adjList && adjList[v] == old(adjList)[v].(nodeValidity := clock, edgeValidity := clock)
      ensures !locked ==> (me in adjList <==> me in old(adjList) && old(adjList)[me].nodeValidity > now)
      ensures !locked && me in adjList ==>
        var own := old(adjList)[me]; adjList[me] == if own.edgeValidity > now then own else own.(linklist := [])
      ensures locked ==> adjList.Keys == old(adjList).Keys && (me in adjList ==> adjList[me] == old(adjList)[me])
      ensures locked ==> forall v | v in adjList && v != me ::
        adjList[v] == old(adjList)[v].(nodeValidity := clock, edgeValidity := clock)
    {
      hide Shape, PointersOk, WeightsOk, Mirrors, Within, Invalidated, Survivors, RoutesOutlive, NextTimeout;
      hide RTopology.RoutesExact, RTopology.Graph;
      dirty := true;
      Invalidate(clock);
      var next := RemoveOldNodes(now);
      ResetAt(old(adjList), me, clock, locked, now);
    }

    /** A reset whose clock is ahead of the event takes effect at the next expiry:
        then no other node is left. */
    method ResetThenExpire(clock: int, now: int, later: int) returns (next: int)
      requires Valid() && !locked && me in adjList && adjList[me].nodeValidity > now && clock <= later
      modifies this`adjList, this`events, this`dirty, Repr`counterpart
      ensures Valid() && dirty && old(events) <= events
      ensures adjList.Keys == if old(adjList)[me].nodeValidity > later then {me} else {}
    {
      hide RTopology.Valid, RTopology.RoutesExact, RoutesOutlive, NextTimeout, RTopology.Graph, Expired, Invalidated;
      Reset(clock, now);
      ghost var adj := adjList;
      assert adj.Keys <= old(adjList).Keys;
      next := RemoveOldNodes(later);
      assert forall v | v in adjList :: v in adj && v == me;
    }

    method Invalidate(clock: int)
      requires Valid()
      modifies this`adjList
      ensures Valid() && adjList == Invalidated(old(adjList), me, clock) && adjList.Keys == old(adjList).Keys
    {
      ghost var adj0 := adjList;
      adjList := map v | v in adjList ::
        if v == me then adjList[v] else adjList[v].(nodeValidity := clock, edgeValidity := clock);
      PruneKeepsWeights(adj0, adjList, Repr);
      SameStoredKeepsPointers(adj0, adjList, Repr);
      assert Mirrors(Replay(snapshot, events), adjList);
    }

    /** Any run of packets, cleanups, resets and locking, with networks of any size:
        the invariant holds, and an observer who knew the graph at the start and
        followed the notifications knows it at the end. The run ends early only at
        an assertion of the code: the own node is missing when routes are to be
        computed, or no node is left to clean up. `routes` stands for what
        `calcRoutes` leaves where its distances are out of range. */
    method Run(ops: seq<Op>, routes: NodeId -> Route, ghost o: Observed) returns (done: nat)
      requires Valid() && forall op | op in ops :: op.Acceptable()
      requires Mirrors(o, adjList)
      modifies this, Repr
      ensures done <= |ops| && Valid() && old(events) <= events
      ensures Mirrors(Replay(o, events[|old(events)|..]), adjList)
      ensures done < |ops| ==> if ops[done].Packet? then dirty && me !in adjList else adjList.Keys == {}
    {
      hide *;
      ObserverKnows(o);
      done := 0;
      while done < |ops|
        invariant done <= |ops| && Valid() && old(events) <= events && fresh(Repr - old(Repr))
      {
        assert ops[done] in ops;
        var aborted := Perform(ops[done], routes);
        if aborted { break; }
        done := done + 1;
      }
      ghost var sent := events[|old(events)|..];
      assert events == old(events) + sent;
      ReplayAppend(snapshot, old(events), sent);
      StateMirrored();
    }

    /** `feed` where the routes cannot be vouched for: links and nodes are as always,
        the routes whatever the computation leaves with more than 1024 nodes. It is
        aborted exactly when there are routes to compute and the own node is gone. */
    method FeedAnyway(p: Packet, now: int, routes: NodeId -> Route) returns (aborted: bool)
      requires Valid() && p.Valid() && PassesAssertions(p) && !HeaderMissing(p) && !LinksMissing(p) && !locked
      modifies this, Repr
      ensures Valid() && fresh(Repr - old(Repr)) && old(events) <= events
      ensures aborted <==> old(UpdatesRoutes(p) && !SelfPresent(adjList, me, Source(p), Links(p), now))
      ensures aborted ==> dirty && me !in adjList
    {
      hide *;
      ghost var adj0 := adjList;
      UpdatesFacts(p);
      MergePacket(p, now);
      SelfPresentExact(adj0, adjList, me, p, now);
      SourceMerged(adj0, adjList, p, now);
      aborted := false;
      if dirty {
        ghost var adj1 := adjList;
        var next := RemoveOldNodes(now);
        SelfSurvives(adj1, me, now);
        aborted := me !in adjList;
        if !aborted { Overwrite(routes); }
      }
    }

    lemma UpdatesFacts(p: Packet)
      requires p.Valid() && PassesAssertions(p) && !HeaderMissing(p)
      ensures Validity(p) > 0 && (UpdatesRoutes(p) <==> dirty || Links(p) != AnnouncedBefore(Source(p)))
    {
    }

    method Overwrite(routes: NodeId -> Route)
      requires Valid()
      modifies this`adjList, this`dirty
      ensures Valid() && SameLinks(old(adjList), adjList) && !dirty
    {
      hide RTopology.Valid;
      adjList := map v | v in adjList ::
        adjList[v].(distance := routes(v).distance, prevHop := routes(v).prevHop, nextHop := routes(v).nextHop);
      dirty := false;
      RoutingKeepsValid();
    }

    method Perform(op: Op, routes: NodeId -> Route) returns (aborted: bool)
      requires Valid() && op.Acceptable()
      modifies this, Repr
      ensures Valid() && old(events) <= events && fresh(Repr - old(Repr))
      ensures aborted ==> if op.Packet? then dirty && me !in adjList else adjList.Keys == {}
    {
      hide RTopology.Valid, FedFrom, GraphFed, StillFits, PassesAssertions, RTopology.RoutesExact, RTopology.Routable;
      hide RTopology.Graph, RTopology.UpdatesRoutes, SelfPresent, RoutesOutlive;
      aborted := false;
      match op {
        case Packet(p, now) =>
          if locked || HeaderMissing(p) || Routable(p, now) {
            Feed(p, now);
          } else {
            aborted := FeedAnyway(p, now, routes);
          }
        case Cleanup(now) =>
          aborted := adjList.Keys == {};
          if !aborted { var next := RemoveOldNodes(now); }
        case Restart(clock, now) =>
          aborted := adjList.Keys == {};
          if !aborted { Reset(clock, now); }
        case Lock(on) =>
          SetLocked(on);
      }
    }

    method SetLocked(on: bool)
      requires Valid()
      modifies this`locked
      ensures Valid() && locked == on
    {
      locked := on;
    }

    lemma StateMirrored()
      requires Valid()
      ensures Mirrors(Replay(snapshot, events), adjList)
    {
    }

    lemma ObserverKnows(o: Observed)
      requires Valid() && Mirrors(o, adjList)
      ensures o == Replay(snapshot, events)
    {
      MirrorUnique(o, Replay(snapshot, events), adjList);
    }
  }

  /** A stored link as the graph `g` sees it. */
  ghost predicate MatchesGraph(g: Graph, n: NodeId, l: LinkQuality)
    reads l
  {
    && l.metricWeight <= MAX_WEIGHT
    && (l.neighbor in g ==> Edge(g, n, l.neighbor) && Weight(g, n, l.neighbor) == l.metricWeight)
  }

  ghost predicate Reached(adj: AdjList, d: nat, l: LinkQuality)
    reads l
  {
    l.neighbor in adj ==> adj[l.neighbor].distance <= d + l.metricWeight
  }

  /** With at most 1024 nodes and clamped weights no sum reaches 2^32 - 1. */
  lemma NoOverflow(g: Graph, me: NodeId, adj: AdjList, done: set<NodeId>, todo: set<NodeId>, n: NodeId)
    requires Progress(g, me, adj, done, todo) && n in todo && |g.Keys| <= MAX_NODES
    ensures adj[n].distance <= UINT_MAX
    ensures adj[n].distance < UINT_MAX ==> adj[n].distance + MAX_WEIGHT < UINT_MAX
  {
    StrictSubsetSize(done, g.Keys, n);
    assert Bounded(adj, me, |done|, n);
  }

  lemma LinksMatchGraph(g: Graph, n: NodeId, adj: AdjList)
    requires n in adj && adj.Keys == g.Keys && NodeMatches(g, n, adj[n].linklist)
    ensures forall i | 0 <= i < |adj[n].linklist| :: MatchesGraph(g, n, adj[n].linklist[i])
  {
    var ll := adj[n].linklist;
    forall i | 0 <= i < |ll| ensures MatchesGraph(g, n, ll[i]) {
      assert Weighted(ll[i]);
      if ll[i].neighbor in g { EdgeOfLink(adj, n, ll[i], g); }
    }
  }

  lemma MatchedWithin(adj: AdjList, g: Graph)
    requires adj.Keys == g.Keys && forall a | a in adj :: NodeMatches(g, a, adj[a].linklist)
    ensures WeightsWithin(g, MAX_WEIGHT)
  {
    forall u, v | Edge(g, u, v) ensures 1 <= Weight(g, u, v) <= MAX_WEIGHT {
      assert NodeMatches(g, u, adj[u].linklist);
      var l := LinkOfEdge(adj, u, v, g);
      assert Weighted(l);
    }
  }

  lemma NothingRelaxed(g: Graph, me: NodeId, adj: AdjList, n: NodeId)
    requires n in adj && adj.Keys == g.Keys
    ensures Relaxing(g, me, adj, adj, n)
  {
    assert forall v | v in g :: Changed(g, adj, adj, n, v);
  }

  lemma RelaxedFromLinks(g: Graph, me: NodeId, adj0: AdjList, adj: AdjList, n: NodeId, ll: seq<LinkQuality>)
    requires Relaxing(g, me, adj0, adj, n) && n in adj0 && ll == adj0[n].linklist && NodeMatches(g, n, ll)
    requires adj.Keys == g.Keys
    requires adj0[n].distance < UINT_MAX ==>
               && adj0[n].distance + MAX_WEIGHT < UINT_MAX
               && forall k | 0 <= k < |ll| :: Reached(adj, adj0[n].distance, ll[k])
    ensures AllRelaxed(g, adj, {n})
  {
    forall v ensures Relaxed(g, adj, n, v) {
      assert Changed(g, adj0, adj, n, n);
      if Edge(g, n, v) && adj0[n].distance < UINT_MAX {
        var l := LinkOfEdge(adj0, n, v, g);
        assert Weighted(l) && Reached(adj, adj0[n].distance, l);
      }
    }
  }

  lemma EdgeOfLink(adj: AdjList, n: NodeId, l: LinkQuality, g: Graph)
    requires n in adj && Sorted(adj[n].linklist) && l in adj[n].linklist && l.neighbor in adj
    requires g.Keys == adj.Keys && g[n] == LinkWeights(adj[n].linklist)
    ensures Edge(g, n, l.neighbor) && Weight(g, n, l.neighbor) == l.metricWeight
  {
    FindStored(adj[n].linklist, l);
    assert l.neighbor in Neighbors(adj[n].linklist);
  }

  lemma LinkOfEdge(adj: AdjList, n: NodeId, v: NodeId, g: Graph) returns (l: LinkQuality)
    requires n in adj && g.Keys == adj.Keys && g[n] == LinkWeights(adj[n].linklist)
    requires Edge(g, n, v)
    ensures l in adj[n].linklist && l.neighbor == v && l.metricWeight == Weight(g, n, v)
  {
    l := Find(adj[n].linklist, v);
  }
}
