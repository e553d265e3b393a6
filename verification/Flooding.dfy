/** The flooding protocol: `newFloodPacket`, `sendBroadcast` and `recv_flood`
    (src/AwdsRouting.cc:386-393, 434-540) as steps of a network in which every
    broadcast reaches every neighbour of its sender, in any order. */
module Flooding {
  import opened Bytes
  import opened FloodHistories
  import opened Sets

  datatype Option<T> = None | Some(value: T)

  datatype Flood = Flood(id: FloodId, ttl: byte, lastHop: NodeId)

  /** The neighbour lists of a beacon. */
  datatype Beacon = Beacon(mprs: seq<NodeId>, noMprs: seq<NodeId>)

  /** A neighbour entry as far as beacons depend on it. */
  datatype Neighbour = Neighbour(id: NodeId, good: bool, mpr: bool)

  /** `calcMpr`: selection is switched off, every neighbour stays an MPR
      (src/beacon.cc:164-167). */
  function CalcMpr(ns: seq<Neighbour>): (r: seq<Neighbour>)
    ensures |r| == |ns| && forall i | 0 <= i < |r| :: r[i].mpr && r[i].id == ns[i].id && r[i].good == ns[i].good
  {
    seq(|ns|, i requires 0 <= i < |ns| => ns[i].(mpr := true))
  }

  function Select(ns: seq<Neighbour>, mpr: bool): seq<NodeId> {
    if ns == [] then []
    else (if ns[0].good && ns[0].mpr == mpr then [ns[0].id] else []) + Select(ns[1..], mpr)
  }

  /** `send_beacon`: MPRs first, then the other good neighbours. */
  function BeaconOf(ns: seq<Neighbour>): Beacon {
    var all := CalcMpr(ns);
    Beacon(Select(all, true), Select(all, false))
  }

  lemma {:induction false} NoOtherNeighbours(ns: seq<Neighbour>)
    requires forall i | 0 <= i < |ns| :: ns[i].mpr
    ensures Select(ns, false) == []
  {
    if ns != [] {
      NoOtherNeighbours(ns[1..]);
    }
  }

  /** A beacon lists exactly the good neighbours, all of them as MPRs. */
  lemma BeaconLists(ns: seq<Neighbour>, x: NodeId)
    ensures BeaconOf(ns).noMprs == []
    ensures x in BeaconOf(ns).mprs <==> exists i :: 0 <= i < |ns| && ns[i].good && ns[i].id == x
  {
    NoOtherNeighbours(CalcMpr(ns));
    SelectedMprs(CalcMpr(ns), x);
  }

  lemma {:induction false} SelectedMprs(ns: seq<Neighbour>, x: NodeId)
    requires forall i | 0 <= i < |ns| :: ns[i].mpr
    ensures x in Select(ns, true) <==> exists i :: 0 <= i < |ns| && ns[i].good && ns[i].id == x
  {
    if ns != [] {
      SelectedMprs(ns[1..], x);
      if i :| 0 <= i < |ns| && ns[i].good && ns[i].id == x {
        if i > 0 { assert ns[1..][i - 1] == ns[i]; }
      }
    }
  }

  /** The flooding state of one node; `history`, `handedUp` and `sent` are in
      order of time. */
  datatype Node = Node(history: seq<FloodId>, handedUp: seq<FloodId>, sent: seq<FloodId>,
                       beacons: map<NodeId, Beacon>, floodSeq: nat)

  /** `recv_flood`: the state after it and the packet it broadcasts, if any. */
  function RecvFlood(me: NodeId, n: Node, f: Flood): (Node, Option<Flood>) {
    if f.id in Window(n.history) then (n, None)
    else
      var n1 := n.(history := n.history + [f.id]);
      if f.ttl == 0 then (n1, None)
      else
        var n2 := n1.(handedUp := n1.handedUp + [f.id]);
        if f.lastHop in n.beacons && me in n.beacons[f.lastHop].noMprs then (n2, None)
        else if f.ttl == 1 then (n2, None)
        else (n2.(sent := n2.sent + [f.id]), Some(f.(lastHop := me, ttl := f.ttl - 1)))
  }

  /** Copies of one flood, each sent by a node that received the one before. */
  predicate Chain(nodes: seq<NodeId>, states: seq<Node>, fs: seq<Flood>) {
    && |fs| == |nodes| + 1 && |states| == |nodes|
    && forall i | 0 <= i < |nodes| :: RecvFlood(nodes[i], states[i], fs[i]).1 == Some(fs[i + 1])
  }

  /** Whatever the nodes have heard, a flood is repeated fewer times than its TTL
      says, each copy with one less and with its sender as last hop, and never by a
      node that the last hop lists as no MPR. */
  lemma {:induction false} ChainBounded(nodes: seq<NodeId>, states: seq<Node>, fs: seq<Flood>)
    requires Chain(nodes, states, fs)
    ensures nodes != [] ==> |nodes| < fs[0].ttl
    ensures var k := |nodes|; fs[k].id == fs[0].id && fs[k].ttl == fs[0].ttl - k
    ensures forall i | 0 <= i < |nodes| :: fs[i + 1].lastHop == nodes[i]
    ensures forall i | 0 <= i < |nodes| && fs[i].lastHop in states[i].beacons ::
      nodes[i] !in states[i].beacons[fs[i].lastHop].noMprs
  {
    hide RecvFlood;
    forall i | 0 <= i < |nodes|
      ensures fs[i + 1].lastHop == nodes[i]
      ensures fs[i].lastHop in states[i].beacons ==> nodes[i] !in states[i].beacons[fs[i].lastHop].noMprs
    {
      assert RecvFlood(nodes[i], states[i], fs[i]).1 == Some(fs[i + 1]);
      RepeatedBy(nodes[i], states[i], fs[i]);
    }
    if nodes != [] {
      var m := |nodes| - 1;
      ChainFront(nodes, states, fs, m);
      ChainBounded(nodes[..m], states[..m], fs[..m + 1]);
      assert RecvFlood(nodes[m], states[m], fs[m]).1 == Some(fs[m + 1]);
      RepeatedBy(nodes[m], states[m], fs[m]);
      assert fs[..m + 1][m] == fs[m] && fs[..m + 1][0] == fs[0];
    }
  }

  lemma ChainFront(nodes: seq<NodeId>, states: seq<Node>, fs: seq<Flood>, m: nat)
    requires Chain(nodes, states, fs) && m <= |nodes|
    ensures Chain(nodes[..m], states[..m], fs[..m + 1])
  {
    hide RecvFlood;
  }

  lemma RepeatedBy(me: NodeId, n: Node, f: Flood)
    requires RecvFlood(me, n, f).1.Some?
    ensures var g := RecvFlood(me, n, f).1.value;
      && f.ttl >= 2 && g == Flood(f.id, f.ttl - 1, me)
      && (f.lastHop in n.beacons ==> me !in n.beacons[f.lastHop].noMprs)
  {
    hide Window;
  }

  /** The imperative form, on the ring buffer. */
  class FloodReceiver {
    const me: NodeId
    const history: FloodHistory
    var handedUp: seq<FloodId>
    var sent: seq<FloodId>
    var beacons: map<NodeId, Beacon>
    var floodSeq: nat

    ghost function State(): Node
      reads this, history
    {
      Node(history.log, handedUp, sent, beacons, floodSeq)
    }

    constructor (me: NodeId, floodSeq: nat)
      ensures history.Valid() && fresh(history) && fresh(history.hist) && Accepted(history.log)
      ensures this.me == me && State() == Node([], [], [], map[], floodSeq)
    {
      this.me := me;
      history := new FloodHistory();
      handedUp, sent, beacons := [], [], map[];
      this.floodSeq := floodSeq;
    }

    method Receive(f: Flood) returns (out: Option<Flood>)
      requires history.Valid()
      modifies this, history, history.hist
      ensures history.Valid()
      ensures (State(), out) == RecvFlood(me, old(State()), f)
      ensures old(Accepted(history.log)) ==> Accepted(history.log)
    {
      if Accepted(history.log) { ReceivedAccepted(me, State(), f); }
      out := None;
      var known := history.Contains(f.id);
      if known { return; }
      history.Insert(f.id);
      if f.ttl == 0 { return; }
      handedUp := handedUp + [f.id];
      if f.lastHop in beacons && me in beacons[f.lastHop].noMprs { return; }
      if f.ttl - 1 == 0 { return; }
      sent := sent + [f.id];
      out := Some(f.(lastHop := me, ttl := f.ttl - 1));
    }

    /** Any packets, one after the other: whenever a flood stands twice in the log,
        it was accepted again only after 128 acceptances of pairwise distinct
        other floods. */
    method ReceiveAll(fs: seq<Flood>)
      requires history.Valid() && Accepted(history.log)
      modifies this, history, history.hist
      ensures history.Valid() && old(history.log) <= history.log
      ensures forall i, j | 0 <= i < j < |history.log| && history.log[i] == history.log[j] ::
        OthersBetween(history.log, i, j)
    {
      hide Accepted, OthersBetween, Window;
      for k := 0 to |fs|
        invariant history.Valid() && Accepted(history.log) && old(history.log) <= history.log
      {
        var out := Receive(fs[k]);
      }
      ghost var log := history.log;
      forall i, j | 0 <= i < j < |log| && log[i] == log[j] ensures OthersBetween(log, i, j) {
        DuplicateWindow(log, i, j);
      }
    }
  }

  /** `recv_flood` enters only floods its ring does not remember. */
  lemma ReceivedAccepted(me: NodeId, n: Node, f: Flood)
    requires Accepted(n.history)
    ensures Accepted(RecvFlood(me, n, f).0.history) && n.history <= RecvFlood(me, n, f).0.history
  {
    hide Window;
    var log := RecvFlood(me, n, f).0.history;
    forall j | 0 <= j < |log| ensures log[j] !in Window(log[..j]) {
      assert log[..j] == n.history[..j];
    }
  }

  // ---------------------------------------------------------------------
  // The network

  /** A copy of a broadcast on its way to one receiver. */
  datatype Message = Message(to: NodeId, flood: Flood)

  /** `hears[u]` are the nodes that receive what `u` sends. */
  datatype Net = Net(hears: map<NodeId, set<NodeId>>, nodes: map<NodeId, Node>,
                     flight: multiset<Message>, originated: seq<FloodId>)

  function Copies(to: set<NodeId>, f: Flood): set<Message> {
    set w | w in to :: Message(w, f)
  }

  /** Node `u` is in state `n` after a flood step and broadcasts `out`. */
  function After(s: Net, u: NodeId, n: Node, out: Option<Flood>): Net
    requires u in s.hears
  {
    s.(nodes := s.nodes[u := n],
       flight := if out.Some? then s.flight + multiset(Copies(s.hears[u], out.value)) else s.flight)
  }

  const SEQ_RANGE: nat := 0x1_0000
  const MAX_FLOODS: nat := 128
  const MAX_NODES: nat := 33

  /** `newFloodPacket` and `sendBroadcast`: TTL 32, raised by one, then received
      by the sender itself. */
  function Originated(s: Net, u: NodeId): Net
    requires u in s.hears && u in s.nodes
  {
    var n := s.nodes[u];
    var id := FloodId(u, n.floodSeq);
    var (n', out) := RecvFlood(u, n.(floodSeq := (n.floodSeq + 1) % SEQ_RANGE), Flood(id, 33, u));
    After(s, u, n', out).(originated := s.originated + [id])
  }

  /** Delivery of one copy; `recv_packet` ignores a node's own packets. */
  function Delivered(s: Net, m: Message): Net
    requires m.to in s.hears && m.to in s.nodes
  {
    var t := s.(flight := s.flight - multiset{m});
    if m.flood.id.src == m.to then t
    else
      var (n, out) := RecvFlood(m.to, s.nodes[m.to], m.flood);
      After(t, m.to, n, out)
  }

  /** Node `v` stores a beacon that `u` built from some neighbour table. */
  function Beaconed(s: Net, v: NodeId, u: NodeId, ns: seq<Neighbour>): Net
    requires v in s.nodes
  {
    var n := s.nodes[v];
    s.(nodes := s.nodes[v := n.(beacons := n.beacons[u := BeaconOf(ns)])])
  }

  ghost predicate Start(s: Net) {
    && s.nodes.Keys == s.hears.Keys && s.flight == multiset{} && s.originated == []
    && (forall u | u in s.hears :: s.hears[u] <= s.hears.Keys)
    && (forall u | u in s.nodes :: s.nodes[u].floodSeq < SEQ_RANGE
                                   && s.nodes[u] == Node([], [], [], map[], s.nodes[u].floodSeq))
  }

  datatype Step = Originate(u: NodeId) | Deliver(m: Message) | StoreBeacon(v: NodeId, u: NodeId, ns: seq<Neighbour>)

  ghost predicate Next(s: Net, t: Net, step: Step) {
    match step
    case Originate(u) => u in s.hears && u in s.nodes && t == Originated(s, u)
    case Deliver(m) => m in s.flight && m.to in s.hears && m.to in s.nodes && t == Delivered(s, m)
    case StoreBeacon(v, u, ns) => v in s.nodes && t == Beaconed(s, v, u, ns)
  }

  ghost predicate Run(states: seq<Net>, steps: seq<Step>) {
    && |states| == |steps| + 1 && Start(states[0])
    && forall i | 0 <= i < |steps| :: Next(states[i], states[i + 1], steps[i])
  }

  // ---------------------------------------------------------------------
  // The invariant

  ghost predicate NoRepeats(s: seq<FloodId>) {
    forall i, j | 0 <= i < j < |s| :: s[i] != s[j]
  }

  ghost function Members(s: seq<FloodId>): set<FloodId> {
    set x | x in s
  }

  /** The nodes that have accepted flood `x`. */
  ghost function Holders(s: Net, x: FloodId): set<NodeId> {
    set v | v in s.nodes && x in s.nodes[v].history
  }

  ghost predicate NodeOk(s: Net, v: NodeId)
    requires v in s.nodes
  {
    var n := s.nodes[v];
    && NoRepeats(n.history) && Members(n.history) <= Members(s.originated)
    && n.handedUp == n.history
    && NoRepeats(n.sent) && Members(n.sent) <= Members(n.history)
    && (forall u | u in n.beacons :: n.beacons[u].noMprs == [])
    && n.floodSeq < SEQ_RANGE
  }

  /** A copy in flight still has one TTL for every node that has not accepted
      its flood yet. */
  ghost predicate MessageOk(s: Net, m: Message) {
    && m.to in s.nodes && m.flood.id in s.originated
    && m.flood.ttl >= 1 && m.flood.ttl + |Holders(s, m.flood.id)| >= 33
  }

  ghost predicate InFlight(s: Net, v: NodeId, x: FloodId) {
    exists f: Flood :: Message(v, f) in s.flight && f.id == x
  }

  /** Where flood `x` has been accepted, it is accepted or on its way next door
      - or accepted everywhere. */
  ghost predicate Covered(s: Net, x: FloodId) {
    && x.src in Holders(s, x)
    && (Holders(s, x) == s.nodes.Keys
        || forall u, v | u in Holders(s, x) && u in s.hears && v in s.hears[u] ::
          v in Holders(s, x) || InFlight(s, v, x))
  }

  /** How long ago, in floods of its source, `x` was originated. */
  function Age(s: Net, x: FloodId): int
    requires x.src in s.nodes
  {
    (s.nodes[x.src].floodSeq - x.seqNo) % SEQ_RANGE
  }

  ghost predicate OriginOk(s: Net, x: FloodId) {
    x.src in s.nodes && x.seqNo < SEQ_RANGE && 1 <= Age(s, x) <= |s.originated|
  }

  ghost predicate Inv(s: Net) {
    && s.nodes.Keys == s.hears.Keys && |s.nodes.Keys| <= MAX_NODES && |s.originated| <= MAX_FLOODS
    && (forall u | u in s.hears :: s.hears[u] <= s.hears.Keys)
    && NoRepeats(s.originated)
    && (forall v {:trigger NodeOk(s, v)} | v in s.nodes :: NodeOk(s, v))
    && (forall m {:trigger MessageOk(s, m)} | m in s.flight :: MessageOk(s, m))
    && (forall x {:trigger Covered(s, x)} | x in s.originated :: Covered(s, x))
    && (forall x {:trigger OriginOk(s, x)} | x in s.originated :: OriginOk(s, x))
  }

  // ---------------------------------------------------------------------
  // Every step keeps the invariant

  lemma {:induction false} NoRepeatsSize(s: seq<FloodId>)
    requires NoRepeats(s)
    ensures |Members(s)| == |s|
  {
    if s != [] {
      var k := |s| - 1;
      NoRepeatsSize(s[..k]);
      assert Members(s) == Members(s[..k]) + {s[k]};
    } else {
      assert Members(s) == {};
    }
  }

  /** Within the bound of 128 floods the ring never forgets. */
  lemma HistoryRemembered(s: Net, v: NodeId)
    requires v in s.nodes && NodeOk(s, v) && NoRepeats(s.originated) && |s.originated| <= MAX_FLOODS
    ensures Window(s.nodes[v].history) == s.nodes[v].history
  {
    NoRepeatsSize(s.nodes[v].history);
    NoRepeatsSize(s.originated);
    SubsetSize(Members(s.nodes[v].history), Members(s.originated));
  }

  /** The part of the invariant that does not speak about coverage. */
  ghost predicate Base(s: Net) {
    && s.nodes.Keys == s.hears.Keys && |s.nodes.Keys| <= MAX_NODES && |s.originated| <= MAX_FLOODS
    && (forall u | u in s.hears :: s.hears[u] <= s.hears.Keys)
    && NoRepeats(s.originated)
    && (forall v {:trigger NodeOk(s, v)} | v in s.nodes :: NodeOk(s, v))
    && (forall m {:trigger MessageOk(s, m)} | m in s.flight :: MessageOk(s, m))
    && (forall x {:trigger OriginOk(s, x)} | x in s.originated :: OriginOk(s, x))
  }

  /** Node `v` accepts `f` for the first time; `gone` is the copy it consumes. */
  ghost predicate Accepts(s: Net, t: Net, v: NodeId, f: Flood, gone: multiset<Message>) {
    && Base(s) && v in s.nodes && f.id in s.originated && f.id !in s.nodes[v].history
    && f.ttl >= 1 && f.ttl + |Holders(s, f.id)| >= 33
    && (forall m | m in gone :: m.to == v && m.flood.id == f.id)
    && (forall y {:trigger Covered(s, y)} | y in s.originated && y != f.id :: Covered(s, y))
    && (Covered(s, f.id) || (v == f.id.src && Holders(s, f.id) == {}))
    && var (n, out) := RecvFlood(v, s.nodes[v], f);
       t == After(s.(flight := s.flight - gone), v, n, out)
  }

  lemma AcceptedNode(s: Net, t: Net, v: NodeId, f: Flood, gone: multiset<Message>)
    requires Accepts(s, t, v, f, gone)
    ensures v in s.nodes && f.id !in s.nodes[v].history && f.ttl >= 1 && f.ttl + |Holders(s, f.id)| >= 33
    ensures s.nodes.Keys == s.hears.Keys == t.hears.Keys && |s.nodes.Keys| <= MAX_NODES && t.hears == s.hears
    ensures s.hears[v] <= s.nodes.Keys && t.originated == s.originated
    ensures Covered(s, f.id) || (v == f.id.src && Holders(s, f.id) == {})
    ensures forall m | m in gone :: m.to == v && m.flood.id == f.id
    ensures NodeOk(t, v)
    ensures t.nodes[v].history == s.nodes[v].history + [f.id] && t.nodes[v].floodSeq == s.nodes[v].floodSeq
    ensures t.nodes.Keys == s.nodes.Keys && forall u | u in s.nodes && u != v :: t.nodes[u] == s.nodes[u]
    ensures t.flight == if f.ttl == 1 then s.flight - gone
                        else s.flight - gone + multiset(Copies(s.hears[v], f.(lastHop := v, ttl := f.ttl - 1)))
  {
    hide NodeOk, MessageOk, OriginOk, Covered, Holders, NoRepeats, Members, RecvFlood;
    assert NodeOk(s, v);
    HistoryRemembered(s, v);
    NewlyReceived(s, v, f);
    NodeStaysOk(s, t, v, f);
  }

  /** A flood that is new to a node, whose neighbours list no other than MPRs. */
  lemma NewlyReceived(s: Net, v: NodeId, f: Flood)
    requires v in s.nodes && NodeOk(s, v) && f.id !in Window(s.nodes[v].history) && f.ttl >= 1
    ensures var n := s.nodes[v];
      RecvFlood(v, n, f) == (
        n.(history := n.history + [f.id], handedUp := n.handedUp + [f.id],
           sent := if f.ttl == 1 then n.sent else n.sent + [f.id]),
        if f.ttl == 1 then None else Some(f.(lastHop := v, ttl := f.ttl - 1)))
  {
    hide NoRepeats, Members, Window;
  }

  lemma OneMore(s: seq<FloodId>, x: FloodId)
    requires NoRepeats(s) && x !in s
    ensures NoRepeats(s + [x]) && Members(s + [x]) == Members(s) + {x}
  {
  }

  lemma NodeStaysOk(s: Net, t: Net, v: NodeId, f: Flood)
    requires v in s.nodes && v in t.nodes && NodeOk(s, v) && f.id in s.originated && f.id !in s.nodes[v].history
    requires t.originated == s.originated
    requires var n := s.nodes[v];
      t.nodes[v] == n.(history := n.history + [f.id], handedUp := n.handedUp + [f.id],
                       sent := if f.ttl == 1 then n.sent else n.sent + [f.id])
    ensures NodeOk(t, v)
  {
    var n := s.nodes[v];
    assert f.id in Members(s.originated) && f.id !in Members(n.history);
    assert f.id !in n.sent by { assert f.id !in Members(n.sent); }
    hide NoRepeats, Members;
    OneMore(n.history, f.id);
    OneMore(n.sent, f.id);
  }

  /** How long ago a flood was originated does not change by accepting it. */
  lemma OriginKept(s: Net, t: Net, y: FloodId)
    requires OriginOk(s, y) && t.nodes.Keys == s.nodes.Keys && t.originated == s.originated
    requires y.src in s.nodes ==> t.nodes[y.src].floodSeq == s.nodes[y.src].floodSeq
    ensures OriginOk(t, y)
  {
  }

  lemma AcceptedHolders(s: Net, t: Net, v: NodeId, f: Flood, gone: multiset<Message>, y: FloodId)
    requires Accepts(s, t, v, f, gone)
    ensures Holders(t, y) == if y == f.id then Holders(s, y) + {v} else Holders(s, y)
    ensures y == f.id ==> |Holders(t, y)| == |Holders(s, y)| + 1
  {
    hide Accepts, NodeOk, Covered;
    AcceptedNode(s, t, v, f, gone);
    assert forall u | u in s.nodes :: y in t.nodes[u].history <==> y in s.nodes[u].history || (u == v && y == f.id);
  }

  lemma AcceptedMessages(s: Net, t: Net, v: NodeId, f: Flood, gone: multiset<Message>)
    requires Accepts(s, t, v, f, gone)
    ensures forall m | m in t.flight :: MessageOk(t, m)
  {
    AcceptedNode(s, t, v, f, gone);
    forall m | m in t.flight ensures MessageOk(t, m) {
      AcceptedHolders(s, t, v, f, gone, m.flood.id);
      if m in s.flight {
        assert MessageOk(s, m);
      } else {
        assert m in Copies(s.hears[v], f.(lastHop := v, ttl := f.ttl - 1));
      }
    }
  }

  lemma AcceptedElsewhere(s: Net, t: Net, v: NodeId, f: Flood, gone: multiset<Message>, y: FloodId)
    requires Accepts(s, t, v, f, gone) && y in s.originated && y != f.id
    ensures Covered(t, y)
  {
    AcceptedNode(s, t, v, f, gone);
    AcceptedHolders(s, t, v, f, gone, y);
    assert Covered(s, y);
    forall w | InFlight(s, w, y) ensures InFlight(t, w, y) {
      var g: Flood :| Message(w, g) in s.flight && g.id == y;
      assert Message(w, g) in t.flight;
    }
  }

  lemma AcceptedCovered(s: Net, t: Net, v: NodeId, f: Flood, gone: multiset<Message>)
    requires Accepts(s, t, v, f, gone)
    ensures Covered(t, f.id)
  {
    hide Accepts, NodeOk;
    var x := f.id;
    AcceptedNode(s, t, v, f, gone);
    AcceptedHolders(s, t, v, f, gone, x);
    if f.ttl == 1 {
      SubsetSize(Holders(t, x), t.nodes.Keys);
    } else {
      forall u, w | u in Holders(t, x) && u in t.hears && w in t.hears[u]
        ensures w in Holders(t, x) || InFlight(t, w, x)
      {
        if u == v {
          var m := Message(w, f.(lastHop := v, ttl := f.ttl - 1));
          assert m in Copies(s.hears[v], m.flood) && m in t.flight;
        } else if w !in Holders(t, x) {
          assert InFlight(s, w, x);
          var g: Flood :| Message(w, g) in s.flight && g.id == x;
          assert Message(w, g) in t.flight;
        }
      }
    }
  }

  lemma AcceptedRest(s: Net, t: Net, v: NodeId, f: Flood, gone: multiset<Message>)
    requires Accepts(s, t, v, f, gone)
    ensures t.hears == s.hears && t.originated == s.originated && t.nodes.Keys == s.nodes.Keys
    ensures forall u | u in t.nodes :: NodeOk(t, u)
    ensures forall y | y in t.originated :: OriginOk(t, y)
  {
    hide Covered, MessageOk, NoRepeats, Members, OriginOk, RecvFlood, Holders;
    AcceptedNode(s, t, v, f, gone);
    forall u | u in t.nodes ensures NodeOk(t, u) {
      if u != v { assert NodeOk(s, u); }
    }
    forall y | y in t.originated ensures OriginOk(t, y) {
      assert OriginOk(s, y);
      OriginKept(s, t, y);
    }
  }

  lemma AcceptKeepsInv(s: Net, t: Net, v: NodeId, f: Flood, gone: multiset<Message>)
    requires Accepts(s, t, v, f, gone)
    ensures Inv(t)
  {
    AcceptedRest(s, t, v, f, gone);
    AcceptedMessages(s, t, v, f, gone);
    forall y | y in t.originated ensures Covered(t, y) {
      hide *;
      if y == f.id { AcceptedCovered(s, t, v, f, gone); } else { AcceptedElsewhere(s, t, v, f, gone, y); }
    }
    hide Accepts, Covered, MessageOk, OriginOk, NodeOk;
  }

  /** A copy that is ignored: its receiver has accepted the flood before. */
  lemma IgnoreKeepsInv(s: Net, m: Message)
    requires Inv(s) && m in s.flight && m.to in Holders(s, m.flood.id)
    ensures Inv(s.(flight := s.flight - multiset{m}))
  {
    var t := s.(flight := s.flight - multiset{m});
    forall x | x in t.originated ensures Covered(t, x) && OriginOk(t, x) {
      assert Covered(s, x) && OriginOk(s, x) && Holders(t, x) == Holders(s, x);
      forall w | InFlight(s, w, x) && w !in Holders(s, x) ensures InFlight(t, w, x) {
        var g: Flood :| Message(w, g) in s.flight && g.id == x;
        assert Message(w, g) != m && Message(w, g) in t.flight;
      }
    }
    forall v | v in t.nodes ensures NodeOk(t, v) { assert NodeOk(s, v); }
    forall a | a in t.flight ensures MessageOk(t, a) {
      assert MessageOk(s, a) && Holders(t, a.flood.id) == Holders(s, a.flood.id);
    }
  }

  lemma DeliverKeepsInv(s: Net, m: Message)
    requires Inv(s) && m in s.flight && m.to in s.hears && m.to in s.nodes
    ensures Inv(Delivered(s, m))
  {
    var v, x := m.to, m.flood.id;
    assert MessageOk(s, m) && NodeOk(s, v) && Covered(s, x);
    HistoryRemembered(s, v);
    if x.src == v || x in s.nodes[v].history {
      IgnoreKeepsInv(s, m);
      assert Delivered(s, m) == s.(flight := s.flight - multiset{m}) by {
        assert s.nodes[v := s.nodes[v]] == s.nodes;
      }
    } else {
      assert Base(s);
      AcceptKeepsInv(s, Delivered(s, m), v, m.flood, multiset{m});
    }
  }

  /** The state in which a new flood is numbered but not yet received. */
  function Numbered(s: Net, u: NodeId): Net
    requires u in s.nodes
  {
    var n := s.nodes[u];
    s.(nodes := s.nodes[u := n.(floodSeq := (n.floodSeq + 1) % SEQ_RANGE)],
       originated := s.originated + [FloodId(u, n.floodSeq)])
  }

  lemma NumberedHolders(s: Net, u: NodeId, y: FloodId)
    requires u in s.nodes
    ensures Holders(Numbered(s, u), y) == Holders(s, y)
  {
    var t := Numbered(s, u);
    assert forall v | v in s.nodes :: t.nodes[v].history == s.nodes[v].history;
  }

  lemma NumberedOrigin(s: Net, u: NodeId, y: FloodId)
    requires Inv(s) && u in s.nodes && |s.originated| < MAX_FLOODS && y in Numbered(s, u).originated
    ensures OriginOk(Numbered(s, u), y)
    ensures y in s.originated ==> y != FloodId(u, s.nodes[u].floodSeq)
  {
    hide Covered, MessageOk, NoRepeats, Holders;
    assert NodeOk(s, u);
    var f := s.nodes[u].floodSeq;
    AgeStep(f, f);
    if y in s.originated {
      assert OriginOk(s, y);
      if y.src == u { AgeStep(f, y.seqNo); }
    }
  }

  /** The next number makes a flood one older. */
  lemma AgeStep(f: nat, q: nat)
    requires f < SEQ_RANGE && q < SEQ_RANGE
    ensures (f - q) % SEQ_RANGE == if q <= f then f - q else f - q + SEQ_RANGE
    ensures ((f + 1) % SEQ_RANGE - q) % SEQ_RANGE ==
      if (f - q) % SEQ_RANGE + 1 == SEQ_RANGE then 0 else (f - q) % SEQ_RANGE + 1
  {
  }

  lemma NumberedBase(s: Net, u: NodeId)
    requires Inv(s) && u in s.nodes && |s.originated| < MAX_FLOODS
    ensures Base(Numbered(s, u))
  {
    hide Covered, MessageOk, NodeOk, OriginOk, NoRepeats, Holders;
    var t, x := Numbered(s, u), FloodId(u, s.nodes[u].floodSeq);
    forall y | y in s.originated ensures y != x { NumberedOrigin(s, u, y); }
    OneMore(s.originated, x);
    forall v | v in t.nodes ensures NodeOk(t, v) { NumberedNode(s, u, v); }
    forall m | m in t.flight ensures MessageOk(t, m) { NumberedMessage(s, u, m); }
    forall y | y in t.originated ensures OriginOk(t, y) { NumberedOrigin(s, u, y); }
  }

  lemma NumberedNode(s: Net, u: NodeId, v: NodeId)
    requires Inv(s) && u in s.nodes && v in s.nodes
    ensures NodeOk(Numbered(s, u), v)
  {
    hide Covered, MessageOk, OriginOk, NoRepeats;
    assert NodeOk(s, v);
    assert Members(Numbered(s, u).originated) >= Members(s.originated);
  }

  lemma NumberedMessage(s: Net, u: NodeId, m: Message)
    requires Inv(s) && u in s.nodes && m in s.flight
    ensures MessageOk(Numbered(s, u), m)
  {
    hide Covered, NodeOk, OriginOk, NoRepeats, Holders;
    assert MessageOk(s, m);
    NumberedHolders(s, u, m.flood.id);
  }

  lemma NumberedCovered(s: Net, u: NodeId, y: FloodId)
    requires Inv(s) && u in s.nodes && y in s.originated
    ensures Covered(Numbered(s, u), y)
  {
    assert Covered(s, y);
    NumberedHolders(s, u, y);
    assert forall w :: InFlight(s, w, y) <==> InFlight(Numbered(s, u), w, y);
  }

  /** A new flood is in nobody's history. */
  lemma NobodyHolds(s: Net, u: NodeId, x: FloodId)
    requires Inv(s) && u in s.hears && |s.originated| < MAX_FLOODS && x == FloodId(u, s.nodes[u].floodSeq)
    ensures Holders(s, x) == {}
  {
    forall v | v in s.nodes ensures x !in s.nodes[v].history {
      assert NodeOk(s, v);
      if x in s.nodes[v].history {
        assert x in Members(s.nodes[v].history);
        NumberedOrigin(s, u, x);
      }
    }
  }

  lemma OriginateKeepsInv(s: Net, u: NodeId)
    requires Inv(s) && u in s.hears && |s.originated| < MAX_FLOODS
    ensures Inv(Originated(s, u))
  {
    var x := FloodId(u, s.nodes[u].floodSeq);
    var s1, t, f := Numbered(s, u), Originated(s, u), Flood(x, 33, u);
    NumberedBase(s, u);
    NumberedHolders(s, u, x);
    forall y | y in s1.originated && y != x ensures Covered(s1, y) { NumberedCovered(s, u, y); }
    NobodyHolds(s, u, x);
    assert x !in s1.nodes[u].history by { assert u !in Holders(s, x); }
    assert x in s1.originated by { assert s1.originated[|s.originated|] == x; }
    assert t == After(s1.(flight := s1.flight - multiset{}), u, RecvFlood(u, s1.nodes[u], f).0,
        RecvFlood(u, s1.nodes[u], f).1) by {
      assert s1.flight - multiset{} == s.flight;
      var n' := RecvFlood(u, s1.nodes[u], f).0;
      assert s1.nodes[u := n'] == s.nodes[u := n'];
    }
    AcceptKeepsInv(s1, t, u, f, multiset{});
  }

  lemma BeaconKeepsInv(s: Net, v: NodeId, u: NodeId, ns: seq<Neighbour>)
    requires Inv(s) && v in s.nodes
    ensures Inv(Beaconed(s, v, u, ns))
  {
    var t := Beaconed(s, v, u, ns);
    BeaconNodes(s, v, u, ns);
    forall m | m in t.flight ensures MessageOk(t, m) {
      assert MessageOk(s, m);
      BeaconFlood(s, v, u, ns, m.flood.id);
    }
    forall x | x in t.originated ensures Covered(t, x) && OriginOk(t, x) {
      assert Covered(s, x) && OriginOk(s, x);
      BeaconFlood(s, v, u, ns, x);
    }
    hide NodeOk, Covered, MessageOk, OriginOk;
  }

  /** Beacons do not touch the state of any flood. */
  lemma BeaconFlood(s: Net, v: NodeId, u: NodeId, ns: seq<Neighbour>, x: FloodId)
    requires v in s.nodes
    ensures Holders(Beaconed(s, v, u, ns), x) == Holders(s, x)
    ensures Covered(s, x) ==> Covered(Beaconed(s, v, u, ns), x)
    ensures OriginOk(s, x) ==> OriginOk(Beaconed(s, v, u, ns), x)
  {
    var t := Beaconed(s, v, u, ns);
    assert t.nodes.Keys == s.nodes.Keys;
    assert forall w | w in s.nodes :: t.nodes[w].history == s.nodes[w].history;
    assert forall w :: InFlight(s, w, x) <==> InFlight(t, w, x);
  }

  lemma BeaconNodes(s: Net, v: NodeId, u: NodeId, ns: seq<Neighbour>)
    requires Inv(s) && v in s.nodes
    ensures Beaconed(s, v, u, ns).nodes.Keys == s.nodes.Keys
    ensures forall w | w in s.nodes :: NodeOk(Beaconed(s, v, u, ns), w)
    ensures forall w | w in s.nodes ::
              && Beaconed(s, v, u, ns).nodes[w].history == s.nodes[w].history
              && Beaconed(s, v, u, ns).nodes[w].floodSeq == s.nodes[w].floodSeq
  {
    hide Covered, MessageOk, OriginOk, NoRepeats, Members;
    NoOtherNeighbours(CalcMpr(ns));
    forall w | w in s.nodes ensures NodeOk(Beaconed(s, v, u, ns), w) { assert NodeOk(s, w); }
  }

  lemma StartInv(s: Net)
    requires Start(s) && |s.nodes.Keys| <= MAX_NODES
    ensures Inv(s)
  {
    assert Members([]) == {};
    forall v | v in s.nodes ensures NodeOk(s, v) { assert s.nodes[v].history == [] && s.nodes[v].sent == []; }
  }

  lemma StepKeepsInv(s: Net, t: Net, step: Step)
    requires Inv(s) && Next(s, t, step) && |t.originated| <= MAX_FLOODS
    ensures Inv(t)
  {
    match step
    case Originate(u) => OriginateKeepsInv(s, u);
    case Deliver(m) => DeliverKeepsInv(s, m);
    case StoreBeacon(v, u, ns) => BeaconKeepsInv(s, v, u, ns);
  }

  lemma StepGrows(s: Net, t: Net, step: Step)
    requires Next(s, t, step)
    ensures |s.originated| <= |t.originated| && t.hears == s.hears
  {
  }

  /** Safety over whole runs: with at most 33 nodes and at most 128 floods in
      all, every state of every run satisfies the invariant. */
  lemma {:induction false} RunInv(states: seq<Net>, steps: seq<Step>)
    requires Run(states, steps) && |states[0].nodes.Keys| <= MAX_NODES
    requires |states[|steps|].originated| <= MAX_FLOODS
    ensures forall i | 0 <= i <= |steps| :: Inv(states[i])
    decreases |steps|
  {
    hide Inv, Start, Next;
    if |steps| == 0 {
      StartInv(states[0]);
    } else {
      var k := |steps| - 1;
      StepGrows(states[k], states[k + 1], steps[k]);
      RunInv(states[..k + 1], steps[..k]);
      assert states[..k + 1][k] == states[k];
      StepKeepsInv(states[k], states[k + 1], steps[k]);
      forall i | 0 <= i <= |steps| ensures Inv(states[i]) {
        if i <= k { assert states[..k + 1][i] == states[i]; }
      }
    }
  }

  // ---------------------------------------------------------------------
  // What the invariant means

  predicate Hop(hears: map<NodeId, set<NodeId>>, u: NodeId, v: NodeId) {
    u in hears && v in hears[u]
  }

  ghost predicate Path(hears: map<NodeId, set<NodeId>>, p: seq<NodeId>, u: NodeId, v: NodeId) {
    && |p| > 0 && p[0] == u && p[|p| - 1] == v
    && forall i | 0 < i < |p| :: Hop(hears, p[i - 1], p[i])
  }

  ghost predicate Connected(hears: map<NodeId, set<NodeId>>) {
    forall u, v | u in hears && v in hears :: exists p :: Path(hears, p, u, v)
  }

  lemma {:induction false} ClosedReaches(hears: map<NodeId, set<NodeId>>, within: set<NodeId>, p: seq<NodeId>,
                                         u: NodeId, v: NodeId)
    requires Path(hears, p, u, v) && u in within
    requires forall a | a in within && a in hears :: hears[a] <= within
    ensures v in within
    decreases |p|
  {
    if |p| > 1 {
      var k := |p| - 1;
      ClosedReaches(hears, within, p[..k], u, p[k - 1]);
      assert Hop(hears, p[k - 1], p[k]);
    }
  }

  /** No node ever hands up or broadcasts a flood twice, and the MPR test never
      suppresses one: whatever is accepted is handed up. */
  lemma NoDuplicates(states: seq<Net>, steps: seq<Step>, i: nat, v: NodeId)
    requires Run(states, steps) && |states[0].nodes.Keys| <= MAX_NODES
    requires |states[|steps|].originated| <= MAX_FLOODS && i <= |steps| && v in states[i].nodes
    ensures NoRepeats(states[i].nodes[v].handedUp) && NoRepeats(states[i].nodes[v].sent)
    ensures states[i].nodes[v].handedUp == states[i].nodes[v].history
    ensures forall u | u in states[i].nodes[v].beacons :: v !in states[i].nodes[v].beacons[u].noMprs
  {
    RunInv(states, steps);
    assert Inv(states[i]) && NodeOk(states[i], v);
  }

  /** Coverage: once nothing is in flight on a connected network, every node has
      handed up every originated flood exactly once. */
  lemma Coverage(states: seq<Net>, steps: seq<Step>, i: nat, v: NodeId, x: FloodId)
    requires Run(states, steps) && |states[0].nodes.Keys| <= MAX_NODES
    requires |states[|steps|].originated| <= MAX_FLOODS && i <= |steps|
    requires states[i].flight == multiset{} && Connected(states[i].hears)
    requires v in states[i].nodes && x in states[i].originated
    ensures multiset(states[i].nodes[v].handedUp)[x] == 1
  {
    hide Connected, Inv;
    RunInv(states, steps);
    QuietEverywhere(states[i], v, x);
    CountOnce(states[i].nodes[v].handedUp, x);
  }

  lemma QuietEverywhere(s: Net, v: NodeId, x: FloodId)
    requires Inv(s) && s.flight == multiset{} && Connected(s.hears) && v in s.nodes && x in s.originated
    ensures x in s.nodes[v].handedUp && NoRepeats(s.nodes[v].handedUp)
  {
    assert NodeOk(s, v) && Covered(s, x) && OriginOk(s, x);
    var within := Holders(s, x);
    if within != s.nodes.Keys {
      forall a | a in within && a in s.hears ensures s.hears[a] <= within {
        forall b | b in s.hears[a] ensures b in within { assert !InFlight(s, b, x); }
      }
      var p :| Path(s.hears, p, x.src, v);
      ClosedReaches(s.hears, within, p, x.src, v);
    }
    assert v in within;
  }

  lemma {:induction false} CountOnce(s: seq<FloodId>, x: FloodId)
    requires NoRepeats(s) && x in s
    ensures multiset(s)[x] == 1
  {
    var k := |s| - 1;
    assert s == s[..k] + [s[k]];
    if s[k] == x {
      assert x !in s[..k];
    } else {
      CountOnce(s[..k], x);
    }
  }
}
