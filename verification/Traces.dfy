/** Traced unicast packets (src/awds/TraceUcPacket.h, src/pinger.cc): every node that
    handles the packet writes its identifier behind those of the nodes before it. */
module Traces {
  import opened Bytes
  import opened Graphs
  import opened TopoPackets
  import opened Unicast
  import opened Forwarding

  const TRACE_END: nat := UNICAST_END + 2

  /** getTracePointer. */
  function Pointer(b: seq<byte>): nat
    requires |b| >= TRACE_END
  {
    Value(b[UNICAST_END..UNICAST_END + 2])
  }

  /** `n` identifiers from `from` on. */
  function ReadBack(b: seq<byte>, from: nat, n: nat): (s: seq<NodeId>)
    requires n == 0 || from + ID_SIZE * n <= |b|
    ensures |s| == n
  {
    seq(n, i requires 0 <= i < n => IdAt(b, from + ID_SIZE * i))
  }

  /** How many identifiers `appendNode` accepts from pointer `at` on. */
  function Room(size: nat, at: nat): nat {
    if at < size then (size - at - 1) / ID_SIZE else 0
  }

  function Min(a: nat, b: nat): nat { if a < b then a else b }

  predicate Same(b: seq<byte>, c: seq<byte>, from: nat, to: nat)
    requires |b| == |c| && to <= |b|
  {
    forall k | from <= k < to :: b[k] == c[k]
  }

  lemma SameId(b: seq<byte>, c: seq<byte>, from: nat, to: nat, at: nat)
    requires |b| == |c| && to <= |b| && Same(b, c, from, to) && from <= at && at + ID_SIZE <= to
    ensures IdAt(b, at) == IdAt(c, at)
  {
    hide IdOf;
    assert b[at..at + ID_SIZE] == c[at..at + ID_SIZE];
  }

  lemma SamePointer(b: seq<byte>, c: seq<byte>)
    requires |b| == |c| && |b| >= TRACE_END && Same(b, c, UNICAST_END, TRACE_END)
    ensures Pointer(b) == Pointer(c)
  {
    hide Value;
    assert b[UNICAST_END..UNICAST_END + 2] == c[UNICAST_END..UNICAST_END + 2];
  }

  lemma SameRead(b: seq<byte>, c: seq<byte>, from: nat, n: nat)
    requires |b| == |c| && (n > 0 ==> from + ID_SIZE * n <= |b| && Same(b, c, from, from + ID_SIZE * n))
    ensures ReadBack(b, from, n) == ReadBack(c, from, n)
  {
    hide Same;
    forall i | 0 <= i < n ensures IdAt(b, from + ID_SIZE * i) == IdAt(c, from + ID_SIZE * i) {
      SameId(b, c, from, from + ID_SIZE * n, from + ID_SIZE * i);
    }
  }

  lemma ReadMore(b: seq<byte>, from: nat, n: nat)
    requires from + ID_SIZE * (n + 1) <= |b|
    ensures ReadBack(b, from, n + 1) == ReadBack(b, from, n) + [IdAt(b, from + ID_SIZE * n)]
  {
  }

  // ---------------------------------------------------------------------
  // One node

  /** appendNode: the identifier stands at the pointer, which moves behind it;
      without room nothing happens. */
  lemma TraceAppended(b: seq<byte>, size: nat, id: NodeId)
    requires |b| == MAX_PACKET && size <= MAX_PACKET && Pointer(b) >= TRACE_END
    ensures var c := WithTrace(b, size, id); var at := Pointer(b);
      && Same(b, c, 0, UNICAST_END)
      && (at + ID_SIZE >= size ==> c == b)
      && (at + ID_SIZE < size ==>
            && Pointer(c) == at + ID_SIZE && IdAt(c, at) == id && Same(b, c, TRACE_END, at))
  {
    hide IdBytes, IdOf, Value, BigEndian;
    var at := Pointer(b);
    if at + ID_SIZE < size {
      var c := WithId(b, at, id);
      var two := BigEndian(at + ID_SIZE, 2);
      var d := c[..UNICAST_END] + two + c[TRACE_END..];
      assert d == WithTrace(b, size, id);
      WithIdAt(b, at, id, at);
      assert d[at..at + ID_SIZE] == c[at..at + ID_SIZE];
      assert d[UNICAST_END..UNICAST_END + 2] == two;
      assert Pow256(2) == 0x1_0000;
      ValueOfBigEndian(at + ID_SIZE, 2);
    }
  }

  /** A traced packet and one without trace that otherwise agree in the header. */
  predicate Twins(p: Packet, q: Packet) {
    && p.Valid() && q.Valid() && p.size == q.size && Traced(p.buffer) && !Traced(q.buffer)
    && Same(p.buffer, q.buffer, 1, UNICAST_END) && Pointer(p.buffer) >= TRACE_END
  }

  lemma TwinFields(p: Packet, q: Packet)
    requires Twins(p, q)
    ensures Ttl(p.buffer) == Ttl(q.buffer) && NextHop(p.buffer) == NextHop(q.buffer)
    ensures Sender(p.buffer) == Sender(q.buffer) && Dest(p.buffer) == Dest(q.buffer)
  {
    hide IdOf;
    SameId(p.buffer, q.buffer, 1, UNICAST_END, OFF_NEXT_HOP);
    SameId(p.buffer, q.buffer, 1, UNICAST_END, OFF_SRC);
    SameId(p.buffer, q.buffer, 1, UNICAST_END, OFF_DEST);
  }

  /** The packet after a node has counted down the TTL and, if it goes on, left its
      trace: before it looks for a route. */
  function Marked(me: NodeId, p: Packet): (r: Packet)
    requires p.Valid()
    ensures r.Valid() && r.size == p.size
  {
    var b := p.buffer[OFF_TTL := Decr(p.buffer[OFF_TTL])];
    p.(buffer := if Ttl(b) != 0 && NextHop(b) == me && Traced(b) then WithTrace(b, p.size, me) else b)
  }

  lemma TwinsMarked(me: NodeId, p: Packet, q: Packet)
    requires Twins(p, q)
    ensures Twins(Marked(me, p), Marked(me, q)) && Marked(me, q).buffer == q.buffer[OFF_TTL := Decr(Ttl(q.buffer))]
    ensures Ttl(Marked(me, p).buffer) == Decr(Ttl(p.buffer))
    ensures NextHop(Marked(me, p).buffer) == NextHop(p.buffer) && Sender(Marked(me, p).buffer) == Sender(p.buffer)
    ensures NextHop(Marked(me, q).buffer) == NextHop(q.buffer)
  {
    hide IdOf, WithTrace, Value;
    var b, c := p.buffer[OFF_TTL := Decr(p.buffer[OFF_TTL])], Marked(me, p).buffer;
    SamePointer(b, p.buffer);
    TraceAppended(b, p.size, me);
    TwinFields(p, q);
    SameId(p.buffer, c, 0, OFF_TTL, OFF_SRC);
    SameId(p.buffer, c, 0, OFF_TTL, OFF_NEXT_HOP);
    SameId(q.buffer, Marked(me, q).buffer, 0, OFF_TTL, OFF_NEXT_HOP);
  }

  /** `recv_unicast` from there. */
  lemma ReceivedMarked(me: NodeId, nh: map<NodeId, NodeId>, p: Packet)
    requires p.Valid()
    requires NextHop(Marked(me, p).buffer) == NextHop(p.buffer) && Ttl(Marked(me, p).buffer) == Decr(Ttl(p.buffer))
    ensures var c := Marked(me, p).buffer;
      Received(me, nh, p) ==
        if Ttl(c) == 0 || NextHop(c) != me then (Drop, c)
        else if Dest(c) == me then (HandUp, c)
        else if !HasRoute(me, nh, Dest(c)) then (Drop, c)
        else (Send(nh[Dest(c)]), WithId(c, OFF_NEXT_HOP, nh[Dest(c)]))
  {
    hide IdOf, WithTrace;
    var b := p.buffer[OFF_TTL := Decr(p.buffer[OFF_TTL])];
    SameId(p.buffer, b, 0, OFF_TTL, OFF_NEXT_HOP);
  }

  /** Forwarding writes the next hop and nothing else. */
  lemma TwinsForwarded(p: Packet, q: Packet, hop: NodeId)
    requires Twins(p, q)
    ensures var r := p.(buffer := WithId(p.buffer, OFF_NEXT_HOP, hop));
      && Twins(r, q.(buffer := WithId(q.buffer, OFF_NEXT_HOP, hop)))
      && Pointer(r.buffer) == Pointer(p.buffer) && Same(r.buffer, p.buffer, TRACE_END, MAX_PACKET)
      && NextHop(r.buffer) == hop && Ttl(r.buffer) == Ttl(p.buffer) && Sender(r.buffer) == Sender(p.buffer)
  {
    hide IdOf, IdBytes, Value, WithId;
    var b, c := WithId(p.buffer, OFF_NEXT_HOP, hop), WithId(q.buffer, OFF_NEXT_HOP, hop);
    WithIdAt(p.buffer, OFF_NEXT_HOP, hop, OFF_NEXT_HOP);
    WithIdAt(q.buffer, OFF_NEXT_HOP, hop, OFF_NEXT_HOP);
    SamePointer(b, p.buffer);
    SameId(p.buffer, b, 0, OFF_NEXT_HOP, OFF_SRC);
    SameHop(p.buffer, q.buffer, hop);
  }

  lemma SameHop(b: seq<byte>, c: seq<byte>, hop: NodeId)
    requires |b| == |c| && |b| >= UNICAST_END && Same(b, c, 1, UNICAST_END)
    ensures Same(WithId(b, OFF_NEXT_HOP, hop), WithId(c, OFF_NEXT_HOP, hop), 1, UNICAST_END)
  {
    hide IdBytes;
  }

  /** The trace never changes what a node does with a packet. */
  lemma TwinsReceived(me: NodeId, nh: map<NodeId, NodeId>, p: Packet, q: Packet)
    requires Twins(p, q)
    ensures Received(me, nh, p).0 == Received(me, nh, q).0
    ensures Twins(p.(buffer := Received(me, nh, p).1), q.(buffer := Received(me, nh, q).1))
  {
    hide Marked, Received, WithId, Dest, NextHop, Ttl, Sender, Pointer;
    var p1, q1 := Marked(me, p), Marked(me, q);
    TwinFields(p, q);
    TwinsMarked(me, p, q);
    TwinFields(p1, q1);
    ReceivedMarked(me, nh, p);
    ReceivedMarked(me, nh, q);
    if Received(me, nh, p).0.Send? { TwinsForwarded(p1, q1, nh[Dest(p1.buffer)]); }
  }

  /** The packet without its trace flag. */
  function Untraced(p: Packet): (q: Packet)
    requires p.Valid()
    ensures q.Valid()
  {
    p.(buffer := p.buffer[0 := p.buffer[0] % 0x80])
  }

  lemma TwinUntraced(p: Packet)
    requires p.Valid() && Traced(p.buffer) && Pointer(p.buffer) >= TRACE_END
    ensures Twins(p, Untraced(p))
  {
    hide Value;
  }

  /** The trace after one node that the packet was addressed to. */
  lemma NodeTraces(me: NodeId, nh: map<NodeId, NodeId>, p: Packet)
    requires p.Valid() && Traced(p.buffer) && Pointer(p.buffer) >= TRACE_END && NextHop(p.buffer) == me
    ensures var (a, b) := Received(me, nh, p); var at := Pointer(p.buffer);
      && Traced(b) && Ttl(b) == Decr(Ttl(p.buffer)) && Sender(b) == Sender(p.buffer)
      && (a.Send? ==> NextHop(b) == a.to)
      && (if Ttl(b) != 0 && at + ID_SIZE < p.size
          then Pointer(b) == at + ID_SIZE && IdAt(b, at) == me && Same(b, p.buffer, TRACE_END, at)
          else Pointer(b) == at && Same(b, p.buffer, TRACE_END, MAX_PACKET))
  {
    hide Marked, Received, WithId, Dest, NextHop, Ttl, Sender, Pointer, IdAt;
    var q := Untraced(p);
    TwinUntraced(p);
    TwinsMarked(me, p, q);
    ReceivedMarked(me, nh, p);
    MarkedTrace(me, p);
    var c := Marked(me, p);
    if Received(me, nh, p).0.Send? {
      var hop := nh[Dest(c.buffer)];
      TwinsForwarded(c, Marked(me, q), hop);
      if Ttl(c.buffer) != 0 && Pointer(p.buffer) + ID_SIZE < p.size {
        SameId(WithId(c.buffer, OFF_NEXT_HOP, hop), c.buffer, TRACE_END, MAX_PACKET, Pointer(p.buffer));
      }
    }
  }

  lemma MarkedTrace(me: NodeId, p: Packet)
    requires p.Valid() && Traced(p.buffer) && Pointer(p.buffer) >= TRACE_END && NextHop(p.buffer) == me
    ensures var c := Marked(me, p).buffer; var at := Pointer(p.buffer);
      && Traced(c)
      && (if Decr(Ttl(p.buffer)) != 0 && at + ID_SIZE < p.size
          then Pointer(c) == at + ID_SIZE && IdAt(c, at) == me && Same(c, p.buffer, TRACE_END, at)
          else Pointer(c) == at && Same(c, p.buffer, TRACE_END, MAX_PACKET))
  {
    hide IdOf, WithTrace, Value;
    var b := p.buffer[OFF_TTL := Decr(p.buffer[OFF_TTL])];
    SamePointer(b, p.buffer);
    SameId(p.buffer, b, 0, OFF_TTL, OFF_NEXT_HOP);
    TraceAppended(b, p.size, me);
  }

  // ---------------------------------------------------------------------
  // A journey

  /** On any tables, a traced packet goes where it would go without trace. */
  lemma {:induction false} TwinsTravel(tables: map<NodeId, map<NodeId, NodeId>>, at: NodeId, p: Packet, q: Packet)
    requires Twins(p, q) && Ttl(p.buffer) > 0 && at in tables
    ensures Ttl(q.buffer) > 0 && Travel(tables, at, p) == Travel(tables, at, q)
    decreases Ttl(p.buffer)
  {
    hide Received, Pointer, Sender, Same;
    TwinFields(p, q);
    TwinsReceived(at, tables[at], p, q);
    var (a, b) := Arrived(at, tables[at], p);
    var p1, q1 := p.(buffer := b), q.(buffer := Arrived(at, tables[at], q).1);
    if Sender(p.buffer) != at {
      TwinFields(p1, q1);
      if a.Send? && a.to in tables && 0 < Ttl(b) < Ttl(p.buffer) { TwinsTravel(tables, a.to, p1, q1); }
    }
  }

  lemma TwinsLaunch(tables: map<NodeId, map<NodeId, NodeId>>, at: NodeId, p: Packet, q: Packet)
    requires Twins(p, q) && at in tables
    ensures Launch(tables, at, p) == Launch(tables, at, q)
  {
    hide Received, Pointer, Same, Travel;
    var p0, q0 := ToItself(at, p), ToItself(at, q);
    TwinsToItself(at, p, q);
    TwinsReceived(at, tables[at], p0, q0);
    var p1, q1 := p.(buffer := Received(at, tables[at], p0).1), q.(buffer := Received(at, tables[at], q0).1);
    TwinFields(p1, q1);
    var a := Received(at, tables[at], p0).0;
    if a.Send? && a.to in tables && 0 < Ttl(p1.buffer) { TwinsTravel(tables, a.to, p1, q1); }
  }

  /** The packet `sendUnicast` hands to `recv_unicast`. */
  function ToItself(me: NodeId, p: Packet): (q: Packet)
    requires p.Valid()
    ensures q.Valid() && q.size == p.size
  {
    var b := p.buffer[OFF_TTL := Incr(p.buffer[OFF_TTL])];
    p.(buffer := WithId(b, OFF_NEXT_HOP, me))
  }

  lemma TwinsToItself(me: NodeId, p: Packet, q: Packet)
    requires Twins(p, q)
    ensures Twins(ToItself(me, p), ToItself(me, q))
    ensures var b := ToItself(me, p).buffer;
      && NextHop(b) == me && Ttl(b) == Incr(Ttl(p.buffer)) && Sender(b) == Sender(p.buffer)
      && Pointer(b) == Pointer(p.buffer) && Same(b, p.buffer, TRACE_END, MAX_PACKET)
  {
    hide IdOf, Value, WithId;
    var p1 := p.(buffer := p.buffer[OFF_TTL := Incr(p.buffer[OFF_TTL])]);
    var q1 := q.(buffer := q.buffer[OFF_TTL := Incr(q.buffer[OFF_TTL])]);
    SamePointer(p1.buffer, p.buffer);
    SameId(p1.buffer, p.buffer, 0, OFF_TTL, OFF_SRC);
    TwinsForwarded(p1, q1, me);
  }

  /** The buffer when the journey is over. */
  function Left(tables: map<NodeId, map<NodeId, NodeId>>, at: NodeId, p: Packet): (b: seq<byte>)
    requires p.Valid() && Ttl(p.buffer) > 0 && at in tables
    ensures |b| == MAX_PACKET
    decreases Ttl(p.buffer)
  {
    var (a, b) := Arrived(at, tables[at], p);
    if a.Send? && a.to in tables && 0 < Ttl(b) < Ttl(p.buffer) then Left(tables, a.to, p.(buffer := b)) else b
  }

  function LeftOfLaunch(tables: map<NodeId, map<NodeId, NodeId>>, at: NodeId, p: Packet): (b: seq<byte>)
    requires p.Valid() && at in tables
    ensures |b| == MAX_PACKET
  {
    var (a, b) := Sent(at, tables[at], p);
    if a.Send? && a.to in tables && 0 < Ttl(b) then Left(tables, a.to, p.(buffer := b)) else b
  }

  /** How many nodes of a journey leave their trace: all but a last one that drops
      the packet because its TTL is used up or because it sent it. */
  function Recorders(visited: seq<NodeId>, ttl: byte, back: bool): nat
    requires visited != []
  {
    if ttl == 0 || back then |visited| - 1 else |visited|
  }

  /** The identifiers read back behind those of before. */
  predicate Recorded(b: seq<byte>, b': seq<byte>, from: nat, n: nat, visited: seq<NodeId>, m: nat)
    requires |b| == |b'| && |b| >= TRACE_END && m <= |visited|
  {
    && (n == 0 || from + ID_SIZE * n <= |b|) && (n + m == 0 || from + ID_SIZE * (n + m) <= |b|)
    && Pointer(b') == from + ID_SIZE * (n + m)
    && ReadBack(b', from, n + m) == ReadBack(b, from, n) + visited[..m]
  }

  lemma NothingRecorded(b: seq<byte>, b': seq<byte>, from: nat, n: nat, visited: seq<NodeId>)
    requires |b| == |b'| == MAX_PACKET && Pointer(b') == from + ID_SIZE * n && from >= TRACE_END
    requires Same(b', b, TRACE_END, MAX_PACKET) && (n == 0 || from + ID_SIZE * n <= |b|)
    ensures Recorded(b, b', from, n, visited, 0)
  {
    hide IdAt, Pointer;
    SameRead(b, b', from, n);
  }

  lemma OneRecorded(b: seq<byte>, b': seq<byte>, from: nat, n: nat, id: NodeId)
    requires |b| == |b'| == MAX_PACKET && from >= TRACE_END
    requires var at := from + ID_SIZE * n;
      at + ID_SIZE <= |b| && Pointer(b') == at + ID_SIZE && IdAt(b', at) == id && Same(b', b, TRACE_END, at)
    ensures Recorded(b, b', from, n, [id], 1)
  {
    hide IdAt, Pointer;
    SameRead(b, b', from, n);
    ReadMore(b', from, n);
  }

  lemma MoreRecorded(b: seq<byte>, b1: seq<byte>, b': seq<byte>, from: nat, n: nat, id: NodeId, rest: seq<NodeId>,
                     m: nat)
    requires |b| == |b1| == |b'| == MAX_PACKET && m <= |rest|
    requires Recorded(b, b1, from, n, [id], 1) && Recorded(b1, b', from, n + 1, rest, m)
    ensures Recorded(b, b', from, n, [id] + rest, m + 1)
  {
    hide IdAt, Pointer, ReadBack;
    assert ([id] + rest)[..m + 1] == [id] + rest[..m];
  }

  /** A packet addressed to `at` that carries `n` identifiers already. */
  predicate Carries(p: Packet, at: NodeId, from: nat, n: nat) {
    && p.Valid() && Traced(p.buffer) && NextHop(p.buffer) == at
    && TRACE_END <= from && Pointer(p.buffer) == from + ID_SIZE * n && (n == 0 || from + ID_SIZE * n <= MAX_PACKET)
  }

  lemma StepTraced(at: NodeId, nh: map<NodeId, NodeId>, p: Packet, from: nat, n: nat)
    requires Carries(p, at, from, n)
    ensures var (a, b) := Received(at, nh, p); var room := Room(p.size, Pointer(p.buffer));
      var k := if Ttl(b) != 0 && room > 0 then 1 else 0;
      && Ttl(b) == Decr(Ttl(p.buffer)) && Sender(b) == Sender(p.buffer) && (a.Send? ==> Ttl(b) > 0)
      && Recorded(p.buffer, b, from, n, [at], k)
      && Room(p.size, Pointer(b)) == room - k
      && (a.Send? ==> Carries(p.(buffer := b), a.to, from, n + k))
  {
    hide IdAt, Pointer, Traced, WithTrace, ReadBack, Recorded, Received, Same;
    NodeTraces(at, nh, p);
    SentOnward(at, nh, p);
    var b := Received(at, nh, p).1;
    if Ttl(b) != 0 && Pointer(p.buffer) + ID_SIZE < p.size {
      OneRecorded(p.buffer, b, from, n, at);
    } else {
      NothingRecorded(p.buffer, b, from, n, [at]);
    }
  }

  lemma SentOnward(me: NodeId, nh: map<NodeId, NodeId>, p: Packet)
    requires p.Valid()
    ensures Received(me, nh, p).0.Send? ==> Decr(Ttl(p.buffer)) != 0
  {
    hide WithTrace, IdAt, WithId;
  }

  lemma TravelUnfold(tables: map<NodeId, map<NodeId, NodeId>>, at: NodeId, p: Packet)
    requires p.Valid() && Ttl(p.buffer) > 0 && at in tables
    ensures Sender(p.buffer) == at ==> Travel(tables, at, p).visited == [at] && Left(tables, at, p) == p.buffer
    ensures Sender(p.buffer) != at ==>
      var (a, b) := Received(at, tables[at], p);
      if a.Send? && a.to in tables && 0 < Ttl(b) < Ttl(p.buffer)
      then var q := p.(buffer := b);
        && Travel(tables, at, p).visited == [at] + Travel(tables, a.to, q).visited
        && Left(tables, at, p) == Left(tables, a.to, q)
      else Travel(tables, at, p).visited == [at] && Left(tables, at, p) == b
  {
    hide Received, Sender;
  }

  /** The trace of a journey: the identifiers of the nodes in order, as many as
      there is room for. */
  lemma {:induction false} TravelTraced(tables: map<NodeId, map<NodeId, NodeId>>, at: NodeId, p: Packet, from: nat,
                                        n: nat)
    requires Carries(p, at, from, n) && Ttl(p.buffer) > 0 && at in tables
    ensures JourneyTraced(p, Travel(tables, at, p).visited, Left(tables, at, p), from, n)
    decreases Ttl(p.buffer)
  {
    hide Travel, Left, Received, Sender, Recorded, Pointer, Room;
    TravelUnfold(tables, at, p);
    if Sender(p.buffer) == at {
      NothingRecorded(p.buffer, p.buffer, from, n, [at]);
    } else {
      StepTraced(at, tables[at], p, from, n);
      var (a, b) := Received(at, tables[at], p);
      if a.Send? && a.to in tables {
        var room, p1 := Room(p.size, Pointer(p.buffer)), p.(buffer := b);
        var v1, b1 := Travel(tables, a.to, p1).visited, Left(tables, a.to, p1);
        if room > 0 {
          TravelTraced(tables, a.to, p1, from, n + 1);
          OneMoreTraced(p, p1, at, v1, b1, from, n);
        } else {
          TravelTraced(tables, a.to, p1, from, n);
          NoMoreTraced(p, p1, at, v1, b1, from, n);
        }
      }
    }
  }

  /** The journey of `p` over `v` that ends with buffer `b`. */
  predicate JourneyTraced(p: Packet, v: seq<NodeId>, b: seq<byte>, from: nat, n: nat) {
    && p.Valid() && |b| == MAX_PACKET && v != []
    && var back := v[|v| - 1] == Sender(p.buffer);
      && Ttl(b) == Ttl(p.buffer) - (if back then |v| - 1 else |v|)
      && Recorded(p.buffer, b, from, n, v, Min(Recorders(v, Ttl(b), back), Room(p.size, Pointer(p.buffer))))
  }

  lemma OneMoreTraced(p: Packet, p1: Packet, at: NodeId, v1: seq<NodeId>, b: seq<byte>, from: nat, n: nat)
    requires p.Valid() && p1.Valid() && p.size == p1.size && JourneyTraced(p1, v1, b, from, n + 1)
    requires Ttl(p1.buffer) == Ttl(p.buffer) - 1 && Sender(p1.buffer) == Sender(p.buffer)
    requires Recorded(p.buffer, p1.buffer, from, n, [at], 1)
    requires Room(p.size, Pointer(p.buffer)) == 1 + Room(p.size, Pointer(p1.buffer))
    ensures JourneyTraced(p, [at] + v1, b, from, n)
  {
    hide Recorded, Pointer, Room, Sender;
    var back := v1[|v1| - 1] == Sender(p.buffer);
    MoreRecorded(p.buffer, p1.buffer, b, from, n, at, v1,
      Min(Recorders(v1, Ttl(b), back), Room(p.size, Pointer(p1.buffer))));
  }

  lemma NoMoreTraced(p: Packet, p1: Packet, at: NodeId, v1: seq<NodeId>, b: seq<byte>, from: nat, n: nat)
    requires p.Valid() && p1.Valid() && p.size == p1.size && JourneyTraced(p1, v1, b, from, n)
    requires Ttl(p1.buffer) == Ttl(p.buffer) - 1 && Sender(p1.buffer) == Sender(p.buffer)
    requires Recorded(p.buffer, p1.buffer, from, n, [at], 0)
    requires Room(p.size, Pointer(p.buffer)) == 0 == Room(p.size, Pointer(p1.buffer))
    ensures JourneyTraced(p, [at] + v1, b, from, n)
  {
    hide Pointer, Room, Sender, ReadBack;
  }

  // ---------------------------------------------------------------------
  // From the sender

  /** Reading from `from` up to the pointer gives the first `m` nodes of `v`. */
  predicate PathRead(b: seq<byte>, from: nat, m: nat, v: seq<NodeId>) {
    && |b| == MAX_PACKET && m <= |v| && Pointer(b) == from + 6 * m && (m > 0 ==> Pointer(b) <= MAX_PACKET)
    && ReadBack(b, from, m) == v[..m]
  }

  /** A traced packet handed to `sendUnicast`, with any TTL and on any tables: it goes
      where it would go without trace, and afterwards the identifiers between the
      pointer's first and last position are those of the nodes it visited, in order,
      as many as there is room for. */
  lemma LaunchTraced(tables: map<NodeId, map<NodeId, NodeId>>, at: NodeId, p: Packet, from: nat)
    requires p.Valid() && at in tables && Traced(p.buffer) && Pointer(p.buffer) == from >= TRACE_END
    ensures Launch(tables, at, p) == Launch(tables, at, Untraced(p))
    ensures var v, b := Launch(tables, at, p).visited, LeftOfLaunch(tables, at, p);
      && v != [] && v[0] == at
      && var back := |v| > 1 && v[|v| - 1] == Sender(p.buffer);
         var m := Min(Recorders(v, Ttl(b), back), if from < p.size then (p.size - from - 1) / 6 else 0);
         && Ttl(b) == Ttl(p.buffer) - (if back then |v| - 2 else |v| - 1)
         && PathRead(b, from, m, v)
  {
    hide Received, Sender, Recorded, Travel, Left, WithId, Traced, Pointer, Carries, JourneyTraced, PathRead, ToItself;
    TwinUntraced(p);
    TwinsLaunch(tables, at, p, Untraced(p));
    CarriesNone(at, p, from);
    SentToItself(at, tables[at], p);
    var p0 := ToItself(at, p);
    StepTraced(at, tables[at], p0, from, 0);
    var (a, b) := Received(at, tables[at], p0);
    var p1 := p.(buffer := b);
    if a.Send? && a.to in tables {
      var k := if Room(p.size, from) > 0 then 1 else 0;
      TravelTraced(tables, a.to, p1, from, k);
      LaunchedOn(p0, p1, at, Travel(tables, a.to, p1).visited, Left(tables, a.to, p1), from, k);
    } else {
      RecordedFirst(p0.buffer, b, from, [at], Min(Recorders([at], Ttl(b), false), Room(p.size, from)));
    }
  }

  lemma CarriesNone(at: NodeId, p: Packet, from: nat)
    requires p.Valid() && Traced(p.buffer) && Pointer(p.buffer) == from >= TRACE_END
    ensures var p0 := ToItself(at, p);
      && Carries(p0, at, from, 0) && Decr(Ttl(p0.buffer)) == Ttl(p.buffer) && Sender(p0.buffer) == Sender(p.buffer)
      && Pointer(p0.buffer) == from
  {
    hide Sender, ToItself, Pointer, Traced;
    TwinUntraced(p);
    TwinsToItself(at, p, Untraced(p));
  }

  lemma SentToItself(at: NodeId, nh: map<NodeId, NodeId>, p: Packet)
    requires p.Valid()
    ensures Sent(at, nh, p) == Received(at, nh, ToItself(at, p))
  {
    hide Received, WithId;
  }

  lemma RecordedFirst(b: seq<byte>, b': seq<byte>, from: nat, v: seq<NodeId>, m: nat)
    requires |b| == |b'| == MAX_PACKET && m <= |v| && Recorded(b, b', from, 0, v, m)
    ensures PathRead(b', from, m, v)
  {
    hide Pointer, IdAt;
    assert ReadBack(b, from, 0) == [];
  }

  lemma LaunchedOn(p0: Packet, p1: Packet, at: NodeId, v1: seq<NodeId>, b: seq<byte>, from: nat, k: nat)
    requires p0.Valid() && p1.Valid() && p0.size == p1.size && k <= 1 && JourneyTraced(p1, v1, b, from, k)
    requires Sender(p1.buffer) == Sender(p0.buffer) && Recorded(p0.buffer, p1.buffer, from, 0, [at], k)
    requires k == if Room(p0.size, from) > 0 then 1 else 0
    requires Room(p0.size, Pointer(p1.buffer)) == Room(p0.size, from) - k
    ensures v1 != []
    ensures var v := [at] + v1; var back := v[|v| - 1] == Sender(p0.buffer);
      var m := Min(Recorders(v, Ttl(b), back), Room(p0.size, from));
      && Ttl(b) == Ttl(p1.buffer) - (if back then |v| - 2 else |v| - 1)
      && PathRead(b, from, m, v)
  {
    hide Pointer, Room, Sender, Recorded;
    var v := [at] + v1;
    var back := v1[|v1| - 1] == Sender(p0.buffer);
    var m1 := Min(Recorders(v1, Ttl(b), back), Room(p0.size, Pointer(p1.buffer)));
    if k == 1 {
      MoreRecorded(p0.buffer, p1.buffer, b, from, 0, at, v1, m1);
      RecordedFirst(p0.buffer, b, from, v, m1 + 1);
    } else {
      RecordedFirst(p1.buffer, b, from, v1, 0);
      assert v[..0] == v1[..0];
    }
  }

  /** A packet as `newUnicastPacket` makes it, with destination, trace flag and pointer
      set (src/pinger.cc:188-203). */
  predicate NewTraced(p: Packet, src: NodeId, t: NodeId, from: nat) {
    && p.Valid() && Ttl(p.buffer) == 32 && Traced(p.buffer) && Pointer(p.buffer) == from >= TRACE_END
    && Sender(p.buffer) == src && Dest(p.buffer) == t
  }

  /** In a converged network a traced packet is delivered like an untraced one, and
      names its path: all nodes visited if there is room for them, but never more than
      32, the last node dropping it unrecorded when the TTL is used up there. */
  lemma TracedDelivery(g: Graph, tables: map<NodeId, map<NodeId, NodeId>>, p: Packet, src: NodeId, t: NodeId,
                       from: nat)
    requires Converged(g, tables) && src in g && NewTraced(p, src, t, from)
    ensures src in tables
    ensures var j := Launch(tables, src, p);
      && (j.delivered <==> t in g && Reachable(g, src, t) && |HopPath(g, tables, src, t)| - 1 <= 31)
      && (t in g && Reachable(g, src, t) ==> j.visited <= HopPath(g, tables, src, t))
      && (j.delivered ==> j.visited == HopPath(g, tables, src, t))
      && (forall a, b | 0 <= a < b < |j.visited| :: j.visited[a] != j.visited[b])
    ensures var v, b := Launch(tables, src, p).visited, LeftOfLaunch(tables, src, p);
      var m := Min(Min(|v|, 32), if from < p.size then (p.size - from - 1) / 6 else 0);
      && |v| <= 33 && (Launch(tables, src, p).delivered ==> |v| <= 32)
      && PathRead(b, from, m, v)
  {
    hide Converged, Reachable, HopPath, Launch, LeftOfLaunch, Pointer, Traced, IdAt, PathRead;
    TableFacts(g, tables, src, t);
    LaunchTraced(tables, src, p, from);
    TwinUntraced(p);
    TwinFields(p, Untraced(p));
    Delivery(g, tables, Untraced(p), src, t);
  }

  /** The loop that prints the path (src/pinger.cc:261-271). */
  method PrintedPath(buf: array<byte>, from: nat, ghost n: nat) returns (path: seq<NodeId>, length: nat)
    requires buf.Length == MAX_PACKET && Pointer(buf[..]) == from + ID_SIZE * n
    requires n > 0 ==> from + ID_SIZE * n <= MAX_PACKET
    ensures length == n && path == ReadBack(buf[..], from, n)
  {
    hide IdAt, Value;
    var tPtr := LoadBytes(buf[..], UNICAST_END, 2);
    length := (tPtr - from) / ID_SIZE;
    path := [];
    var nPtr := from;
    while nPtr < tPtr
      invariant nPtr == from + ID_SIZE * |path| && |path| <= n && path == ReadBack(buf[..], from, |path|)
    {
      var node := LoadId(buf[..], nPtr);
      ReadMore(buf[..], from, |path|);
      path := path + [node];
      nPtr := nPtr + ID_SIZE;
    }
  }
}
