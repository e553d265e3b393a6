/** The routing table as `updateTopology` dumps it for the kernel module:
    destination and next hop, six bytes each, in ascending order of the
    destination (src/Topology.cc:745-762). */
module RoutingTables {
  import opened Bytes

  datatype Entry = Entry(dest: NodeId, nextHop: NodeId)

  const ENTRY_SIZE: nat := 2 * ID_SIZE

  ghost predicate Ascending(t: seq<Entry>) {
    forall i, j | 0 <= i < j < |t| :: t[i].dest < t[j].dest
  }

  /** `t` lists exactly the pairs of `nh`, by ascending destination. */
  ghost predicate Describes(t: seq<Entry>, nh: map<NodeId, NodeId>) {
    && Ascending(t)
    && (forall i | 0 <= i < |t| :: t[i].dest in nh && nh[t[i].dest] == t[i].nextHop)
    && (forall d | d in nh :: exists i | 0 <= i < |t| :: t[i].dest == d)
  }

  function Dump(t: seq<Entry>): (b: seq<byte>)
    ensures |b| == ENTRY_SIZE * |t|
  {
    if t == [] then []
    else
      var last := t[|t| - 1];
      Dump(t[..|t| - 1]) + IdBytes(last.dest) + IdBytes(last.nextHop)
  }

  /** Entry `i` of the dumped bytes is entry `i` of the table. */
  lemma {:induction false} DumpEntry(t: seq<Entry>, i: nat)
    requires i < |t|
    ensures var b := Dump(t); var at := ENTRY_SIZE * i;
      && b[at..at + ID_SIZE] == IdBytes(t[i].dest)
      && b[at + ID_SIZE..at + ENTRY_SIZE] == IdBytes(t[i].nextHop)
  {
    hide IdBytes;
    var k := |t| - 1;
    var d := Dump(t[..k]);
    var b := Dump(t);
    assert b == d + IdBytes(t[k].dest) + IdBytes(t[k].nextHop);
    var at := 12 * i;
    if i < k {
      DumpEntry(t[..k], i);
      assert at + 12 <= |d| && d <= b;
      assert b[at..at + 6] == d[at..at + 6] && b[at + 6..at + 12] == d[at + 6..at + 12];
    } else {
      assert at == |d|;
    }
  }

  lemma DumpAppend(t: seq<Entry>, e: Entry)
    ensures Dump(t + [e]) == Dump(t) + IdBytes(e.dest) + IdBytes(e.nextHop)
  {
    assert (t + [e])[..|t|] == t;
  }

  lemma {:induction false} SmallestExists(s: set<NodeId>) returns (n: NodeId)
    requires s != {}
    ensures n in s && forall x | x in s :: n <= x
  {
    n :| n in s;
    var rest := s - {n};
    if rest != {} {
      var m := SmallestExists(rest);
      assert forall x | x in s :: x == n || x in rest;
      if m <= n { n := m; }
    } else {
      assert s == {n};
    }
  }

  /** `t` lists the pairs of `nh` outside of `rest`, all below `rest`. */
  ghost predicate DescribesBelow(t: seq<Entry>, nh: map<NodeId, NodeId>, rest: set<NodeId>) {
    && Ascending(t) && rest <= nh.Keys
    && (forall i | 0 <= i < |t| :: t[i].dest in nh && nh[t[i].dest] == t[i].nextHop)
    && (forall i, x | 0 <= i < |t| && x in rest :: t[i].dest < x)
    && (forall d | d in nh && d !in rest :: exists i | 0 <= i < |t| :: t[i].dest == d)
  }

  lemma DescribesNext(t: seq<Entry>, nh: map<NodeId, NodeId>, rest: set<NodeId>, id: NodeId)
    requires DescribesBelow(t, nh, rest) && id in rest && forall x | x in rest :: id <= x
    ensures DescribesBelow(t + [Entry(id, nh[id])], nh, rest - {id})
  {
    var t' := t + [Entry(id, nh[id])];
    forall d | d in nh && d !in rest - {id} ensures exists i | 0 <= i < |t'| :: t'[i].dest == d {
      if d == id {
        assert t'[|t|].dest == d;
      } else {
        var i :| 0 <= i < |t| && t[i].dest == d;
        assert t'[i].dest == d;
      }
    }
  }

  lemma DescribesNone(nh: map<NodeId, NodeId>)
    ensures DescribesBelow([], nh, nh.Keys) && Dump([]) == []
  {
  }

  lemma DescribesAll(t: seq<Entry>, nh: map<NodeId, NodeId>)
    requires DescribesBelow(t, nh, {})
    ensures Describes(t, nh)
  {
  }

  lemma Remaining(t: seq<Entry>, nh: map<NodeId, NodeId>, rest: set<NodeId>)
    requires DescribesBelow(t, nh, rest)
    ensures rest <= nh.Keys
  {
  }

  /** The dumping loop of `updateTopology`, without the leading length word. */
  method DumpTable(nh: map<NodeId, NodeId>) returns (data: seq<byte>, ghost table: seq<Entry>)
    ensures Describes(table, nh) && data == Dump(table)
    ensures exists t :: Describes(t, nh) && data == Dump(t)
  {
    hide DescribesBelow, Describes, Dump, IdBytes;
    data, table := [], [];
    var rest := nh.Keys;
    DescribesNone(nh);
    while rest != {}
      invariant DescribesBelow(table, nh, rest) && data == Dump(table)
    {
      ghost var m := SmallestExists(rest);
      var id :| id in rest && forall x | x in rest :: id <= x;
      Remaining(table, nh, rest);
      DescribesNext(table, nh, rest, id);
      DumpAppend(table, Entry(id, nh[id]));
      data := data + IdBytes(id) + IdBytes(nh[id]);
      table := table + [Entry(id, nh[id])];
      rest := rest - {id};
    }
    DescribesAll(table, nh);
  }
}
