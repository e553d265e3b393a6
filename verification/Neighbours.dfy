/** The sorted neighbour array and the reference-counted list of 2-hop
    neighbours (src/AwdsRouting.cc, src/awds/AwdsRouting.h, src/awds/NodeDescr.h,
    src/beacon.cc). Times and intervals are in milliseconds. */
module Neighbours {
  import opened Bytes
  import opened TopoPackets
  import opened Beacons
  import BeaconHistories

  const MAX_NEIGHBORS: nat := 40
  const NR_BEACON_TRIGGER_FAIL: nat := 8

  /** The most a counter can grow by one beacon, and how much may be lost with
      expired neighbours before 40 neighbours could overflow a `short`. */
  const MAX_LISTED: nat := 254
  const MAX_LOST: nat := 32767 - 41 * 254

  datatype NodeDescr = NodeDescr(
    id: NodeId,
    lastBeacon: Packet,
    lastBeaconTime: int,
    beaconInterval: int,
    linkValidity: int,
    beaconHist: nat,
    active: bool,
    mpr: bool)
  {
    predicate IsExpired(now: int) {
      !active && lastBeaconTime + beaconInterval * 32 < now
    }

    /** NodeDescr::updateInactive makes it inactive. */
    predicate Lapses(now: int) {
      active && linkValidity <= now
    }

    predicate Ok() {
      lastBeacon.Valid() && 0 < beaconHist < BeaconHistories.WORD_RANGE
    }
  }

  /** NodeDescr::init. */
  function Fresh(b: Packet, now: int): NodeDescr
    requires b.Valid()
  {
    NodeDescr(Source(b), b, now, 0, 0, 0, false, true)
  }

  function Gap(d: NodeDescr, b: Packet): nat
    requires b.Valid() && d.lastBeacon.Valid()
  {
    BeaconHistories.LostBeacons(SeqNo(b), SeqNo(d.lastBeacon))
  }

  /** A beacon of a listed neighbour (src/AwdsRouting.cc:254-267 and updateActive). */
  function Updated(d: NodeDescr, b: Packet, now: int): NodeDescr
    requires b.Valid() && d.lastBeacon.Valid()
  {
    var hist := BeaconHistories.Heard(d.beaconHist, Gap(d, b));
    d.(beaconHist := hist, lastBeacon := b, lastBeaconTime := now, beaconInterval := Period(b),
       linkValidity := now + Period(b) * NR_BEACON_TRIGGER_FAIL,
       active := d.active || BeaconHistories.Last12Received(hist))
  }

  /** Strictly sorted by identifier. */
  predicate Sorted(t: seq<NodeDescr>) {
    forall i, j | 0 <= i < j < |t| :: t[i].id < t[j].id
  }

  predicate AllOk(t: seq<NodeDescr>) {
    forall i | 0 <= i < |t| :: t[i].Ok()
  }

  /** The number of smaller identifiers: where `id` is or belongs. */
  function Place(t: seq<NodeDescr>, id: NodeId): (p: nat)
    ensures p <= |t|
  {
    if t == [] || id <= t[0].id then 0 else 1 + Place(t[1..], id)
  }

  lemma {:induction false} PlaceUnique(t: seq<NodeDescr>, id: NodeId, p: nat)
    requires p <= |t|
    requires forall i | 0 <= i < p :: t[i].id < id
    requires p < |t| ==> id <= t[p].id
    ensures Place(t, id) == p
  {
    if p > 0 { PlaceUnique(t[1..], id, p - 1); }
  }

  lemma {:induction false} PlaceSplits(t: seq<NodeDescr>, id: NodeId)
    requires Sorted(t)
    ensures forall i | 0 <= i < Place(t, id) :: t[i].id < id
    ensures forall i | Place(t, id) <= i < |t| :: id <= t[i].id
  {
    if t != [] && t[0].id < id {
      PlaceSplits(t[1..], id);
      forall i | 0 <= i < Place(t, id) ensures t[i].id < id { if i > 0 { assert t[i] == t[1..][i - 1]; } }
      forall i | Place(t, id) <= i < |t| ensures id <= t[i].id { assert t[i] == t[1..][i - 1]; }
    }
  }

  predicate Known(t: seq<NodeDescr>, id: NodeId) {
    Place(t, id) < |t| && t[Place(t, id)].id == id
  }

  /** `Known` is membership. */
  lemma KnownExact(t: seq<NodeDescr>, id: NodeId)
    requires Sorted(t)
    ensures Known(t, id) <==> exists i :: 0 <= i < |t| && t[i].id == id
  {
    if i :| 0 <= i < |t| && t[i].id == id {
      PlaceUnique(t, id, i);
    }
  }

  // ---------------------------------------------------------------------
  // 2-hop neighbours

  type Hop2List = map<NodeId, int>

  /** A `short`. */
  function Short(n: int): (r: int)
    ensures -32768 <= r <= 32767
    ensures -32768 <= n <= 32767 ==> r == n
  {
    (n + 32768) % 65536 - 32768
  }

  lemma ShortStep(n: int)
    ensures Short(Short(n) + 1) == Short(n + 1)
  {
  }

  function Stat(h: Hop2List, x: NodeId): int { if x in h then h[x] else 0 }

  function AddOne(h: Hop2List, x: NodeId): Hop2List {
    if x !in h then h[x := 1] else h[x := Short(h[x] + 1)]
  }

  function RemoveOne(h: Hop2List, x: NodeId): Hop2List
    requires x in h
  {
    var n := Short(h[x] - 1);
    if n == 0 then h - {x} else h[x := n]
  }

  function AddAll(h: Hop2List, s: seq<NodeId>): Hop2List {
    if s == [] then h else AddOne(AddAll(h, s[..|s| - 1]), s[|s| - 1])
  }

  /** The assertion of remove2Hop holds for every entry of the list. */
  predicate Removable(h: Hop2List, s: seq<NodeId>)
    decreases |s|, 0
  {
    s == [] || (Removable(h, s[..|s| - 1]) && s[|s| - 1] in RemoveAll(h, s[..|s| - 1]))
  }

  function RemoveAll(h: Hop2List, s: seq<NodeId>): Hop2List
    requires Removable(h, s)
    decreases |s|, 1
  {
    if s == [] then h else RemoveOne(RemoveAll(h, s[..|s| - 1]), s[|s| - 1])
  }

  predicate Shorts(h: Hop2List) { forall x | x in h :: -32768 <= h[x] <= 32767 }

  lemma MultisetLast(s: seq<NodeId>)
    requires s != []
    ensures multiset(s) == multiset(s[..|s| - 1]) + multiset{s[|s| - 1]}
  {
    assert s == s[..|s| - 1] + [s[|s| - 1]];
  }

  /** Every listing counts once, in 16-bit arithmetic. */
  lemma {:induction false} AddAllCounts(h: Hop2List, s: seq<NodeId>, x: NodeId)
    requires Shorts(h)
    ensures Stat(AddAll(h, s), x) == Short(Stat(h, x) + multiset(s)[x])
  {
    hide Short, AddOne;
    if s != [] {
      hide Stat;
      var t, y := s[..|s| - 1], s[|s| - 1];
      var m: multiset<NodeId> := multiset(t);
      MultisetLast(s);
      AddAllCounts(h, t, x);
      AddOneStat(AddAll(h, t), y, x);
      ShortStep(Stat(h, x) + m[x]);
    }
  }

  lemma AddOneStat(h: Hop2List, y: NodeId, x: NodeId)
    ensures Stat(AddOne(h, y), x) == if x == y then Short(Stat(h, x) + 1) else Stat(h, x)
  {
    hide Short;
  }

  lemma {:induction false} AddAllPositive(h: Hop2List, s: seq<NodeId>)
    requires Positive(h)
    requires NoOverflow(h, s)
    ensures Positive(AddAll(h, s))
  {
    forall x | x in AddAll(h, s) ensures 1 <= AddAll(h, s)[x] <= 32767 {
      AddAllCounts(h, s, x);
      AddAllDomain(h, s, x);
    }
  }

  lemma {:induction false} AddAllDomain(h: Hop2List, s: seq<NodeId>, x: NodeId)
    ensures x in AddAll(h, s) <==> x in h || x in multiset(s)
  {
    if s != [] {
      MultisetLast(s);
      AddAllDomain(h, s[..|s| - 1], x);
    }
  }

  /** No counter passes the largest `short`. */
  predicate NoOverflow(h: Hop2List, s: seq<NodeId>) {
    forall x | x in s :: Stat(h, x) + multiset(s)[x] <= 32767
  }

  /** Lists that are counted can be taken out again: every entry is found. */
  lemma {:induction false} RemoveAllCounts(h: Hop2List, s: seq<NodeId>)
    requires Positive(h)
    requires forall x | x in multiset(s) :: multiset(s)[x] <= Stat(h, x)
    ensures Removable(h, s)
    ensures forall x :: Stat(RemoveAll(h, s), x) == Stat(h, x) - multiset(s)[x]
    ensures Positive(RemoveAll(h, s))
  {
    if s != [] {
      var t, y := s[..|s| - 1], s[|s| - 1];
      MultisetLast(s);
      forall x | x in multiset(t) ensures multiset(t)[x] <= Stat(h, x) { assert x in multiset(s); }
      RemoveAllCounts(h, t);
      assert y in multiset(s);
      assert Stat(RemoveAll(h, t), y) >= 1;
    }
  }

  /** The nodes the last beacon of a neighbour lists. */
  function Listing(d: NodeDescr): multiset<NodeId> {
    if d.lastBeacon.Valid() then multiset(Listed(d.lastBeacon)) else multiset{}
  }

  /** All listings in the last beacons of a table. */
  function Listings(t: seq<NodeDescr>): multiset<NodeId> {
    if t == [] then multiset{} else Listings(t[..|t| - 1]) + Listing(t[|t| - 1])
  }

  lemma {:induction false} ListingsAppend(t: seq<NodeDescr>, u: seq<NodeDescr>)
    ensures Listings(t + u) == Listings(t) + Listings(u)
  {
    hide Listing;
    if u == [] {
      assert t + u == t;
    } else {
      var m := |u| - 1;
      ListingsAppend(t, u[..m]);
      var w := t + u;
      assert w[..|w| - 1] == t + u[..m] && w[|w| - 1] == u[m];
    }
  }

  lemma ListingsAround(t: seq<NodeDescr>, i: nat, d: NodeDescr, j: nat)
    requires i <= j <= |t|
    ensures Listings(t[..i] + [d] + t[j..]) == Listings(t[..i]) + Listings(t[j..]) + Listing(d)
  {
    hide Listing;
    ListingsAppend(t[..i], [d]);
    ListingsAppend(t[..i] + [d], t[j..]);
    assert [d][..0] == [];
    assert Listings([d]) == Listing(d);
  }

  predicate Positive(h: Hop2List) { forall x | x in h :: 1 <= h[x] <= 32767 }

  /** The counters never fall short of the listings. */
  ghost predicate NeverUnder(h: Hop2List, t: seq<NodeDescr>) {
    Positive(h) && forall x :: Listings(t)[x] <= Stat(h, x)
  }

  /** Conservation: the counters are the listings of the current neighbours plus
      the listings `lost` with expired ones, which nobody takes out. */
  ghost predicate Accounted(h: Hop2List, t: seq<NodeDescr>, lost: multiset<NodeId>) {
    Positive(h) && forall x :: Stat(h, x) == Listings(t)[x] + lost[x]
  }

  lemma AccountedNeverUnder(h: Hop2List, t: seq<NodeDescr>, lost: multiset<NodeId>)
    requires Accounted(h, t, lost)
    ensures NeverUnder(h, t)
  {
  }

  /** A beacon lists at most 254 nodes. */
  lemma {:induction false} ListingsBound(t: seq<NodeDescr>, x: NodeId)
    ensures Listings(t)[x] <= MAX_LISTED * |t|
  {
    if t != [] {
      ListingsBound(t[..|t| - 1], x);
      ListingBound(t[|t| - 1], x);
    }
  }

  lemma ListingBound(d: NodeDescr, x: NodeId)
    ensures Listing(d)[x] <= MAX_LISTED
  {
    hide Listed;
    if d.lastBeacon.Valid() { MultisetSize(Listed(d.lastBeacon), x); }
  }

  /** The counters after a beacon `b`; `old` is the list it replaces. */
  function Recounted(h: Hop2List, previous: seq<NodeId>, b: seq<NodeId>): Hop2List
    requires Removable(h, previous)
  {
    AddAll(RemoveAll(h, previous), b)
  }

  /** Replacing one list by another keeps the counters sufficient exactly when
      none of them passes the range of a `short`. `rest` are the other listings. */
  lemma RecountedNeverUnder(h: Hop2List, rest: multiset<NodeId>, previous: seq<NodeId>, b: seq<NodeId>)
    requires Positive(h)
    requires forall x :: (rest + multiset(previous))[x] <= Stat(h, x)
    requires |b| < 256
    ensures Removable(h, previous)
    ensures var h' := Recounted(h, previous, b);
      (Positive(h') && (forall x :: (rest + multiset(b))[x] <= Stat(h', x)))
      <==> NoOverflow(RemoveAll(h, previous), b)
  {
    RemoveAllCounts(h, previous);
    var g := RemoveAll(h, previous);
    var h' := Recounted(h, previous, b);
    if NoOverflow(g, b) {
      AddAllPositive(g, b);
      forall x ensures (rest + multiset(b))[x] <= Stat(h', x) { AddedCount(g, b, x); }
    } else {
      var x :| x in b && Stat(g, x) + multiset(b)[x] > 32767;
      AddAllCounts(g, b, x);
      MultisetSize(b, x);
      assert Stat(h', x) < 0;
    }
  }

  lemma AddedCount(g: Hop2List, b: seq<NodeId>, x: NodeId)
    requires Positive(g)
    requires NoOverflow(g, b)
    ensures Stat(AddAll(g, b), x) == Stat(g, x) + multiset(b)[x]
  {
    AddAllCounts(g, b, x);
    if x !in b { assert x !in multiset(b); }
  }

  lemma {:induction false} MultisetSize(s: seq<NodeId>, x: NodeId)
    ensures multiset(s)[x] <= |s|
  {
    if s != [] {
      MultisetLast(s);
      MultisetSize(s[..|s| - 1], x);
    }
  }

  /** Likewise for the account. */
  lemma RecountedAccounted(h: Hop2List, rest: multiset<NodeId>, previous: seq<NodeId>, b: seq<NodeId>)
    requires Positive(h)
    requires forall x :: (rest + multiset(previous))[x] == Stat(h, x)
    requires Removable(h, previous) && NoOverflow(RemoveAll(h, previous), b)
    ensures forall x :: (rest + multiset(b))[x] == Stat(Recounted(h, previous, b), x)
  {
    RemoveAllCounts(h, previous);
    forall x ensures (rest + multiset(b))[x] == Stat(Recounted(h, previous, b), x) {
      AddedCount(RemoveAll(h, previous), b, x);
    }
  }

  // ---------------------------------------------------------------------
  // Tables as values

  /** The table after a beacon of a known or new neighbour. */
  function Refreshed(t: seq<NodeDescr>, b: Packet, now: int): seq<NodeDescr>
    requires b.Valid() && AllOk(t)
  {
    var i := Place(t, Source(b));
    if Known(t, Source(b)) then t[..i] + [Updated(t[i], b, now)] + t[i + 1..]
    else t[..i] + [Updated(Fresh(b, now), b, now)] + t[i..]
  }

  /** The list that leaves the counters. */
  function Replaced(t: seq<NodeDescr>, b: Packet): seq<NodeId>
    requires b.Valid() && AllOk(t)
  {
    if Known(t, Source(b)) then Listed(t[Place(t, Source(b))].lastBeacon) else []
  }

  lemma UpdatedOk(d: NodeDescr, b: Packet, now: int)
    requires b.Valid() && d.lastBeacon.Valid() && d.beaconHist < BeaconHistories.WORD_RANGE
    ensures Updated(d, b, now).Ok() && Updated(d, b, now).id == d.id && Updated(d, b, now).lastBeacon == b
  {
    hide BeaconHistories.Heard;
    BeaconHistories.HeardRange(d.beaconHist, Gap(d, b));
  }

  lemma RefreshedSorted(t: seq<NodeDescr>, b: Packet, now: int)
    requires b.Valid() && AllOk(t) && Sorted(t)
    ensures Sorted(Refreshed(t, b, now)) && AllOk(Refreshed(t, b, now))
    ensures |Refreshed(t, b, now)| == if Known(t, Source(b)) then |t| else |t| + 1
  {
    hide BeaconHistories.Heard, Source, Updated, Sorted, AllOk, NodeDescr.Ok;
    var src := Source(b);
    var i := Place(t, src);
    PlaceSplits(t, src);
    if Known(t, src) {
      OkAt(t, i);
      UpdatedOk(t[i], b, now);
      SortedFrom(t, i);
      Spliced(t, i, Updated(t[i], b, now), i + 1);
    } else {
      UpdatedOk(Fresh(b, now), b, now);
      if i < |t| { SortedFrom(t, i); }
      Spliced(t, i, Updated(Fresh(b, now), b, now), i);
    }
  }

  lemma SortedFrom(t: seq<NodeDescr>, i: nat)
    requires Sorted(t) && i < |t|
    ensures forall k | i < k < |t| :: t[i].id < t[k].id
  {
  }

  /** A descriptor between smaller and larger ones. */
  lemma Spliced(t: seq<NodeDescr>, i: nat, d: NodeDescr, j: nat)
    requires Sorted(t) && AllOk(t) && d.Ok() && i <= j <= |t|
    requires (forall k | 0 <= k < i :: t[k].id < d.id) && (forall k | j <= k < |t| :: d.id < t[k].id)
    ensures Sorted(t[..i] + [d] + t[j..]) && AllOk(t[..i] + [d] + t[j..])
  {
    hide NodeDescr.Ok;
    var r := t[..i] + [d] + t[j..];
    forall k | 0 <= k < |r|
      ensures r[k] == if k < i then t[k] else if k == i then d else t[k - i - 1 + j]
    {
    }
  }

  /** The listings of the refreshed table. */
  lemma RefreshedListings(t: seq<NodeDescr>, b: Packet, now: int) returns (rest: multiset<NodeId>)
    requires b.Valid() && AllOk(t) && Sorted(t)
    ensures Listings(t) == rest + multiset(Replaced(t, b))
    ensures Listings(Refreshed(t, b, now)) == rest + multiset(Listed(b))
  {
    hide BeaconHistories.Heard, Source, Listed, Place, Updated, Listings;
    var src := Source(b);
    var i := Place(t, src);
    if Known(t, src) {
      UpdatedOk(t[i], b, now);
      ListingsAround(t, i, Updated(t[i], b, now), i + 1);
      ListingsAround(t, i, t[i], i + 1);
      assert t == t[..i] + [t[i]] + t[i + 1..];
      rest := Listings(t[..i]) + Listings(t[i + 1..]);
    } else {
      UpdatedOk(Fresh(b, now), b, now);
      ListingsAround(t, i, Updated(Fresh(b, now), b, now), i);
      ListingsAppend(t[..i], t[i..]);
      assert t == t[..i] + t[i..];
      rest := Listings(t[..i]) + Listings(t[i..]);
    }
  }

  /** A beacon keeps the counters sufficient exactly when no counter overflows. */
  lemma RefreshKeepsCounts(h: Hop2List, t: seq<NodeDescr>, b: Packet, now: int)
    requires b.Valid() && AllOk(t) && Sorted(t) && NeverUnder(h, t)
    ensures Removable(h, Replaced(t, b))
    ensures var h' := Recounted(h, Replaced(t, b), Listed(b));
      NeverUnder(h', Refreshed(t, b, now)) <==> NoOverflow(RemoveAll(h, Replaced(t, b)), Listed(b))
  {
    hide Refreshed, Replaced, Listed, Recounted, RemoveAll, Removable, NoOverflow;
    var rest := RefreshedListings(t, b, now);
    RecountedNeverUnder(h, rest, Replaced(t, b), Listed(b));
  }

  /** Then it also keeps the account. */
  lemma RefreshKeepsAccount(h: Hop2List, t: seq<NodeDescr>, b: Packet, now: int, lost: multiset<NodeId>)
    requires b.Valid() && AllOk(t) && Sorted(t) && Accounted(h, t, lost)
    requires Removable(h, Replaced(t, b)) && NoOverflow(RemoveAll(h, Replaced(t, b)), Listed(b))
    ensures Accounted(Recounted(h, Replaced(t, b), Listed(b)), Refreshed(t, b, now), lost)
  {
    hide Refreshed, Replaced, Listed, Recounted, RemoveAll, Removable, NoOverflow;
    var rest := RefreshedListings(t, b, now);
    AccountedNeverUnder(h, t, lost);
    RefreshKeepsCounts(h, t, b, now);
    RecountedAccounted(h, rest + lost, Replaced(t, b), Listed(b));
  }

  /** As long as no node was listed more than 22353 times by neighbours that
      expired, every entry is found and no counter can overflow: 40 neighbours
      and one more beacon list a node at most 41 * 254 times. */
  lemma EnoughRoom(h: Hop2List, t: seq<NodeDescr>, b: Packet, lost: multiset<NodeId>)
    requires b.Valid() && AllOk(t) && Sorted(t) && |t| <= MAX_NEIGHBORS && Accounted(h, t, lost)
    requires forall x :: lost[x] <= MAX_LOST
    ensures Removable(h, Replaced(t, b)) && NoOverflow(RemoveAll(h, Replaced(t, b)), Listed(b))
  {
    hide Refreshed, Replaced, Listed, Recounted, RemoveAll, Removable, Listings;
    AccountedNeverUnder(h, t, lost);
    var rest := RefreshedListings(t, b, 0);
    RemoveAllCounts(h, Replaced(t, b));
    var g := RemoveAll(h, Replaced(t, b));
    forall x | x in Listed(b) ensures Stat(g, x) + multiset(Listed(b))[x] <= 32767 {
      ListingsBound(t, x);
      MultisetSize(Listed(b), x);
    }
  }

  // ---------------------------------------------------------------------
  // Expiry

  function Unexpired(t: seq<NodeDescr>, now: int): seq<NodeDescr> {
    if t == [] then []
    else
      var m := |t| - 1;
      Unexpired(t[..m], now) + if t[m].IsExpired(now) then [] else [t[m]]
  }

  /** Exactly the neighbours that are not expired stay, in order. */
  lemma {:induction false} UnexpiredExact(t: seq<NodeDescr>, now: int)
    requires Sorted(t) && AllOk(t)
    ensures Sorted(Unexpired(t, now)) && AllOk(Unexpired(t, now)) && |Unexpired(t, now)| <= |t|
    ensures forall d :: d in Unexpired(t, now) <==> d in t && !d.IsExpired(now)
  {
    if t != [] {
      hide NodeDescr.IsExpired, NodeDescr.Ok, Sorted, AllOk;
      var m := |t| - 1;
      var s, d := t[..m], t[m];
      var u := Unexpired(s, now);
      FrontAndLast(s, d);
      assert t == s + [d];
      UnexpiredExact(s, now);
      forall e | e in u ensures e.id < d.id {
        assert e in s;
      }
      LastSorted(u, d);
      assert u + [] == u;
      assert forall e :: e in u + [d] <==> e in u || e == d;
    }
  }

  lemma FrontAndLast(s: seq<NodeDescr>, d: NodeDescr)
    ensures forall e :: e in s + [d] <==> e in s || e == d
    ensures Sorted(s + [d]) ==> Sorted(s) && forall e | e in s :: e.id < d.id
    ensures AllOk(s + [d]) ==> AllOk(s) && d.Ok()
  {
    hide NodeDescr.Ok;
    var t := s + [d];
    assert t[|s|] == d && forall i | 0 <= i < |s| :: t[i] == s[i];
  }

  lemma LastSorted(s: seq<NodeDescr>, d: NodeDescr)
    requires Sorted(s) && AllOk(s) && d.Ok() && forall e | e in s :: e.id < d.id
    ensures Sorted(s + [d]) && AllOk(s + [d])
  {
    hide NodeDescr.Ok;
    var t := s + [d];
    assert t[|s|] == d && forall i | 0 <= i < |s| :: t[i] == s[i] && t[i] in s;
  }

  lemma {:induction false} UnexpiredListings(t: seq<NodeDescr>, now: int)
    ensures forall x :: Listings(Unexpired(t, now))[x] <= Listings(t)[x]
  {
    if t != [] {
      hide Listing, NodeDescr.IsExpired;
      var m := |t| - 1;
      var u := Unexpired(t[..m], now);
      UnexpiredListings(t[..m], now);
      if !t[m].IsExpired(now) {
        assert Unexpired(t, now)[..|u|] == u;
      } else {
        assert Unexpired(t, now) == u;
      }
    }
  }

  /** The listings that go with the expired neighbours. */
  ghost function LostWith(t: seq<NodeDescr>, now: int): multiset<NodeId> {
    Listings(t) - Listings(Unexpired(t, now))
  }

  lemma ExpiryKeepsAccount(h: Hop2List, t: seq<NodeDescr>, now: int, lost: multiset<NodeId>)
    requires Accounted(h, t, lost)
    ensures Accounted(h, Unexpired(t, now), lost + LostWith(t, now))
  {
    UnexpiredListings(t, now);
  }

  // ---------------------------------------------------------------------
  // Lapsed links

  function AfterLapse(t: seq<NodeDescr>, now: int): (r: seq<NodeDescr>)
    ensures |r| == |t|
  {
    seq(|t|, i requires 0 <= i < |t| => if t[i].Lapses(now) then t[i].(active := false) else t[i])
  }

  predicate OneLapse(t: seq<NodeDescr>, now: int) {
    forall i, j | 0 <= i < j < |t| :: !(t[i].Lapses(now) && t[j].Lapses(now))
  }

  /** A link that lapses stays in the table, with its beacon. */
  lemma LapseKeeps(t: seq<NodeDescr>, now: int)
    requires Sorted(t) && AllOk(t)
    ensures Sorted(AfterLapse(t, now)) && AllOk(AfterLapse(t, now))
  {
  }

  predicate SomeLapse(t: seq<NodeDescr>, now: int) {
    exists d :: d in t && d.Lapses(now)
  }

  /** The table when the loop has looked at `i` links. */
  function Lapsing(t: seq<NodeDescr>, i: nat, now: int): (r: seq<NodeDescr>)
    requires i <= |t|
    ensures |r| == |t|
  {
    AfterLapse(t[..i], now) + t[i..]
  }

  lemma LapseStep(t: seq<NodeDescr>, i: nat, now: int)
    requires i < |t|
    ensures Lapsing(t, i, now)[i] == t[i] && Lapsing(t, i + 1, now) ==
      if t[i].Lapses(now) then Lapsing(t, i, now)[i := t[i].(active := false)] else Lapsing(t, i, now)
    ensures !t[i].(active := false).Lapses(now)
  {
    var u := Lapsing(t, i + 1, now);
    forall k | 0 <= k < |t| && k != i ensures u[k] == Lapsing(t, i, now)[k] {
    }
  }

  lemma LapseStart(t: seq<NodeDescr>, now: int)
    ensures Lapsing(t, 0, now) == t && OneLapse([], now) && !SomeLapse([], now)
  {
  }

  lemma LapseEnd(t: seq<NodeDescr>, now: int)
    ensures Lapsing(t, |t|, now) == AfterLapse(t, now) && t[..|t|] == t
  {
    assert t[..|t|] == t;
  }

  lemma LapseSeen(t: seq<NodeDescr>, i: nat, now: int)
    requires i < |t| && OneLapse(t[..i], now)
    ensures SomeLapse(t[..i + 1], now) <==> SomeLapse(t[..i], now) || t[i].Lapses(now)
    ensures OneLapse(t[..i + 1], now) <==> !(SomeLapse(t[..i], now) && t[i].Lapses(now))
    ensures SomeLapse(t[..i], now) && t[i].Lapses(now) ==> !OneLapse(t, now)
  {
    hide NodeDescr.Lapses;
    var s := t[..i];
    assert t[..i + 1] == s + [t[i]];
    if d :| d in s && d.Lapses(now) {
      var k :| 0 <= k < i && s[k] == d;
      assert t[..i + 1][k] == d && t[k] == d && t[..i + 1][i] == t[i];
    }
    forall a, b | 0 <= a < b < i ensures !(t[a].Lapses(now) && t[b].Lapses(now)) {
      assert s[a] == t[a] && s[b] == t[b];
    }
  }

  /** Halfway through the loop the table is as good as before. */
  lemma TableLapsing(t: seq<NodeDescr>, i: nat, now: int)
    requires Sorted(t) && AllOk(t) && i <= |t|
    ensures Sorted(Lapsing(t, i, now)) && AllOk(Lapsing(t, i, now))
  {
    var u := Lapsing(t, i, now);
    forall k | 0 <= k < |t| ensures u[k].id == t[k].id && u[k].Ok() {
    }
  }

  lemma {:induction false} LapseListings(t: seq<NodeDescr>, now: int)
    ensures Listings(AfterLapse(t, now)) == Listings(t)
  {
    if t != [] {
      var m := |t| - 1;
      LapseListings(t[..m], now);
      assert AfterLapse(t, now)[..m] == AfterLapse(t[..m], now);
      assert Listing(AfterLapse(t, now)[m]) == Listing(t[m]);
    }
  }

  lemma LapseKeepsAccount(h: Hop2List, t: seq<NodeDescr>, now: int, lost: multiset<NodeId>)
    requires Accounted(h, t, lost)
    ensures Accounted(h, AfterLapse(t, now), lost)
  {
    LapseListings(t, now);
  }

  lemma LapseReadable(t: seq<NodeDescr>, now: int)
    requires Readable(t)
    ensures Readable(AfterLapse(t, now))
  {
    hide CountsOk;
  }

  // ---------------------------------------------------------------------
  // A neighbour's beacons

  /** The history in the table stays the record of received beacons. A neighbour is
      active if it was, or if its last twelve beacons came and one of the twenty
      before them. */
  lemma UpdatedRecords(d: NodeDescr, b: Packet, now: int, last: nat, received: set<int>, n: nat)
    requires b.Valid() && d.lastBeacon.Valid()
    requires BeaconHistories.Records(d.beaconHist, last, received) && last in received
    requires forall m :: m in received ==> m <= last
    requires SeqNo(d.lastBeacon) == last % 0x1_0000 && SeqNo(b) == n % 0x1_0000 && last <= n <= last + 31
    ensures var d' := Updated(d, b, now);
      && BeaconHistories.Records(d'.beaconHist, n, received + {n})
      && (d'.active <==>
            (d.active || ((forall k :: 0 <= k < 12 ==> BeaconHistories.Came(received + {n}, n, k)) &&
                          (exists k :: 12 <= k < 32 && BeaconHistories.Came(received + {n}, n, k)))))
  {
    hide BeaconHistories.Heard, BeaconHistories.Records, BeaconHistories.Last12Received, BeaconHistories.LostBeacons;
    hide Value;
    BeaconHistories.SequenceGap(last, n);
    BeaconHistories.NextRecorded(d.beaconHist, last, received, n - last);
    BeaconHistories.ActivationExact(Updated(d, b, now).beaconHist, n, received + {n});
  }

  /** Beacons numbered `ns` came: the last twelve and one of the twenty before. */
  ghost predicate Enough(ns: seq<nat>)
    requires ns != []
  {
    var last := ns[|ns| - 1];
    && (forall k :: 0 <= k < 12 ==> BeaconHistories.Came(BeaconHistories.Members(ns), last, k))
    && (exists k :: 12 <= k < 32 && BeaconHistories.Came(BeaconHistories.Members(ns), last, k))
  }

  /** At some time there were enough. */
  ghost predicate OnceEnough(ns: seq<nat>) {
    exists j: nat {:trigger ns[..j]} :: 1 <= j <= |ns| && Enough(ns[..j])
  }

  lemma OnceEnoughStep(ns: seq<nat>)
    requires ns != []
    ensures OnceEnough(ns) <==> OnceEnough(ns[..|ns| - 1]) || Enough(ns)
  {
    hide Enough;
    var s := ns[..|ns| - 1];
    assert ns[..|ns|] == ns;
    assert forall j: nat | j < |ns| :: s[..j] == ns[..j];
  }

  /** What a table says about a neighbour that was heard with beacons `ns`, the last
      of them `b` at time `now`. */
  ghost predicate HeardAs(d: NodeDescr, ns: seq<nat>, b: Packet, now: int)
    requires ns != [] && b.Valid()
  {
    && d.id == Source(b) && d.beaconHist == BeaconHistories.History(ns) && d.lastBeacon == b && d.lastBeaconTime == now
    && SeqNo(b) == ns[|ns| - 1] % 0x1_0000
    && d.mpr && (d.active <==> OnceEnough(ns))
  }

  lemma FirstDescribed(b: Packet, now: int, n: nat)
    requires b.Valid() && SeqNo(b) == n % 0x1_0000
    ensures HeardAs(Updated(Fresh(b, now), b, now), [n], b, now)
  {
    hide BeaconHistories.Heard, BeaconHistories.Records, BeaconHistories.Last12Received, Value, Source;
    var ns := [n];
    assert ns[..0] == [];
    OnceEnoughStep(ns);
    BeaconHistories.HistoryRecords(ns);
    BeaconHistories.ActivationExact(BeaconHistories.History(ns), n, BeaconHistories.Members(ns));
  }

  lemma NextDescribed(d: NodeDescr, b0: Packet, t0: int, b: Packet, now: int, ns: seq<nat>)
    requires |ns| >= 2 && BeaconHistories.GapsSmall(ns) && b0.Valid() && b.Valid() && Source(b) == Source(b0)
    requires HeardAs(d, ns[..|ns| - 1], b0, t0) && SeqNo(b) == ns[|ns| - 1] % 0x1_0000
    ensures HeardAs(Updated(d, b, now), ns, b, now)
  {
    hide BeaconHistories.Heard, BeaconHistories.Records, BeaconHistories.Last12Received, BeaconHistories.LostBeacons;
    hide Value, Source, OnceEnough;
    OnceEnoughStep(ns);
    BeaconHistories.HistoryRecords(ns);
    BeaconHistories.ActivationExact(BeaconHistories.History(ns), ns[|ns| - 1], BeaconHistories.Members(ns));
  }

  /** Without loss, from the thirteenth beacon on. */
  lemma EnoughFromThirteenth(n: nat, k: nat)
    requires k >= 1
    ensures OnceEnough(BeaconHistories.Consecutive(n, k)) <==> k >= 13
  {
    hide Enough, BeaconHistories.Consecutive;
    var ns := BeaconHistories.Consecutive(n, k);
    forall j: nat | 1 <= j <= k ensures ns[..j] == BeaconHistories.Consecutive(n, j) { PrefixConsecutive(n, k, j); }
    forall j: nat | 1 <= j <= k ensures Enough(ns[..j]) <==> j >= 13 { ConsecutiveEnough(n, j); }
    if k >= 13 { assert Enough(ns[..k]); }
  }

  lemma PrefixConsecutive(n: nat, k: nat, j: nat)
    requires j <= k
    ensures BeaconHistories.Consecutive(n, k)[..j] == BeaconHistories.Consecutive(n, j)
  {
  }

  lemma ConsecutiveEnough(n: nat, k: nat)
    requires k >= 1
    ensures Enough(BeaconHistories.Consecutive(n, k)) <==> k >= 13
  {
    hide BeaconHistories.Came, BeaconHistories.Members;
    var ns := BeaconHistories.Consecutive(n, k);
    var received, last := BeaconHistories.Members(ns), n + k - 1;
    assert ns[k - 1] == last;
    forall age: nat ensures BeaconHistories.Came(received, last, age) <==> age < k {
      BeaconHistories.ConsecutiveCame(n, k, age);
    }
    if k >= 13 {
      assert BeaconHistories.Came(received, last, 12);
    } else if k < 12 {
      assert !BeaconHistories.Came(received, last, k);
    }
  }

  // ---------------------------------------------------------------------
  // The entry of a neighbour

  /** The entry of node `id`. */
  function EntryOf(t: seq<NodeDescr>, id: NodeId): NodeDescr
    requires Known(t, id)
  {
    t[Place(t, id)]
  }

  /** A beacon updates the entry of its sender, or makes one. */
  lemma RefreshedEntry(t: seq<NodeDescr>, b: Packet, now: int)
    requires b.Valid() && AllOk(t) && Sorted(t)
    ensures var u, src := Refreshed(t, b, now), Source(b);
      && Known(u, src)
      && EntryOf(u, src) == Updated(if Known(t, src) then EntryOf(t, src) else Fresh(b, now), b, now)
  {
    hide Updated, Source, AllOk, NodeDescr.Ok, BeaconHistories.Heard;
    var src := Source(b);
    var i, u := Place(t, src), Refreshed(t, b, now);
    PlaceSplits(t, src);
    if Known(t, src) {
      OkAt(t, i);
      UpdatedOk(t[i], b, now);
    } else {
      UpdatedOk(Fresh(b, now), b, now);
    }
    assert u[..i] == t[..i] && forall k | 0 <= k < i :: u[k] == t[k];
    PlaceUnique(u, src, i);
  }

  /** The link of the sender lapses eight announced periods after the beacon. */
  lemma LapseExact(t: seq<NodeDescr>, b: Packet, now: int, later: int)
    requires b.Valid() && AllOk(t) && Sorted(t)
    ensures var u, src := Refreshed(t, b, now), Source(b);
      && Known(u, src) && Known(AfterLapse(u, later), src)
      && EntryOf(AfterLapse(u, later), src) == EntryOf(u, src).(active := EntryOf(AfterLapse(u, later), src).active)
      && (EntryOf(AfterLapse(u, later), src).active <==> EntryOf(u, src).active && later - now < 8 * Period(b))
  {
    hide Source, AllOk, NodeDescr.Ok, BeaconHistories.Heard, Value;
    var src, u := Source(b), Refreshed(t, b, now);
    RefreshedEntry(t, b, now);
    RefreshedSorted(t, b, now);
    PlaceSplits(u, src);
    PlaceUnique(AfterLapse(u, later), src, Place(u, src));
  }

  /** A neighbour heard once stays for 32 announced periods and no longer. */
  lemma HeardOnceStays(t: seq<NodeDescr>, b: Packet, now: int, later: int)
    requires b.Valid() && AllOk(t) && Sorted(t) && !Known(t, Source(b))
    ensures Known(Unexpired(Refreshed(t, b, now), later), Source(b)) <==> later <= now + 32 * Period(b)
  {
    hide Source, AllOk, NodeDescr.Ok, BeaconHistories.Heard, Value, Refreshed, Unexpired;
    var src, u := Source(b), Refreshed(t, b, now);
    var d := Updated(Fresh(b, now), b, now);
    BeaconHistories.HeardOnce();
    RefreshedEntry(t, b, now);
    RefreshedSorted(t, b, now);
    UnexpiredExact(u, later);
    var w := Unexpired(u, later);
    KnownExact(w, src);
    KnownOnce(u, src);
    assert d.IsExpired(later) <==> later > now + 32 * Period(b);
  }

  lemma KnownOnce(t: seq<NodeDescr>, id: NodeId)
    requires Sorted(t) && Known(t, id)
    ensures EntryOf(t, id) in t && forall d | d in t && d.id == id :: d == EntryOf(t, id)
  {
  }

  // ---------------------------------------------------------------------
  // The table in place

  datatype Op = Hear(b: Packet, at: int) | Expire(at: int) | Check(at: int) {
    /** Packet buffers have their fixed size. */
    predicate Packets() { Hear? ==> b.Valid() }

    predicate Countable() { Hear? ==> b.Valid() && CountsOk(b) }
  }

  class NeighbourTable {
    const neighbors: array<NodeDescr>
    var numNeigh: nat
    var hop2: Hop2List

    ghost predicate Valid()
      reads this, neighbors
    {
      && neighbors.Length == MAX_NEIGHBORS && numNeigh <= MAX_NEIGHBORS
      && Sorted(Table()) && AllOk(Table())
    }

    ghost function Table(): seq<NodeDescr>
      reads this, neighbors
      requires numNeigh <= neighbors.Length
    {
      neighbors[..numNeigh]
    }

    constructor ()
      ensures Valid() && fresh(neighbors) && Table() == [] && hop2 == map[] && Accounted(hop2, Table(), multiset{})
    {
      neighbors := new NodeDescr[MAX_NEIGHBORS];
      numNeigh := 0;
      hop2 := map[];
    }

    /** findNeigh: the index of a known identifier, or the place to insert it. */
    method FindNeigh(id: NodeId) returns (r: int)
      requires Valid()
      ensures var p := Place(Table(), id); r == if Known(Table(), id) then p else 0 - p - 1
    {
      ghost var t := Table();
      var a, b := 0, numNeigh;
      while a != b
        invariant 0 <= a <= b <= numNeigh
        invariant forall i | 0 <= i < a :: t[i].id < id
        invariant forall i | b <= i < |t| :: id < t[i].id
        decreases b - a
      {
        var m := (a + b) / 2;
        assert neighbors[m] == t[m];
        if neighbors[m].id == id {
          PlaceUnique(t, id, m);
          return m;
        }
        if neighbors[m].id < id { a := m + 1; } else { b := m; }
      }
      PlaceUnique(t, id, a);
      return -a - 1;
    }

    /** Beacon::add2Hop. */
    method Add2Hop(p: Packet)
      requires p.Valid()
      modifies this`hop2
      ensures hop2 == AddAll(old(hop2), Listed(p))
    {
      hide ListedId;
      var n := NumNoMpr(p) + NumMpr(p);
      ghost var s := Listed(p);
      var i := 0;
      while i < n
        invariant 0 <= i <= |s| && hop2 == AddAll(old(hop2), s[..i])
      {
        var id := LoadId(p.buffer, OFF_LNEIGH + ID_SIZE * i);
        assert id == s[i] by { ListedAt(p, i); }
        assert s[..i + 1][..i] == s[..i];
        hop2 := AddOne(hop2, id);
        i := i + 1;
      }
      assert s[..i] == s;
    }

    /** Beacon::remove2Hop; the assertion holds for every entry. */
    method Remove2Hop(p: Packet)
      requires p.Valid() && Removable(hop2, Listed(p))
      modifies this`hop2
      ensures hop2 == RemoveAll(old(hop2), Listed(p))
    {
      hide ListedId;
      var n := NumNoMpr(p) + NumMpr(p);
      ghost var s := Listed(p);
      var i := 0;
      assert s[..|s|] == s;
      while i < n
        invariant 0 <= i <= |s|
        invariant Removable(old(hop2), s[..i]) && hop2 == RemoveAll(old(hop2), s[..i])
      {
        var id := LoadId(p.buffer, OFF_LNEIGH + ID_SIZE * i);
        assert id == s[i] by { ListedAt(p, i); }
        assert s[..i + 1][..i] == s[..i];
        RemovablePrefix(old(hop2), s, i + 1);
        hop2 := RemoveOne(hop2, id);
        i := i + 1;
      }
      assert s[..i] == s;
    }

    /** memmove of the successors by one place (src/AwdsRouting.cc:233-234). */
    method MakeRoom(idx: nat)
      requires idx <= numNeigh < neighbors.Length
      modifies neighbors
      ensures neighbors[..idx] == old(neighbors[..idx])
      ensures neighbors[idx + 1..numNeigh + 1] == old(neighbors[idx..numNeigh])
    {
      var i := numNeigh;
      while i > idx
        invariant idx <= i <= numNeigh
        invariant neighbors[..i] == old(neighbors[..i])
        invariant neighbors[i + 1..numNeigh + 1] == old(neighbors[i..numNeigh])
      {
        ghost var was := neighbors[..];
        neighbors[i] := neighbors[i - 1];
        assert neighbors[..] == was[i := was[i - 1]];
        Shifted(was, old(neighbors[..]), i, numNeigh);
        i := i - 1;
      }
    }

    /** refreshNeigh. The assertion `numNeigh < MaxNeighbors` also covers
        neighbours that are already known. */
    method RefreshNeigh(p: Packet, now: int) returns (isNew: bool)
      requires Valid() && p.Valid() && NeverUnder(hop2, Table())
      requires Known(Table(), Source(p)) ==> numNeigh < MAX_NEIGHBORS
      requires Known(Table(), Source(p)) ==> Gap(Table()[Place(Table(), Source(p))], p) <= 31
      modifies this`numNeigh, this`hop2, neighbors
      ensures Valid()
      ensures var full := old(!Known(Table(), Source(p)) && numNeigh == MAX_NEIGHBORS);
        && isNew == (!full && old(!Known(Table(), Source(p))))
        && Table() == (if full then old(Table()) else Refreshed(old(Table()), p, now))
        && Removable(old(hop2), old(Replaced(Table(), p)))
        && hop2 == (if full then old(hop2) else Recounted(old(hop2), old(Replaced(Table(), p)), Listed(p)))
    {
      hide Source, Place, Updated, Listed, AddAll, Removable, RemoveAll, NeverUnder, NoOverflow, Sorted, AllOk;
      ghost var t := Table();
      var src := LoadId(p.buffer, OFF_SRC);
      assert src == Source(p) by { SourceAt(p); }
      RefreshKeepsCounts(hop2, t, p, now);
      RefreshedSorted(t, p, now);
      var idx := FindNeigh(src);
      isNew := idx < 0;
      if isNew && numNeigh == MAX_NEIGHBORS {
        return false;
      }
      if isNew {
        Enter(-idx - 1, p, now);
        NothingRemoved(old(hop2));
      } else {
        OkAt(t, idx);
        Renew(idx, p, now);
      }
    }

    /** A new neighbour (src/AwdsRouting.cc:229-243, 251-267). */
    method Enter(idx: nat, p: Packet, now: int)
      requires idx <= numNeigh < neighbors.Length && p.Valid()
      modifies this`numNeigh, this`hop2, neighbors
      ensures numNeigh == old(numNeigh) + 1 && hop2 == AddAll(old(hop2), Listed(p))
      ensures Table() == old(Table())[..idx] + [Updated(Fresh(p, now), p, now)] + old(Table())[idx..]
    {
      hide Updated, Listed, AddAll;
      Around(Table(), idx, Fresh(p, now));
      Insert(idx, Fresh(p, now));
      Add2Hop(p);
      UpdateAt(idx, p, now);
    }

    /** A known neighbour (src/AwdsRouting.cc:245-249, 251-267). */
    method Renew(idx: nat, p: Packet, now: int)
      requires idx < numNeigh <= neighbors.Length && p.Valid() && neighbors[idx].lastBeacon.Valid()
      requires Removable(hop2, Listed(neighbors[idx].lastBeacon))
      modifies this`hop2, neighbors
      ensures hop2 == AddAll(RemoveAll(old(hop2), Listed(old(neighbors[idx].lastBeacon))), Listed(p))
      ensures Table() == old(Table())[..idx] + [Updated(old(Table())[idx], p, now)] + old(Table())[idx + 1..]
    {
      hide Updated, Listed, AddAll, RemoveAll, Removable;
      Remove2Hop(neighbors[idx].lastBeacon);
      Add2Hop(p);
      UpdateAt(idx, p, now);
    }

    method Insert(idx: nat, d: NodeDescr)
      requires idx <= numNeigh < neighbors.Length
      modifies this`numNeigh, neighbors
      ensures numNeigh == old(numNeigh) + 1 && Table() == old(Table())[..idx] + [d] + old(Table())[idx..]
    {
      MakeRoom(idx);
      neighbors[idx] := d;
      numNeigh := numNeigh + 1;
      assert neighbors[..numNeigh] == neighbors[..idx] + [d] + neighbors[idx + 1..numNeigh];
    }

    /** src/AwdsRouting.cc:251-267. */
    method UpdateAt(idx: nat, p: Packet, now: int)
      requires idx < numNeigh <= neighbors.Length && p.Valid() && neighbors[idx].lastBeacon.Valid()
      modifies neighbors
      ensures Table() == old(Table())[..idx] + [Updated(old(Table())[idx], p, now)] + old(Table())[idx + 1..]
    {
      hide Updated;
      neighbors[idx] := Updated(neighbors[idx], p, now);
      assert neighbors[..numNeigh] == old(neighbors[..idx]) + [neighbors[idx]] + old(neighbors[idx + 1..numNeigh]);
    }

    /** One turn of the compaction loop. */
    method Compact(newnum: nat, i: nat, now: int) returns (n: nat)
      requires newnum <= i < neighbors.Length
      modifies neighbors
      ensures n <= i + 1 && neighbors[i + 1..] == old(neighbors[i + 1..])
      ensures neighbors[..n] ==
          old(neighbors[..newnum]) + if old(neighbors[i]).IsExpired(now) then [] else [old(neighbors[i])]
    {
      n := newnum;
      if !neighbors[i].IsExpired(now) {
        if newnum != i { neighbors[newnum] := neighbors[i]; }
        n := newnum + 1;
        assert neighbors[..newnum] == old(neighbors[..newnum]);
      }
    }

    /** removeOldNeigh. */
    method RemoveOldNeigh(now: int)
      requires Valid()
      modifies this`numNeigh, neighbors
      ensures Valid() && Table() == Unexpired(old(Table()), now)
    {
      hide NodeDescr.IsExpired, AllOk, Sorted;
      ghost var t := Table();
      var newnum: nat := 0;
      assert t[..0] == [];
      for i := 0 to numNeigh
        invariant numNeigh == |t| && newnum <= i && neighbors[..newnum] == Unexpired(t[..i], now)
        invariant neighbors[i..] == old(neighbors[i..])
      {
        Head(t, i);
        assert neighbors[i] == neighbors[i..][0] == t[i];
        newnum := Compact(newnum, i, now);
      }
      numNeigh := newnum;
      assert t[..|t|] == t;
      UnexpiredExact(t, now);
    }

    /** The loop of `checkLinkFailure` (src/AwdsRouting.cc:296-305). Once one link
        has lapsed the others are not looked at, so the assertion in the loop holds
        if and only if no two links lapse together. */
    method CheckLinks(now: int) returns (topoChanged: bool, ok: bool)
      requires Valid()
      modifies neighbors
      ensures Valid() && numNeigh == old(numNeigh)
      ensures ok <==> OneLapse(old(Table()), now)
      ensures ok ==> Table() == AfterLapse(old(Table()), now)
      ensures ok ==> (topoChanged <==> SomeLapse(old(Table()), now))
    {
      hide NodeDescr.Lapses, AfterLapse, Lapsing, OneLapse, SomeLapse, Sorted, AllOk;
      ghost var t := Table();
      topoChanged := false;
      assert t[..0] == [];
      LapseStart(t, now);
      for i := 0 to numNeigh
        invariant neighbors[..numNeigh] == Lapsing(t, i, now)
        invariant OneLapse(t[..i], now) && (topoChanged <==> SomeLapse(t[..i], now))
      {
        LapseStep(t, i, now);
        LapseSeen(t, i, now);
        TableLapsing(t, i, now);
        assert neighbors[i] == neighbors[..numNeigh][i];
        if !topoChanged && neighbors[i].Lapses(now) {
          Deactivate(i);
          topoChanged := true;
        }
        if neighbors[i].Lapses(now) {
          return topoChanged, false;
        }
      }
      LapseEnd(t, now);
      LapseKeeps(t, now);
      ok := true;
    }

    method Deactivate(i: nat)
      requires i < numNeigh <= neighbors.Length
      modifies neighbors
      ensures Table() == old(Table())[i := old(Table())[i].(active := false)]
    {
      neighbors[i] := neighbors[i].(active := false);
    }

    /** `checkLinkFailure`: lapsed links, then expiry. */
    method CheckLinkFailure(now: int) returns (topoChanged: bool)
      requires Valid() && OneLapse(Table(), now)
      modifies this`numNeigh, neighbors
      ensures Valid() && Table() == Unexpired(AfterLapse(old(Table()), now), now)
    {
      hide OneLapse, AfterLapse, Unexpired, NodeDescr.Lapses, Sorted, AllOk;
      var ok;
      topoChanged, ok := CheckLinks(now);
      RemoveOldNeigh(now);
    }

    /** What the assertions and the shift need of the state they meet
        (src/AwdsRouting.cc:226, 258, 301). */
    predicate Ready(op: Op)
      reads this, neighbors
      requires Valid() && op.Packets()
    {
      var t := neighbors[..numNeigh];
      match op
      case Hear(b, _) => Known(t, Source(b)) ==> numNeigh < MAX_NEIGHBORS && Gap(t[Place(t, Source(b))], b) <= 31
      case Expire(_) => true
      case Check(at) => OneLapse(t, at)
    }

    /** Any run of beacons, link checks and expiries: the array stays sorted,
        remove2Hop finds every entry, and each counter is exactly the current
        listings plus those lost with expired neighbours. It ends early only at the
        full-table assertion, at a gap above 31, at two links that lapse together, or
        after neighbours that expired had listed some node more than 22353 times. */
    method Run(ops: seq<Op>, ghost lost0: multiset<NodeId>) returns (done: nat, ghost lost: multiset<NodeId>)
      requires Valid() && Accounted(hop2, Table(), lost0) && forall op | op in ops :: op.Packets()
      modifies this`numNeigh, this`hop2, neighbors
      ensures done <= |ops| && Valid() && NeverUnder(hop2, Table()) && Accounted(hop2, Table(), lost)
      ensures lost0 <= lost && ((forall i | 0 <= i < done :: ops[i].Hear?) ==> lost == lost0)
      ensures done < |ops| ==> !Ready(ops[done]) || exists x :: lost[x] > MAX_LOST
      ensures old(Readable(Table())) && (forall op | op in ops :: op.Countable()) ==> Readable(Table())
    {
      hide NeverUnder, Accounted, Refreshed, Listed, Source, Unexpired, Known, Replaced, LostWith, Readable, AfterLapse;
      hide OneLapse;
      done, lost := 0, lost0;
      while done < |ops|
        invariant done <= |ops| && Valid() && Accounted(hop2, Table(), lost) && lost0 <= lost
        invariant (forall i | 0 <= i < done :: ops[i].Hear?) ==> lost == lost0
        invariant old(Readable(Table())) && (forall op | op in ops :: op.Countable()) ==> Readable(Table())
      {
        ghost var t := Table();
        AccountedNeverUnder(hop2, t, lost);
        assert ops[done] in ops;
        if !Ready(ops[done]) { return; }
        match ops[done] {
          case Hear(b, at) =>
            RefreshKeepsCounts(hop2, t, b, at);
            if !Room(b) {
              if forall x :: lost[x] <= MAX_LOST { EnoughRoom(hop2, t, b, lost); }
              return;
            }
            RefreshKeepsAccount(hop2, t, b, at, lost);
            if Readable(t) && CountsOk(b) { RefreshedReadable(t, b, at); }
            var isNew := RefreshNeigh(b, at);
          case Expire(at) =>
            ExpiryKeepsAccount(hop2, t, at, lost);
            if Readable(t) { UnexpiredReadable(t, at); }
            lost := lost + LostWith(t, at);
            RemoveOldNeigh(at);
          case Check(at) =>
            LapseKeepsAccount(hop2, t, at, lost);
            ExpiryKeepsAccount(hop2, AfterLapse(t, at), at, lost);
            if Readable(t) {
              LapseReadable(t, at);
              UnexpiredReadable(AfterLapse(t, at), at);
            }
            lost := lost + LostWith(AfterLapse(t, at), at);
            var changed := CheckLinkFailure(at);
        }
        done := done + 1;
      }
      AccountedNeverUnder(hop2, Table(), lost);
    }

    /** Beacons of a node that was unknown, with gaps up to 31: the table describes
        exactly what came, and the node is active if and only if at some time its last
        twelve beacons had come and one of the twenty before. */
    method HearAll(bs: seq<Packet>, at: seq<int>, ghost ns: seq<nat>, ghost lost: multiset<NodeId>)
      requires Valid() && Accounted(hop2, Table(), lost) && forall x :: lost[x] <= MAX_LOST
      requires |bs| == |at| == |ns| > 0 && BeaconHistories.GapsSmall(ns) && numNeigh + 1 < MAX_NEIGHBORS
      requires forall i | 0 <= i < |bs| :: bs[i].Valid()
      requires forall i | 0 <= i < |bs| :: Source(bs[i]) == Source(bs[0]) && SeqNo(bs[i]) == ns[i] % 0x1_0000
      requires !Known(Table(), Source(bs[0]))
      modifies this`numNeigh, this`hop2, neighbors
      ensures Valid() && Accounted(hop2, Table(), lost) && numNeigh == old(numNeigh) + 1
      ensures Known(Table(), Source(bs[0]))
      ensures HeardAs(EntryOf(Table(), Source(bs[0])), ns, bs[|bs| - 1], at[|at| - 1])
    {
      hide NeverUnder, Accounted, Source, SeqNo, Known, Updated, Gap, Sorted, AllOk, EntryOf, HeardAs, Fresh;
      hide BeaconHistories.GapsSmall;
      var src := Source(bs[0]);
      Hear(bs[0], at[0], lost);
      FirstDescribed(bs[0], at[0], ns[0]);
      assert ns[..1] == [ns[0]];
      for i := 1 to |bs|
        invariant Valid() && Accounted(hop2, Table(), lost) && numNeigh == old(numNeigh) + 1 && Known(Table(), src)
        invariant HeardAs(EntryOf(Table(), src), ns[..i], bs[i - 1], at[i - 1])
      {
        Prefixes(ns, i);
        GapFits(EntryOf(Table(), src), ns, i, bs[i - 1], at[i - 1], bs[i]);
        NextDescribed(EntryOf(Table(), src), bs[i - 1], at[i - 1], bs[i], at[i], ns[..i + 1]);
        Hear(bs[i], at[i], lost);
      }
      assert ns[..|ns|] == ns;
    }

    /** `refreshNeigh` where no counter can overflow and the table is not full. */
    method Hear(b: Packet, at: int, ghost lost: multiset<NodeId>)
      requires Valid() && b.Valid() && numNeigh < MAX_NEIGHBORS
      requires Accounted(hop2, Table(), lost) && forall x :: lost[x] <= MAX_LOST
      requires Known(Table(), Source(b)) ==> Gap(EntryOf(Table(), Source(b)), b) <= 31
      modifies this`numNeigh, this`hop2, neighbors
      ensures Valid() && Accounted(hop2, Table(), lost)
      ensures numNeigh == old(numNeigh) + if old(Known(Table(), Source(b))) then 0 else 1
      ensures Known(Table(), Source(b))
      ensures EntryOf(Table(), Source(b)) ==
        Updated(old(if Known(Table(), Source(b)) then EntryOf(Table(), Source(b)) else Fresh(b, at)), b, at)
    {
      hide NeverUnder, Accounted, Refreshed, Listed, Source, Known, Replaced, Updated, Gap, Sorted, AllOk, Recounted;
      ghost var t := Table();
      AccountedNeverUnder(hop2, t, lost);
      EnoughRoom(hop2, t, b, lost);
      RefreshKeepsAccount(hop2, t, b, at, lost);
      RefreshedEntry(t, b, at);
      RefreshedSorted(t, b, at);
      var isNew := RefreshNeigh(b, at);
    }

    /** A new neighbour heard without loss is active from its thirteenth beacon on. */
    method HearWithoutLoss(bs: seq<Packet>, at: seq<int>, ghost n: nat, ghost lost: multiset<NodeId>)
      returns (active: bool)
      requires Valid() && Accounted(hop2, Table(), lost) && forall x :: lost[x] <= MAX_LOST
      requires |bs| == |at| > 0 && numNeigh + 1 < MAX_NEIGHBORS
      requires forall i | 0 <= i < |bs| :: bs[i].Valid()
      requires forall i | 0 <= i < |bs| :: Source(bs[i]) == Source(bs[0]) && SeqNo(bs[i]) == (n + i) % 0x1_0000
      requires !Known(Table(), Source(bs[0]))
      modifies this`numNeigh, this`hop2, neighbors
      ensures Valid() && Known(Table(), Source(bs[0]))
      ensures active == EntryOf(Table(), Source(bs[0])).active == (|bs| >= 13)
    {
      hide Accounted, Known, Source, SeqNo, OnceEnough, EntryOf, Sorted, AllOk, BeaconHistories.GapsSmall;
      HearAll(bs, at, BeaconHistories.Consecutive(n, |bs|), lost);
      EnoughFromThirteenth(n, |bs|);
      var i := FindNeigh(Source(bs[0]));
      EntryAt(Table(), Source(bs[0]));
      active := neighbors[i].active;
    }

    /** A beacon and a later check: the link stays active exactly while less than eight
        announced periods have passed. */
    method HearThenCheck(b: Packet, at: int, later: int, ghost lost: multiset<NodeId>) returns (ok: bool)
      requires Valid() && b.Valid() && numNeigh < MAX_NEIGHBORS
      requires Accounted(hop2, Table(), lost) && forall x :: lost[x] <= MAX_LOST
      requires Known(Table(), Source(b)) ==> Gap(EntryOf(Table(), Source(b)), b) <= 31
      modifies this`numNeigh, this`hop2, neighbors
      ensures Valid()
      ensures ok ==> Known(Table(), Source(b)) && (EntryOf(Table(), Source(b)).active ==> later - at < 8 * Period(b))
      ensures ok && old(Known(Table(), Source(b)) && EntryOf(Table(), Source(b)).active) ==>
        (EntryOf(Table(), Source(b)).active <==> later - at < 8 * Period(b))
    {
      hide NeverUnder, Accounted, Refreshed, Listed, Source, Known, Replaced, Gap, Sorted, AllOk, Recounted, AfterLapse;
      hide OneLapse, BeaconHistories.Heard, Period, SomeLapse;
      ghost var t := Table();
      AccountedNeverUnder(hop2, t, lost);
      EnoughRoom(hop2, t, b, lost);
      LapseExact(t, b, at, later);
      RefreshedEntry(t, b, at);
      var isNew := RefreshNeigh(b, at);
      var changed;
      changed, ok := CheckLinks(later);
    }

    /** No counter passes the range of a `short` with this beacon. */
    predicate Room(b: Packet)
      reads this, neighbors
      requires Valid() && b.Valid() && Removable(hop2, Replaced(Table(), b))
    {
      NoOverflow(RemoveAll(hop2, Replaced(neighbors[..numNeigh], b)), Listed(b))
    }
  }

  // ---------------------------------------------------------------------
  // A counter that grows without bound

  /** A beacon of node `src` that lists `x` alone. */
  function Lister(src: NodeId, x: NodeId): (p: Packet)
    ensures p.Valid()
  {
    Packet(seq(MAX_PACKET, i requires 0 <= i < MAX_PACKET =>
      if OFF_SRC <= i < OFF_SRC + ID_SIZE then IdBytes(src)[i - OFF_SRC]
      else if i == OFF_NUM_MPR then 1
      else if OFF_LNEIGH <= i < OFF_LNEIGH + ID_SIZE then IdBytes(x)[i - OFF_LNEIGH]
      else 0), OFF_LNEIGH + ID_SIZE)
  }

  lemma ListerLists(src: NodeId, x: NodeId)
    ensures Listed(Lister(src, x)) == [x] && CountsOk(Lister(src, x))
  {
    hide IdBytes, IdOf;
    var p := Lister(src, x);
    assert p.buffer[OFF_NUM_MPR] == 1 && p.buffer[OFF_NUM_NO_MPR] == 0;
    assert p.buffer[OFF_LNEIGH..OFF_LNEIGH + ID_SIZE] == IdBytes(x);
    IdRoundTrip(x);
    assert OFF_LNEIGH + ID_SIZE * 0 == OFF_LNEIGH;
    assert ListedId(p, 0) == x;
  }

  /** A neighbour heard once is not active and expires 32 intervals later. */
  lemma HeardOnceExpires(b: Packet, at: int, later: int)
    requires b.Valid() && later > at + 32 * Period(b)
    ensures Unexpired(Refreshed([], b, at), later) == [] && !Known([], Source(b)) && Replaced([], b) == []
  {
    hide BeaconHistories.Heard, Source, Period, SeqNo;
    BeaconHistories.HeardOnce();
    var d := Updated(Fresh(b, at), b, at);
    assert Refreshed([], b, at) == [d] && [d][..0] == [] && d.IsExpired(later);
  }

  /** The counters after `k` such rounds. */
  lemma LeakStep(h: Hop2List, x: NodeId, k: nat)
    requires k < 32767 && h == (if k == 0 then map[] else map[x := k])
    ensures Removable(h, []) && Recounted(h, [], [x]) == map[x := k + 1]
  {
    assert [x][..0] == [];
    assert AddAll(h, []) == h;
  }

  /** Nodes are heard once and expire, again and again: the counter of the node
      they list grows by one each round although nobody lists it any more. Returns
      the time after the last round. */
  method LeakRounds(table: NeighbourTable, src: NodeId, x: NodeId, rounds: nat, at: int) returns (now: int)
    requires table.Valid() && table.Table() == [] && table.hop2 == map[] && rounds <= 32767
    modifies table, table.neighbors
    ensures table.Valid() && table.Table() == [] && NeverUnder(table.hop2, table.Table())
    ensures table.hop2 == if rounds == 0 then map[] else map[x := rounds]
    ensures now >= at + rounds
  {
    hide Listed, Period, Source, Refreshed, Unexpired, Recounted, Removable;
    var b := Lister(src, x);
    ListerLists(src, x);
    now := at;
    for k := 0 to rounds
      invariant table.Valid() && table.Table() == [] && now >= at + k
      invariant table.hop2 == if k == 0 then map[] else map[x := k]
    {
      var later := now + 32 * Period(b) + 1;
      HeardOnceExpires(b, now, later);
      LeakStep(table.hop2, x, k);
      var isNew := table.RefreshNeigh(b, now);
      table.RemoveOldNeigh(later);
      now := later;
    }
  }

  /** After 32767 rounds, each of them allowed, one more beacon makes the counter
      fall short: the table lists `x` once, the counter says -32768. */
  method CounterOverflows(src: NodeId, x: NodeId, at: int) returns (table: NeighbourTable)
    ensures table.Valid() && Listings(table.Table())[x] == 1 && Stat(table.hop2, x) == -32768
    ensures !NeverUnder(table.hop2, table.Table())
  {
    hide Listed, Source;
    table := new NeighbourTable();
    var now := LeakRounds(table, src, x, 32767, at);
    var b := Lister(src, x);
    ListerLists(src, x);
    ghost var h := table.hop2;
    HeardOnceExpires(b, now, now + 32 * Period(b) + 1);
    var isNew := table.RefreshNeigh(b, now);
    LastStraw(h, b, x, now);
  }

  lemma LastStraw(h: Hop2List, b: Packet, x: NodeId, at: int)
    requires b.Valid() && Listed(b) == [x] && h == map[x := 32767]
    ensures Stat(Recounted(h, [], [x]), x) == -32768 && Listings(Refreshed([], b, at))[x] == 1
    ensures Refreshed([], b, at) == [Updated(Fresh(b, at), b, at)]
  {
    hide Listed, BeaconHistories.Heard, Source;
    var d := Updated(Fresh(b, at), b, at);
    assert [x][..0] == [] && [d][..0] == [];
    NothingRemoved(h);
    assert AddAll(h, []) == h && AddAll(h, [x]) == AddOne(h, x) && Short(32768) == -32768;
    assert Refreshed([], b, at) == [d] && Listings([d]) == Listings([]) + Listing(d);
  }

  // ---------------------------------------------------------------------
  // Readable beacons

  /** All stored beacons have list counts below 128. */
  predicate Readable(t: seq<NodeDescr>) {
    forall i | 0 <= i < |t| :: t[i].lastBeacon.Valid() && CountsOk(t[i].lastBeacon)
  }

  predicate HasBeacons(t: seq<NodeDescr>) {
    forall i | 0 <= i < |t| :: t[i].lastBeacon.Valid()
  }

  /** hasNeigh(`me`) returns for every stored beacon. */
  predicate SearchesEnd(t: seq<NodeDescr>, me: NodeId) {
    forall i | 0 <= i < |t| :: t[i].lastBeacon.Valid() && Ends(t[i].lastBeacon, me)
  }

  lemma ReadableEnds(t: seq<NodeDescr>, me: NodeId)
    requires Readable(t)
    ensures SearchesEnd(t, me)
  {
    hide Ends, CountsOk;
    forall i | 0 <= i < |t| ensures t[i].lastBeacon.Valid() && Ends(t[i].lastBeacon, me) {
      CountsOkEnds(t[i].lastBeacon, me);
    }
  }

  lemma RefreshedReadable(t: seq<NodeDescr>, b: Packet, now: int)
    requires b.Valid() && CountsOk(b) && AllOk(t) && Readable(t)
    ensures Readable(Refreshed(t, b, now))
  {
    hide BeaconHistories.Heard, Source, CountsOk;
  }

  lemma {:induction false} UnexpiredReadable(t: seq<NodeDescr>, now: int)
    requires Readable(t)
    ensures Readable(Unexpired(t, now))
  {
    if t != [] {
      hide NodeDescr.IsExpired, CountsOk;
      UnexpiredReadable(t[..|t| - 1], now);
    }
  }

  lemma ListedAt(p: Packet, i: nat)
    requires p.Valid() && i < NumListed(p)
    ensures Listed(p)[i] == IdAt(p.buffer, OFF_LNEIGH + ID_SIZE * i)
  {
    hide IdAt;
  }

  lemma SourceAt(p: Packet)
    requires p.Valid()
    ensures Source(p) == IdAt(p.buffer, OFF_SRC)
  {
  }

  lemma Around(t: seq<NodeDescr>, i: nat, d: NodeDescr)
    requires i <= |t|
    ensures var u := t[..i] + [d] + t[i..]; u[..i] == t[..i] && u[i] == d && u[i + 1..] == t[i..]
  {
  }

  lemma Head(t: seq<NodeDescr>, i: nat)
    requires i < |t|
    ensures t[i..][0] == t[i] && t[i..][1..] == t[i + 1..] && t[..i + 1][..i] == t[..i] && t[..i + 1][i] == t[i]
  {
  }

  lemma EntryAt(t: seq<NodeDescr>, id: NodeId)
    requires Known(t, id)
    ensures Place(t, id) < |t| && EntryOf(t, id) == t[Place(t, id)]
  {
  }

  lemma Prefixes(ns: seq<nat>, i: nat)
    requires 1 <= i < |ns| && BeaconHistories.GapsSmall(ns)
    ensures ns[..i + 1][..i] == ns[..i] && BeaconHistories.GapsSmall(ns[..i + 1]) && ns[..i + 1][i] == ns[i]
  {
  }

  lemma GapFits(d: NodeDescr, ns: seq<nat>, i: nat, b0: Packet, t0: int, b: Packet)
    requires 1 <= i < |ns| && BeaconHistories.GapsSmall(ns) && b0.Valid() && b.Valid()
    requires HeardAs(d, ns[..i], b0, t0) && SeqNo(b) == ns[i] % 0x1_0000
    ensures d.lastBeacon.Valid() && Gap(d, b) <= 31
  {
    hide BeaconHistories.LostBeacons, Value, OnceEnough, BeaconHistories.History;
    BeaconHistories.SequenceGap(ns[i - 1], ns[i]);
  }

  lemma OkAt(t: seq<NodeDescr>, i: nat)
    requires AllOk(t) && i < |t|
    ensures t[i].lastBeacon.Valid() && t[i].beaconHist < BeaconHistories.WORD_RANGE
  {
  }

  lemma NothingRemoved(h: Hop2List)
    ensures Removable(h, []) && RemoveAll(h, []) == h
  {
  }

  lemma {:induction false} RemovablePrefix(h: Hop2List, s: seq<NodeId>, i: nat)
    requires Removable(h, s) && i <= |s|
    ensures Removable(h, s[..i])
    decreases |s|
  {
    if i == |s| {
      assert s[..i] == s;
    } else {
      RemovablePrefix(h, s[..|s| - 1], i);
      assert s[..|s| - 1][..i] == s[..i];
    }
  }

  lemma Shifted(was: seq<NodeDescr>, before: seq<NodeDescr>, i: nat, n: nat)
    requires 0 < i <= n < |was| == |before| && was[..i] == before[..i] && was[i + 1..n + 1] == before[i..n]
    ensures var s := was[i := was[i - 1]];
      s[..i - 1] == before[..i - 1] && s[i..n + 1] == before[i - 1..n]
  {
    var s := was[i := was[i - 1]];
    assert was[i - 1] == was[..i][i - 1] == before[i - 1];
    assert s[i..n + 1] == [was[i - 1]] + was[i + 1..n + 1];
    assert before[i - 1..n] == [before[i - 1]] + before[i..n];
    assert s[..i - 1] == was[..i][..i - 1];
  }
}
