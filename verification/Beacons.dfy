/** src/beacon.cc, src/awds/beacon.h: the neighbour list of a beacon packet. */
module Beacons {
  import opened Bytes
  import opened TopoPackets

  const OFF_SEQ: nat := 7
  const OFF_PERIOD: nat := 9
  const OFF_NUM_NO_MPR: nat := 11
  const OFF_NUM_MPR: nat := 12
  const OFF_LNEIGH: nat := 13

  /** A `char` read as an `int` is signed. */
  function SignedChar(b: byte): int { if b < 128 then b else b - 256 }

  function SeqNo(p: Packet): nat
    requires p.Valid()
  {
    Value(p.buffer[OFF_SEQ..OFF_SEQ + 2])
  }

  /** Period in milliseconds. */
  function Period(p: Packet): nat
    requires p.Valid()
  {
    Value(p.buffer[OFF_PERIOD..OFF_PERIOD + 2])
  }

  function NumMpr(p: Packet): int
    requires p.Valid()
  {
    SignedChar(p.buffer[OFF_NUM_MPR])
  }

  function NumNoMpr(p: Packet): int
    requires p.Valid()
  {
    SignedChar(p.buffer[OFF_NUM_NO_MPR])
  }

  function ListedId(p: Packet, i: nat): NodeId
    requires p.Valid() && i < 256
  {
    IdAt(p.buffer, OFF_LNEIGH + ID_SIZE * i)
  }

  /** The number of turns of `for (i = 0; i < n; ++i)` over the list. */
  function NumListed(p: Packet): (n: nat)
    requires p.Valid()
    ensures n <= 254
  {
    var n := NumNoMpr(p) + NumMpr(p);
    if n < 0 then 0 else n
  }

  /** All nodes a beacon lists, MPRs first. */
  function Listed(p: Packet): (s: seq<NodeId>)
    requires p.Valid()
    ensures |s| == NumListed(p)
  {
    seq(NumListed(p), i requires 0 <= i < 256 => ListedId(p, i))
  }

  predicate Ascending(s: seq<NodeId>) {
    forall i, j | 0 <= i < j < |s| :: s[i] < s[j]
  }

  predicate CountsOk(p: Packet)
    requires p.Valid()
  {
    NumMpr(p) >= 0 && NumNoMpr(p) >= 0
  }

  /** Both parts of the list are sorted. */
  predicate Searchable(p: Packet)
    requires p.Valid()
  {
    CountsOk(p) && Ascending(Listed(p)[..NumMpr(p)]) && Ascending(Listed(p)[NumMpr(p)..])
  }

  /** The search as it runs, on any list. */
  function Search(p: Packet, a: nat, b: nat, id: NodeId): bool
    requires p.Valid() && a <= b <= NumListed(p)
    decreases b - a
  {
    if a == b then false
    else
      var m := (a + b) / 2;
      if ListedId(p, m) == id then true
      else if ListedId(p, m) < id then Search(p, m + 1, b, id)
      else Search(p, a, m, id)
  }

  /** A hit is always a listed node; in a sorted range every listed node is hit. */
  lemma SearchExact(p: Packet, a: nat, b: nat, id: NodeId)
    requires p.Valid() && a <= b <= NumListed(p)
    ensures Search(p, a, b, id) ==> id in Listed(p)[a..b]
    ensures Ascending(Listed(p)[a..b]) ==> (Search(p, a, b, id) <==> id in Listed(p)[a..b])
  {
    hide Search, Ascending;
    RangeSearched(p, a, b, id);
  }

  predicate RangeHas(p: Packet, a: nat, b: nat, id: NodeId)
    requires p.Valid() && a <= b <= NumListed(p)
  {
    id in Listed(p)[a..b]
  }

  predicate RangeAscends(p: Packet, a: nat, b: nat)
    requires p.Valid() && a <= b <= NumListed(p)
  {
    Ascending(Listed(p)[a..b])
  }

  lemma {:induction false} RangeSearched(p: Packet, a: nat, b: nat, id: NodeId)
    requires p.Valid() && a <= b <= NumListed(p)
    ensures Search(p, a, b, id) ==> RangeHas(p, a, b, id)
    ensures RangeAscends(p, a, b) ==> (Search(p, a, b, id) <==> RangeHas(p, a, b, id))
    decreases b - a
  {
    if a < b {
      hide *;
      var m := (a + b) / 2;
      SearchUnfold(p, a, b, id);
      RangeHalves(p, a, m, b, id);
      if ListedId(p, m) < id { RangeSearched(p, m + 1, b, id); }
      if ListedId(p, m) > id { RangeSearched(p, a, m, id); }
    } else {
      hide RangeAscends, ListedId;
    }
  }

  lemma RangeHalves(p: Packet, a: nat, m: nat, b: nat, id: NodeId)
    requires p.Valid() && a <= m < b <= NumListed(p)
    ensures RangeHas(p, a, b, id) <==> RangeHas(p, a, m, id) || id == ListedId(p, m) || RangeHas(p, m + 1, b, id)
    ensures RangeAscends(p, a, b) ==> RangeAscends(p, a, m) && RangeAscends(p, m + 1, b)
    ensures RangeAscends(p, a, b) && ListedId(p, m) < id ==> !RangeHas(p, a, m, id)
    ensures RangeAscends(p, a, b) && id < ListedId(p, m) ==> !RangeHas(p, m + 1, b, id)
  {
    hide ListedId, Listed, NumListed, Ascending;
    ListedEntry(p, m);
    var s := Listed(p);
    RangeSplit(s, a, m, b);
    HalvesSearched(s[a..m], s[m], s[m + 1..b], id);
  }

  lemma ListedEntry(p: Packet, i: nat)
    requires p.Valid() && i < NumListed(p)
    ensures Listed(p)[i] == ListedId(p, i)
  {
    hide ListedId;
  }

  lemma RangeSplit(s: seq<NodeId>, a: nat, m: nat, b: nat)
    requires a <= m < b <= |s|
    ensures s[a..b] == s[a..m] + [s[m]] + s[m + 1..b]
  {
  }

  lemma SearchUnfold(p: Packet, a: nat, b: nat, id: NodeId)
    requires p.Valid() && a < b <= NumListed(p)
    ensures var m := (a + b) / 2; var x := ListedId(p, m);
      && a <= m < b
      && Search(p, a, b, id) == (x == id || (x < id && Search(p, m + 1, b, id)) || (x > id && Search(p, a, m, id)))
  {
    hide ListedId;
  }

  /** Where an identifier can be, seen from the middle of a range. */
  lemma HalvesSearched(left: seq<NodeId>, x: NodeId, right: seq<NodeId>, id: NodeId)
    ensures id in left + [x] + right <==> id in left || id == x || id in right
    ensures Ascending(left + [x] + right) ==> Ascending(left) && Ascending(right)
    ensures Ascending(left + [x] + right) && x < id ==> id !in left
    ensures Ascending(left + [x] + right) && id < x ==> id !in right
  {
    if Ascending(left + [x] + right) { Halves(left, x, right); }
  }

  lemma Halves(left: seq<NodeId>, x: NodeId, right: seq<NodeId>)
    requires Ascending(left + [x] + right)
    ensures Ascending(left) && Ascending(right)
    ensures (forall y | y in left :: y < x) && (forall y | y in right :: x < y)
  {
    var s := left + [x] + right;
    forall i, j | 0 <= i < j < |left| ensures left[i] < left[j] { assert s[i] < s[j]; }
    forall i, j | 0 <= i < j < |right| ensures right[i] < right[j] {
      assert s[|left| + 1 + i] < s[|left| + 1 + j];
    }
    forall y | y in left ensures y < x { var i :| 0 <= i < |left| && left[i] == y; assert s[i] < s[|left|]; }
    forall y | y in right ensures x < y {
      var i :| 0 <= i < |right| && right[i] == y;
      assert s[|left|] < s[|left| + 1 + i];
    }
  }

  // ---------------------------------------------------------------------
  // The search for any bounds: counts are signed, so bounds may be negative or
  // the wrong way round

  /** C's division by two. */
  function Half(n: int): int { if n >= 0 then n / 2 else -(-n / 2) }

  /** Position `m` of the list lies within the packet buffer. */
  predicate InBuffer(m: int) {
    0 <= OFF_LNEIGH + ID_SIZE * m && OFF_LNEIGH + ID_SIZE * m + ID_SIZE <= MAX_PACKET
  }

  /** The identifier a probe at position `m` reads; before the list it is made of
      header octets. */
  function Key(p: Packet, m: int): NodeId
    requires p.Valid() && InBuffer(m)
  {
    IdAt(p.buffer, OFF_LNEIGH + ID_SIZE * m)
  }

  /** What becomes of a search: a hit, an empty range, a read outside the packet, or
      no end at all. */
  datatype Fate = Hit | Missed | Outside | Forever

  function SearchFate(p: Packet, a: int, b: int, id: NodeId): Fate
    requires p.Valid()
    decreases if a < b then 1 else 0, if a < b then b - a else a - b
  {
    if a == b then Missed
    else
      var m := Half(a + b);
      if !InBuffer(m) then Outside
      else if Key(p, m) == id then Hit
      else if Key(p, m) < id then if a > b && m + 1 >= a then Forever else SearchFate(p, m + 1, b, id)
      else if m == b then Forever
      else SearchFate(p, a, m, id)
  }

  /** The loop has come to an end, hit or left the packet. */
  predicate Stopped(p: Packet, a: int, b: int, id: NodeId)
    requires p.Valid()
  {
    a == b || !InBuffer(Half(a + b)) || Key(p, Half(a + b)) == id
  }

  /** One turn of the loop. */
  function Turn(p: Packet, a: int, b: int, id: NodeId): (int, int)
    requires p.Valid() && !Stopped(p, a, b, id)
  {
    var m := Half(a + b);
    if Key(p, m) < id then (m + 1, b) else (a, m)
  }

  /** The bounds after up to `k` turns. */
  function Turns(p: Packet, a: int, b: int, id: NodeId, k: nat): (int, int)
    requires p.Valid()
    decreases k
  {
    if k == 0 || Stopped(p, a, b, id) then (a, b)
    else var (c, d) := Turn(p, a, b, id); Turns(p, c, d, id, k - 1)
  }

  /** A turn does not change the fate. */
  lemma FateKept(p: Packet, a: int, b: int, id: NodeId)
    requires p.Valid() && !Stopped(p, a, b, id)
    ensures var (c, d) := Turn(p, a, b, id); SearchFate(p, c, d, id) == SearchFate(p, a, b, id)
  {
    hide Key, InBuffer;
    var m := Half(a + b);
    if Key(p, m) < id && a > b && m + 1 > a {
      assert m == a && b == a - 1;
      assert Half(a + 1 + b) == m;
    }
  }

  lemma {:induction false} NeverStops(p: Packet, a: int, b: int, id: NodeId, k: nat)
    requires p.Valid() && SearchFate(p, a, b, id) == Forever
    ensures var (c, d) := Turns(p, a, b, id, k); !Stopped(p, c, d, id)
    decreases k
  {
    hide Key;
    if k > 0 {
      FateKept(p, a, b, id);
      var (c, d) := Turn(p, a, b, id);
      NeverStops(p, c, d, id, k - 1);
    }
  }

  /** A search that ends narrows its range with every turn. */
  lemma TurnShrinks(p: Packet, a: int, b: int, id: NodeId)
    requires p.Valid() && !Stopped(p, a, b, id) && SearchFate(p, a, b, id) != Forever
    ensures var (c, d) := Turn(p, a, b, id);
      if a < b then c < d ==> d - c < b - a else d <= c && c - d < a - b
  {
    hide Key;
  }

  lemma {:induction false} StopsAfter(p: Packet, a: int, b: int, id: NodeId) returns (k: nat)
    requires p.Valid() && SearchFate(p, a, b, id) != Forever
    ensures var (c, d) := Turns(p, a, b, id, k);
      && Stopped(p, c, d, id) && SearchFate(p, c, d, id) == SearchFate(p, a, b, id)
    decreases if a < b then 1 else 0, if a < b then b - a else a - b
  {
    hide Key, SearchFate, Turn, InBuffer;
    if Stopped(p, a, b, id) {
      k := 0;
    } else {
      hide Stopped;
      FateKept(p, a, b, id);
      TurnShrinks(p, a, b, id);
      var (c, d) := Turn(p, a, b, id);
      var j := StopsAfter(p, c, d, id);
      k := j + 1;
    }
  }

  /** For all bounds, lists and identifiers, the loop of hasNeighBinsearch ends if
      and only if its fate is another than `Forever`. */
  lemma SearchEnds(p: Packet, a: int, b: int, id: NodeId)
    requires p.Valid()
    ensures SearchFate(p, a, b, id) != Forever <==>
      exists k: nat :: StoppedAfter(p, a, b, id, k)
  {
    hide Key, SearchFate, Stopped, Turns;
    if SearchFate(p, a, b, id) != Forever {
      var k := StopsAfter(p, a, b, id);
      assert StoppedAfter(p, a, b, id, k);
    } else {
      forall k: nat ensures !StoppedAfter(p, a, b, id, k) { NeverStops(p, a, b, id, k); }
    }
  }

  predicate StoppedAfter(p: Packet, a: int, b: int, id: NodeId, k: nat)
    requires p.Valid()
  {
    var (c, d) := Turns(p, a, b, id, k); Stopped(p, c, d, id)
  }

  /** Within the list the fate is that of the plain search. */
  lemma {:induction false} RegularFate(p: Packet, a: nat, b: nat, id: NodeId)
    requires p.Valid() && a <= b <= NumListed(p)
    ensures SearchFate(p, a, b, id) == if Search(p, a, b, id) then Hit else Missed
    decreases b - a
  {
    hide NumMpr, NumNoMpr, IdAt;
    if a < b {
      var m := (a + b) / 2;
      assert Half(a + b) == m && InBuffer(m) && Key(p, m) == ListedId(p, m);
      RegularFate(p, m + 1, b, id);
      RegularFate(p, a, m, id);
    }
  }

  /** hasNeighBinsearch, wherever it ends inside the packet. */
  method HasNeighBinsearch(p: Packet, a: int, b: int, id: NodeId) returns (found: bool)
    requires p.Valid() && (SearchFate(p, a, b, id) == Hit || SearchFate(p, a, b, id) == Missed)
    ensures found <==> SearchFate(p, a, b, id) == Hit
  {
    hide IdAt, SearchFate, InBuffer;
    var lo, hi := a, b;
    while lo != hi
      invariant SearchFate(p, lo, hi, id) == SearchFate(p, a, b, id)
      decreases if lo < hi then 1 else 0, if lo < hi then hi - lo else lo - hi
    {
      var m := Half(lo + hi);
      ProbeInside(p, lo, hi, id);
      var mId := LoadId(p.buffer, OFF_LNEIGH + ID_SIZE * m);
      if mId == id { return true; }
      FateKept(p, lo, hi, id);
      TurnShrinks(p, lo, hi, id);
      if mId < id { lo := m + 1; } else { hi := m; }
    }
    EmptyMissed(p, lo, id);
    return false;
  }

  lemma EmptyMissed(p: Packet, a: int, id: NodeId)
    requires p.Valid()
    ensures SearchFate(p, a, a, id) == Missed
  {
  }

  /** A search that ends inside the packet probes inside it. */
  lemma ProbeInside(p: Packet, a: int, b: int, id: NodeId)
    requires p.Valid() && a != b && (SearchFate(p, a, b, id) == Hit || SearchFate(p, a, b, id) == Missed)
    ensures InBuffer(Half(a + b))
    ensures 0 <= OFF_LNEIGH + ID_SIZE * Half(a + b) && OFF_LNEIGH + ID_SIZE * Half(a + b) + ID_SIZE <= |p.buffer|
    ensures Key(p, Half(a + b)) == id ==> SearchFate(p, a, b, id) == Hit
  {
    hide Key;
  }

  function MprFate(p: Packet, id: NodeId): Fate
    requires p.Valid()
  {
    SearchFate(p, 0, NumMpr(p), id)
  }

  function NoMprFate(p: Packet, id: NodeId): Fate
    requires p.Valid()
  {
    SearchFate(p, NumMpr(p), NumMpr(p) + NumNoMpr(p), id)
  }

  predicate IsMpr(p: Packet, id: NodeId)
    requires p.Valid()
  {
    MprFate(p, id) == Hit
  }

  predicate IsNoMpr(p: Packet, id: NodeId)
    requires p.Valid()
  {
    NoMprFate(p, id) == Hit
  }

  /** hasNeigh returns: neither search runs forever or out of the packet. */
  predicate Ends(p: Packet, id: NodeId)
    requires p.Valid()
  {
    MprFate(p, id) == Hit || (MprFate(p, id) == Missed && (NoMprFate(p, id) == Hit || NoMprFate(p, id) == Missed))
  }

  method HasMpr(p: Packet, id: NodeId) returns (found: bool)
    requires p.Valid() && (MprFate(p, id) == Hit || MprFate(p, id) == Missed)
    ensures found == IsMpr(p, id)
  {
    found := HasNeighBinsearch(p, 0, NumMpr(p), id);
  }

  method HasNoMpr(p: Packet, id: NodeId) returns (found: bool)
    requires p.Valid() && (NoMprFate(p, id) == Hit || NoMprFate(p, id) == Missed)
    ensures found == IsNoMpr(p, id)
  {
    var a := NumMpr(p);
    found := HasNeighBinsearch(p, a, a + NumNoMpr(p), id);
  }

  method HasNeigh(p: Packet, id: NodeId) returns (found: bool)
    requires p.Valid() && Ends(p, id)
    ensures found == (IsMpr(p, id) || IsNoMpr(p, id))
  {
    hide MprFate, NoMprFate;
    found := HasMpr(p, id);
    if !found { found := HasNoMpr(p, id); }
  }

  /** With both counts below 128 both searches end inside the list. */
  lemma CountsOkEnds(p: Packet, id: NodeId)
    requires p.Valid() && CountsOk(p)
    ensures MprFate(p, id) == (if Search(p, 0, NumMpr(p), id) then Hit else Missed)
    ensures NoMprFate(p, id) == (if Search(p, NumMpr(p), NumMpr(p) + NumNoMpr(p), id) then Hit else Missed)
    ensures Ends(p, id)
  {
    hide Search, SearchFate, SignedChar;
    RegularFate(p, 0, NumMpr(p), id);
    RegularFate(p, NumMpr(p), NumMpr(p) + NumNoMpr(p), id);
  }

  /** hasNeigh is membership in the list, for every beacon with sorted parts. */
  lemma HasNeighExact(p: Packet, id: NodeId)
    requires p.Valid() && CountsOk(p)
    ensures IsMpr(p, id) || IsNoMpr(p, id) ==> id in Listed(p)
    ensures Searchable(p) ==> (IsMpr(p, id) || IsNoMpr(p, id) <==> id in Listed(p))
  {
    hide Search, MprFate, NoMprFate, RangeHas, RangeAscends, NumMpr, NumNoMpr, Searchable, Listed;
    CountsOkEnds(p, id);
    TwoParts(p, id);
    RangeSearched(p, 0, NumMpr(p), id);
    RangeSearched(p, NumMpr(p), NumMpr(p) + NumNoMpr(p), id);
  }

  lemma TwoParts(p: Packet, id: NodeId)
    requires p.Valid() && CountsOk(p)
    ensures var a := NumMpr(p); var n := a + NumNoMpr(p);
      && 0 <= a <= n == NumListed(p)
      && (id in Listed(p) <==> RangeHas(p, 0, a, id) || RangeHas(p, a, n, id))
      && (Searchable(p) ==> RangeAscends(p, 0, a) && RangeAscends(p, a, n))
  {
    hide NumMpr, NumNoMpr, ListedId, Ascending;
    var s, a := Listed(p), NumMpr(p);
    assert s == s[..a] + s[a..] && s[0..a] == s[..a] && s[a..a + NumNoMpr(p)] == s[a..];
  }

  // ---------------------------------------------------------------------
  // Negative counts, case by case

  /** The fate decided by a probe at `m`. */
  function Probe(p: Packet, m: int, id: NodeId, smaller: Fate, larger: Fate): Fate
    requires p.Valid() && InBuffer(m)
  {
    if id == Key(p, m) then Hit else if id < Key(p, m) then smaller else larger
  }

  /** The fate of a search from 0 to a negative bound. Position -1 reads sequence
      number, period and counts, position -2 the source. */
  function FateFromZero(p: Packet, n: int, id: NodeId): Fate
    requires p.Valid() && n < 0
  {
    var first := Probe(p, 0, id, Missed, Forever);
    var before := Probe(p, -1, id, first, Forever);
    if n == -1 then first
    else if n >= -3 then before
    else if n == -4 then Probe(p, -2, id, before, Forever)
    else if n == -5 then Probe(p, -2, id, before, Outside)
    else Outside
  }

  lemma FromZero(p: Packet, n: int, id: NodeId)
    requires p.Valid() && n < 0
    ensures SearchFate(p, 0, n, id) == FateFromZero(p, n, id)
  {
    hide Key;
    assert Half(-1) == 0 && SearchFate(p, 0, -1, id) == FateFromZero(p, -1, id);
    assert Half(-2) == -1 && Half(-3) == -1 && SearchFate(p, 0, -2, id) == FateFromZero(p, -2, id);
    if n == -4 {
      assert Half(-4) == -2 && Half(-5) == -2;
      assert SearchFate(p, -1, -4, id) == Forever || Key(p, -2) >= id;
    } else if n == -5 {
      assert Half(-5) == -2 && Half(-6) == -3 && !InBuffer(-3);
    } else if n <= -6 {
      assert Half(n) <= -3;
    }
  }

  /** hasMpr for every negative MPR count and every identifier. */
  lemma NegativeMprCount(p: Packet, id: NodeId)
    requires p.Valid() && NumMpr(p) < 0
    ensures MprFate(p, id) == FateFromZero(p, NumMpr(p), id)
  {
    hide SearchFate, FateFromZero;
    FromZero(p, NumMpr(p), id);
  }

  /** hasNoMpr with both counts negative. */
  function FateBefore(p: Packet, a: int, b: int, id: NodeId): Fate
    requires p.Valid() && b < a < 0
  {
    if a + b <= -6 then Outside
    else if a == -2 then Probe(p, -2, id, Missed, Forever)
    else if b == -2 then Probe(p, -1, id, Missed, Forever)
    else Probe(p, -2, id, Probe(p, -1, id, Missed, Forever), Forever)
  }

  lemma FromBefore(p: Packet, a: int, b: int, id: NodeId)
    requires p.Valid() && b < a < 0
    ensures SearchFate(p, a, b, id) == FateBefore(p, a, b, id)
  {
    hide Key;
    if a + b <= -6 {
      assert Half(a + b) <= -3;
    } else {
      assert a == -2 ==> b == -3;
      assert Half(-3) == -1 && Half(-4) == -2 && Half(-5) == -2;
      assert SearchFate(p, -1, -2, id) == FateBefore(p, -1, -2, id);
    }
  }

  /** Bounds the wrong way round, in front of entries that are all smaller or all
      larger than the identifier: no end. */
  lemma {:induction false} WrongWay(p: Packet, a: nat, b: nat, id: NodeId)
    requires p.Valid() && b < a <= 254
    requires (forall m: nat | b <= m < a :: Entry(p, m) < id) || (forall m: nat | b <= m < a :: Entry(p, m) > id)
    ensures SearchFate(p, a, b, id) == Forever
    decreases a - b
  {
    hide Key;
    var m := (a + b) / 2;
    assert Half(a + b) == m && b <= m < a && InBuffer(m) && Entry(p, m) == Key(p, m);
    if Entry(p, m) < id {
      if m + 1 < a { WrongWay(p, m + 1, b, id); }
    } else if m != b {
      WrongWay(p, a, m, id);
    }
  }

  /** Entry `m` of the list area. */
  function Entry(p: Packet, m: nat): NodeId
    requires p.Valid() && m < 256
  {
    Key(p, m)
  }

  /** hasNoMpr for every negative count of other neighbours. Without MPRs and with
      a negative MPR count the fate is that of a few probes before the list. With
      MPRs the search never ends with a miss: it hits, runs for ever or, with a sum
      of counts below -4, leaves the packet, and does so at once from where the sum
      of both bounds is at most -6. */
  lemma NegativeNoMprCount(p: Packet, id: NodeId)
    requires p.Valid() && NumNoMpr(p) < 0
    ensures var a, b := NumMpr(p), NumMpr(p) + NumNoMpr(p);
      && (a == 0 ==> NoMprFate(p, id) == FateFromZero(p, b, id))
      && (a < 0 ==> NoMprFate(p, id) == FateBefore(p, a, b, id))
      && (a > 0 ==> NoMprFate(p, id) != Missed)
      && (a > 0 && b >= -4 ==> NoMprFate(p, id) != Outside)
      && (a + b <= -6 ==> NoMprFate(p, id) == Outside)
  {
    hide *;
    var a, b := NumMpr(p), NumMpr(p) + NumNoMpr(p);
    NoMprBounds(p, id);
    if a == 0 { FromZero(p, b, id); }
    if a < 0 { FromBefore(p, a, b, id); }
    if a > 0 { Backwards(p, a, b, id); }
    FirstProbeOutside(p, a, b, id);
  }

  /** A search towards a smaller bound: what has been read before the list was too
      small, so the bounds do not meet. */
  lemma {:induction false} Backwards(p: Packet, a: int, b: int, id: NodeId)
    requires p.Valid() && b < a <= 254
    requires a > 0 || (a == 0 && b <= -2 && Key(p, -1) < id) || (a == -1 && b <= -4 && Key(p, -2) < id)
    ensures SearchFate(p, a, b, id) != Missed
    ensures b >= -4 ==> SearchFate(p, a, b, id) != Outside
    decreases a - b
  {
    hide Key;
    var m := Half(a + b);
    if InBuffer(m) {
      assert m == a - 1 || (b <= m && m + 1 < a) || a == -1;
      if Key(p, m) < id && m + 1 < a {
        Backwards(p, m + 1, b, id);
      } else if Key(p, m) > id && m != b {
        Backwards(p, a, m, id);
      }
    }
  }

  /** With a non-negative sum of counts the search ends only with a hit: among sorted
      entries exactly for the identifier in the middle, and with a count of -1 exactly
      for the last MPR, sorted or not. */
  lemma OnlyHits(p: Packet, id: NodeId)
    requires p.Valid() && NumNoMpr(p) < 0 <= NumMpr(p) + NumNoMpr(p)
    ensures NoMprFate(p, id) == Hit || NoMprFate(p, id) == Forever
    ensures var a, b := NumMpr(p), NumMpr(p) + NumNoMpr(p);
      SortedEntries(p, a, b) ==> (NoMprFate(p, id) == Hit <==> id == Entry(p, (a + b) / 2))
    ensures NumNoMpr(p) == -1 ==> (NoMprFate(p, id) == Hit <==> id == Entry(p, NumMpr(p) - 1))
  {
    hide *;
    var a: nat, b: nat := NumMpr(p), NumMpr(p) + NumNoMpr(p);
    NoMprBounds(p, id);
    Backwards(p, a, b, id);
    if SortedEntries(p, a, b) { SortedWrongWay(p, a, b, id); }
    if b == a - 1 { LastEntry(p, a, id); }
  }

  /** hasNoMpr with a negative MPR count and a positive sum of counts: it ends for
      every identifier that is not below the keys at -2, -1 and 0. */
  lemma NegativeStart(p: Packet, id: NodeId)
    requires p.Valid() && NumMpr(p) < 0 < NumMpr(p) + NumNoMpr(p)
    requires Key(p, -2) <= id && Key(p, -1) <= id && Key(p, 0) <= id
    ensures NoMprFate(p, id) != Forever
  {
    hide *;
    NoMprBounds(p, id);
    Forwards(p, NumMpr(p), NumMpr(p) + NumNoMpr(p), id);
  }

  lemma {:induction false} Forwards(p: Packet, a: int, b: int, id: NodeId)
    requires p.Valid() && a <= b <= 254 && b > 0
    requires Key(p, -2) <= id && Key(p, -1) <= id && Key(p, 0) <= id
    ensures SearchFate(p, a, b, id) != Forever
    decreases b - a
  {
    hide Key;
    var m := Half(a + b);
    if a < b && InBuffer(m) {
      assert m < b && a <= m + 1;
      if Key(p, m) < id {
        Forwards(p, m + 1, b, id);
      } else if Key(p, m) > id {
        Forwards(p, a, m, id);
      }
    }
  }

  predicate SortedEntries(p: Packet, a: nat, b: nat)
    requires p.Valid() && b < a <= 254
  {
    forall i: nat, j: nat | b <= i < j < a :: Entry(p, i) < Entry(p, j)
  }

  lemma NoMprBounds(p: Packet, id: NodeId)
    requires p.Valid()
    ensures NoMprFate(p, id) == SearchFate(p, NumMpr(p), NumMpr(p) + NumNoMpr(p), id)
    ensures -128 <= NumMpr(p) <= 127 && -128 <= NumNoMpr(p) <= 127
  {
    hide SearchFate;
  }

  lemma FirstTurn(p: Packet, a: nat, b: nat, id: NodeId)
    requires p.Valid() && b < a <= 254
    ensures var m := (a + b) / 2;
      && b <= m < a
      && (id == Entry(p, m) ==> SearchFate(p, a, b, id) == Hit)
      && (Entry(p, m) < id ==> SearchFate(p, a, b, id) == if m + 1 == a then Forever else SearchFate(p, m + 1, b, id))
      && (Entry(p, m) > id ==> SearchFate(p, a, b, id) == if m == b then Forever else SearchFate(p, a, m, id))
  {
    hide Key;
    var m := (a + b) / 2;
    assert Half(a + b) == m && InBuffer(m) && Entry(p, m) == Key(p, m);
  }

  lemma SortedWrongWay(p: Packet, a: nat, b: nat, id: NodeId)
    requires p.Valid() && b < a <= 254 && SortedEntries(p, a, b)
    ensures SearchFate(p, a, b, id) == Hit <==> id == Entry(p, (a + b) / 2)
  {
    hide SearchFate, Entry;
    var m := (a + b) / 2;
    FirstTurn(p, a, b, id);
    if Entry(p, m) < id {
      if m + 1 < a { WrongWay(p, m + 1, b, id); }
    } else if Entry(p, m) > id && m != b {
      WrongWay(p, a, m, id);
    }
  }

  lemma LastEntry(p: Packet, a: nat, id: NodeId)
    requires p.Valid() && 1 <= a <= 254
    ensures SearchFate(p, a, a - 1, id) == Hit <==> id == Entry(p, a - 1)
  {
    hide SearchFate, Entry;
    FirstTurn(p, a, a - 1, id);
    assert (a + (a - 1)) / 2 == a - 1;
  }

  /** When the first probe already reads before the packet. */
  lemma FirstProbeOutside(p: Packet, a: int, b: int, id: NodeId)
    requires p.Valid()
    ensures a != b && a + b <= -6 ==> SearchFate(p, a, b, id) == Outside
  {
    hide Key;
  }

  // ---------------------------------------------------------------------
  // Writing the list

  /** The identifiers `ids` stand in the list area. */
  ghost predicate Written(buf: seq<byte>, ids: seq<NodeId>) {
    && OFF_LNEIGH + ID_SIZE * |ids| <= |buf|
    && forall i {:trigger ids[i]} :: 0 <= i < |ids| ==> Slot(buf, i) == IdBytes(ids[i])
  }

  function Slot(buf: seq<byte>, i: nat): seq<byte>
    requires OFF_LNEIGH + ID_SIZE * i + ID_SIZE <= |buf|
  {
    buf[OFF_LNEIGH + ID_SIZE * i..OFF_LNEIGH + ID_SIZE * i + ID_SIZE]
  }

  lemma SlotKept(buf: seq<byte>, buf': seq<byte>, i: nat, at: nat)
    requires |buf| == |buf'| && OFF_LNEIGH + ID_SIZE * i + ID_SIZE <= at <= |buf| && buf'[..at] == buf[..at]
    ensures Slot(buf', i) == Slot(buf, i)
  {
    var o := OFF_LNEIGH + ID_SIZE * i;
    assert buf[o..o + ID_SIZE] == buf[..at][o..o + ID_SIZE];
    assert buf'[o..o + ID_SIZE] == buf'[..at][o..o + ID_SIZE];
  }

  /** One identifier more, behind the others. */
  method Append(buf: array<byte>, ghost ids: seq<NodeId>, n: nat, id: NodeId)
    requires n == |ids| && OFF_LNEIGH + ID_SIZE * (n + 1) <= buf.Length && Written(buf[..], ids)
    modifies buf
    ensures Written(buf[..], ids + [id]) && buf[..OFF_LNEIGH] == old(buf[..OFF_LNEIGH])
  {
    hide BigEndian;
    var at := OFF_LNEIGH + ID_SIZE * n;
    ghost var was := buf[..];
    StoreBytes(id, buf, at, ID_SIZE);
    ghost var now := buf[..];
    assert now[..at] == was[..at];
    assert now[..OFF_LNEIGH] == was[..OFF_LNEIGH];
    assert Slot(now, n) == IdBytes(id);
    hide Slot;
    forall i | 0 <= i < n ensures Slot(now, i) == IdBytes(ids[i]) { SlotKept(was, now, i, at); }
  }

  /** What is written is what the readers find. */
  lemma WrittenListed(p: Packet, ids: seq<NodeId>)
    requires p.Valid() && Written(p.buffer, ids) && NumListed(p) == |ids|
    ensures Listed(p) == ids
  {
    hide BigEndian, IdOf, IdBytes;
    forall i | 0 <= i < |ids| ensures Listed(p)[i] == ids[i] {
      assert Slot(p.buffer, i) == IdBytes(ids[i]);
      IdRoundTrip(ids[i]);
    }
  }

  lemma WrittenKept(buf: seq<byte>, buf': seq<byte>, ids: seq<NodeId>)
    requires Written(buf, ids) && |buf| == |buf'| && buf[OFF_LNEIGH..] == buf'[OFF_LNEIGH..]
    ensures Written(buf', ids)
  {
    forall i | 0 <= i < |ids| ensures Slot(buf', i) == IdBytes(ids[i]) {
      SliceOfSlice(buf, OFF_LNEIGH, ID_SIZE * i, ID_SIZE);
      SliceOfSlice(buf', OFF_LNEIGH, ID_SIZE * i, ID_SIZE);
      assert Slot(buf, i) == IdBytes(ids[i]);
    }
  }

  lemma SliceOfSlice(s: seq<byte>, a: nat, o: nat, n: nat)
    requires a + o + n <= |s|
    ensures s[a..][o..o + n] == s[a + o..a + o + n]
  {
  }
}
