/** The beacon history of a neighbour (src/awds/NodeDescr.h) and the link weight
    the ETX metric derives from it (src/EtxMetric.cc, src/awds/Metric.h). */
module BeaconHistories {
  import opened Bits

  const TOP_BIT: nat := 0x8000_0000
  const WORD_RANGE: nat := 0x1_0000_0000

  predicate Bit(x: nat, i: nat) { x / Pow2(i) % 2 == 1 }

  /** A beacon `gap` numbers after the last one: the history moves, the newest
      bit is set (src/AwdsRouting.cc:258-259). */
  function Heard(hist: nat, gap: nat): nat {
    Or(Shr(hist, gap), TOP_BIT)
  }

  /** The 8-bit difference of two 16-bit sequence numbers (src/AwdsRouting.cc:254). */
  function LostBeacons(current: nat, last: nat): nat { (current - last) % 256 }

  /** The history describes which of the last 32 beacons arrived: bit 31 - k
      stands for the beacon k before the last. */
  ghost predicate Records(hist: nat, last: int, received: set<int>) {
    && hist < WORD_RANGE
    && forall i: nat {:trigger Bit(hist, i)} :: i <= 31 ==> (Bit(hist, i) <==> last - (31 - i) in received)
  }

  /** The beacon `age` before the last one was received. */
  predicate Came(received: set<int>, last: int, age: int) { last - age in received }

  // ---------------------------------------------------------------------
  // Bits

  lemma {:induction false} BitHalf(x: nat, i: nat)
    ensures Bit(x, i + 1) == Bit(x / 2, i)
  {
    DivideTwice(x, 2, Pow2(i));
  }

  lemma DivideTwice(x: nat, a: nat, b: nat)
    requires a > 0 && b > 0
    ensures a * b > 0 && x / (a * b) == x / a / b
  {
    var q, low := Parts(x, a);
    var r, mid := Parts(q, b);
    Assemble(a, b, r, mid, low);
    Quotient(x, a * b, r, a * mid + low);
  }

  lemma Parts(x: nat, d: nat) returns (q: nat, rest: nat)
    requires d > 0
    ensures q == x / d && rest == x % d && rest < d && x == d * q + rest
  {
    QuotientNatural(x, d);
    q, rest := x / d, x % d;
  }

  lemma Assemble(a: nat, b: nat, r: nat, mid: nat, low: nat)
    requires low < a && mid < b
    ensures a * (b * r + mid) + low == a * b * r + (a * mid + low) && a * mid + low < a * b
  {
    Monotone(a, mid + 1, b);
    assert a * (mid + 1) == a * mid + a;
    assert a * (b * r) == a * b * r;
  }

  lemma Quotient(x: nat, d: nat, q: nat, rest: nat)
    requires x == d * q + rest && rest < d
    ensures x / d == q && x % d == rest
  {
    var p, low := Parts(x, d);
    if p < q {
      Monotone(d, p + 1, q);
      OneMore(d, p);
      assert false;
    } else if p > q {
      Monotone(d, q + 1, p);
      OneMore(d, q);
      assert false;
    }
  }

  lemma OneMore(d: nat, p: nat)
    ensures d * (p + 1) == d * p + d
  {
  }

  lemma {:induction false} PowerSum(a: nat, b: nat)
    ensures Pow2(a + b) == Pow2(a) * Pow2(b)
  {
    if a > 0 {
      PowerSum(a - 1, b);
      DoubleProduct(Pow2(a - 1), Pow2(b));
    }
  }

  /** Shifting right renumbers the bits. */
  lemma BitShift(x: nat, gap: nat, i: nat)
    ensures Bit(Shr(x, gap), i) == Bit(x, gap + i)
  {
    PowerSum(gap, i);
    DivideTwice(x, Pow2(gap), Pow2(i));
  }

  lemma {:induction false} BitOr(a: nat, b: nat, i: nat)
    ensures Bit(Or(a, b), i) <==> Bit(a, i) || Bit(b, i)
  {
    hide Or;
    OrUnfold(a, b);
    LowAndHigh(if a % 2 + b % 2 == 0 then 0 else 1, Or(a / 2, b / 2));
    if i == 0 {
      assert Pow2(0) == 1;
    } else {
      hide Bit;
      BitHalf(a, i - 1);
      BitHalf(b, i - 1);
      BitHalf(Or(a, b), i - 1);
      BitOr(a / 2, b / 2, i - 1);
    }
  }

  lemma {:induction false} BitOfPower(n: nat, i: nat)
    ensures Bit(Pow2(n), i) <==> i == n
  {
    hide Bit;
    if i == 0 {
      OddBit(Pow2(n));
    } else if n == 0 {
      BitHalf(1, i - 1);
      ZeroBit(i - 1);
    } else {
      BitHalf(Pow2(n), i - 1);
      BitOfPower(n - 1, i - 1);
    }
  }

  lemma ZeroBit(i: nat)
    ensures !Bit(0, i)
  {
  }

  lemma {:induction false} NoBitAbove(x: nat, n: nat, i: nat)
    requires x < Pow2(n) && i >= n
    ensures !Bit(x, i)
  {
    if n == 0 {
      ZeroBit(i);
    } else {
      BitHalf(x, i - 1);
      NoBitAbove(x / 2, n - 1, i - 1);
    }
  }

  lemma {:induction false} OrBound(a: nat, b: nat, n: nat)
    requires a < Pow2(n) && b < Pow2(n)
    ensures Or(a, b) < Pow2(n)
  {
    if n > 0 {
      OrUnfold(a, b);
      OrBound(a / 2, b / 2, n - 1);
    }
  }

  lemma Unit()
    ensures Pow2(0) == 1
  {
  }

  lemma PowerValues()
    ensures Pow2(31) == TOP_BIT && Pow2(32) == WORD_RANGE && Pow2(20) == 0x10_0000 && Pow2(12) == 0x1000
  {
    assert Pow2(4) == 16;
    assert Pow2(8) == 256;
    assert Pow2(12) == 0x1000;
    assert Pow2(16) == 0x1_0000;
    assert Pow2(20) == 0x10_0000;
    assert Pow2(24) == 0x100_0000;
    assert Pow2(28) == 0x1000_0000;
  }

  // ---------------------------------------------------------------------
  // The history over a run of beacons

  /** The first beacon of a neighbour (src/awds/NodeDescr.h:113-120, then the
      update with gap 0). */
  lemma FirstRecorded(n: int)
    ensures Records(Heard(0, 0), n, {n})
  {
    hide Or, Pow2, Bit;
    PowerValues();
    assert Heard(0, 0) == Pow2(31) by { OrZero(TOP_BIT); Unit(); }
    forall i: nat | i <= 31 ensures Bit(Heard(0, 0), i) <==> n - (31 - i) in {n} { BitOfPower(31, i); }
  }

  /** One more beacon, at most 31 after the last. */
  lemma NextRecorded(hist: nat, last: int, received: set<int>, gap: nat)
    requires Records(hist, last, received) && gap <= 31 && forall n :: n in received ==> n <= last
    requires last in received
    ensures Records(Heard(hist, gap), last + gap, received + {last + gap})
  {
    hide Or, Pow2, Bit;
    PowerValues();
    var shifted := Shr(hist, gap);
    assert shifted <= hist by { Smaller(hist, Pow2(gap)); }
    OrBound(shifted, TOP_BIT, 32);
    forall i: nat | i <= 31
      ensures Bit(Heard(hist, gap), i) <==> last + gap - (31 - i) in received + {last + gap}
    {
      BitOr(shifted, TOP_BIT, i);
      BitOfPower(31, i);
      BitShift(hist, gap, i);
      if gap + i > 31 {
        NoBitAbove(hist, 32, gap + i);
      } else {
        assert Bit(hist, gap + i) <==> last - (31 - (gap + i)) in received;
      }
    }
  }

  lemma HeardRange(hist: nat, gap: nat)
    requires hist < WORD_RANGE
    ensures 0 < Heard(hist, gap) < WORD_RANGE
  {
    hide Or, Pow2, Bit;
    PowerValues();
    var shifted := Shr(hist, gap);
    Smaller(hist, Pow2(gap));
    OrBound(shifted, TOP_BIT, 32);
    BitOr(shifted, TOP_BIT, 31);
    BitOfPower(31, 31);
    ZeroBit(31);
  }

  /** One beacon does not make a neighbour active. */
  lemma HeardOnce()
    ensures Heard(0, 0) == TOP_BIT && !Last12Received(Heard(0, 0)) && forall n: nat :: LostBeacons(n, n) == 0
  {
    hide Or, Pow2;
    Unit();
    OrZero(TOP_BIT);
    assert Shr(0, 0) == 0;
  }

  lemma Smaller(x: nat, d: nat)
    requires d > 0
    ensures x / d <= x
  {
    var q := x / d;
    assert d * q <= x;
    Monotone(q, 1, d);
  }

  /** The history after beacons numbered `ns`, each taken over by its 16-bit
      sequence number. */
  function History(ns: seq<nat>): nat
    requires ns != []
    decreases |ns|
  {
    if |ns| == 1 then Heard(0, 0)
    else
      var m := |ns| - 1;
      Heard(History(ns[..m]), LostBeacons(ns[m] % 0x1_0000, ns[m - 1] % 0x1_0000))
  }

  predicate GapsSmall(ns: seq<nat>) {
    forall i :: 0 < i < |ns| ==> ns[i - 1] <= ns[i] <= ns[i - 1] + 31
  }

  ghost function Members(ns: seq<nat>): set<int> { set n | n in ns }

  lemma {:induction false} LastIsLargest(ns: seq<nat>)
    requires ns != [] && GapsSmall(ns)
    ensures forall n :: n in Members(ns) ==> n <= ns[|ns| - 1]
    decreases |ns|
  {
    var m := |ns| - 1;
    if m > 0 {
      LastIsLargest(ns[..m]);
      MembersStep(ns);
    }
  }

  lemma MembersStep(ns: seq<nat>)
    requires ns != []
    ensures var m := |ns| - 1; Members(ns) == Members(ns[..m]) + {ns[m]} && ns[m] in Members(ns)
  {
    var m := |ns| - 1;
    assert ns == ns[..m] + [ns[m]];
  }

  /** After any beacons with gaps up to 31, bit 31 - k says whether the beacon k
      before the last was received. */
  lemma {:induction false} HistoryRecords(ns: seq<nat>)
    requires ns != [] && GapsSmall(ns)
    ensures Records(History(ns), ns[|ns| - 1], Members(ns))
    decreases |ns|
  {
    hide Records, Heard, Members, LostBeacons;
    var m := |ns| - 1;
    var s := ns[..m];
    MembersStep(ns);
    if m == 0 {
      FirstRecorded(ns[0]);
      NoMembers();
      assert Members(ns) == {ns[0]};
    } else {
      HistoryRecords(s);
      SequenceGap(ns[m - 1], ns[m]);
      LastIsLargest(s);
      MembersStep(s);
      NextRecorded(History(s), s[m - 1], Members(s), ns[m] - ns[m - 1]);
    }
  }

  lemma NoMembers()
    ensures Members([]) == {}
  {
  }

  lemma SequenceGap(a: nat, b: nat)
    requires 0 <= b - a <= 31
    ensures LostBeacons(b % 0x1_0000, a % 0x1_0000) == b - a
  {
    var qa, qb := a / 0x1_0000, b / 0x1_0000;
    assert b % 0x1_0000 - a % 0x1_0000 == b - a - 0x1_0000 * (qb - qa);
    assert b % 0x1_0000 - a % 0x1_0000 == (b - a) + 256 * (256 * (qa - qb));
    ModuloShift(b - a, 256 * (qa - qb));
  }

  lemma ModuloShift(x: nat, q: int)
    requires x < 256
    ensures (x + 256 * q) % 256 == x
  {
  }

  // ---------------------------------------------------------------------
  // updateActive

  /** `beaconHist > 0xFFF00000` (src/awds/NodeDescr.h:45). */
  predicate Last12Received(hist: nat) { hist > 0xFFF0_0000 }

  /** The upper twelve and the lower twenty bits of a history. */
  lemma HistoryParts(hist: nat, last: int, received: set<int>)
    requires Records(hist, last, received)
    ensures hist / 0x10_0000 == 0xFFF <==> forall k :: 0 <= k < 12 ==> Came(received, last, k)
    ensures hist % 0x10_0000 > 0 <==> exists k :: 12 <= k < 32 && Came(received, last, k)
  {
    hide Pow2, Bit;
    PowerValues();
    var high, low := hist / 0x10_0000, hist % 0x10_0000;
    AllOnes(high, 12);
    SomeOne(low, 20);
    forall i: nat | i < 12 ensures Bit(high, i) <==> last - (11 - i) in received {
      BitShift(hist, 20, i);
      assert Bit(hist, 20 + i) <==> last - (31 - (20 + i)) in received;
    }
    forall i: nat | i < 20 ensures Bit(low, i) <==> last - (31 - i) in received {
      BitOfLow(hist, 20, i);
      assert Bit(hist, i) <==> last - (31 - i) in received;
    }
    Twelve(high, last, received);
    Twenty(low, last, received);
  }

  /** The test asks for the last 12 beacons and for one of the 20 before them. */
  lemma ActivationExact(hist: nat, last: int, received: set<int>)
    requires Records(hist, last, received)
    ensures Last12Received(hist) <==>
            (forall k :: 0 <= k < 12 ==> Came(received, last, k)) &&
              (exists k :: 12 <= k < 32 && Came(received, last, k))
  {
    hide Bit, Came;
    HistoryParts(hist, last, received);
  }

  /** `k` beacons without loss. */
  function Consecutive(n: nat, k: nat): (ns: seq<nat>)
    ensures |ns| == k && GapsSmall(ns)
  {
    seq(k, i requires 0 <= i < k => n + i)
  }

  lemma ConsecutiveCame(n: nat, k: nat, age: nat)
    requires k >= 1
    ensures Came(Members(Consecutive(n, k)), n + k - 1, age) <==> age < k
  {
    var ns := Consecutive(n, k);
    if age < k { assert ns[k - 1 - age] in ns; }
  }

  /** A new neighbour that is heard without loss becomes active with its
      thirteenth beacon, not with its twelfth. */
  lemma ActiveFromThirteenth(n: nat, k: nat)
    requires k >= 1
    ensures Last12Received(History(Consecutive(n, k))) <==> k >= 13
  {
    hide Came, Members, Last12Received, History, Records;
    var ns := Consecutive(n, k);
    var received, last := Members(ns), n + k - 1;
    HistoryRecords(ns);
    ActivationExact(History(ns), last, received);
    forall age: nat ensures Came(received, last, age) <==> age < k { ConsecutiveCame(n, k, age); }
    if k >= 13 {
      assert Came(received, last, 12);
    } else if k < 12 {
      assert !Came(received, last, k);
    }
  }

  /** After its first twelve beacons the history is exactly the bound of the test. */
  lemma TwelveDoNotActivate(n: nat)
    ensures History(Consecutive(n, 12)) == 0xFFF0_0000 && !Last12Received(History(Consecutive(n, 12)))
  {
    hide Came, Members, History, Bit;
    var ns := Consecutive(n, 12);
    HistoryRecords(ns);
    var received, last := Members(ns), n + 11;
    HistoryParts(History(ns), last, received);
    forall age: nat ensures Came(received, last, age) <==> age < 12 { ConsecutiveCame(n, 12, age); }
  }

  lemma Twelve(high: nat, last: int, received: set<int>)
    requires forall i: nat | i < 12 :: Bit(high, i) <==> last - (11 - i) in received
    ensures (forall i: nat :: i < 12 ==> Bit(high, i)) <==> (forall k :: 0 <= k < 12 ==> Came(received, last, k))
  {
    hide Bit;
    if forall i: nat :: i < 12 ==> Bit(high, i) {
      forall k | 0 <= k < 12 ensures Came(received, last, k) {
        var i: nat := 11 - k;
        assert Bit(high, i) && last - (11 - i) == last - k;
      }
    }
    if forall k :: 0 <= k < 12 ==> Came(received, last, k) {
      forall i: nat | i < 12 ensures Bit(high, i) {
        var k := 11 - i;
        assert Came(received, last, k);
      }
    }
  }

  lemma Twenty(low: nat, last: int, received: set<int>)
    requires forall i: nat | i < 20 :: Bit(low, i) <==> last - (31 - i) in received
    ensures (exists i: nat :: i < 20 && Bit(low, i)) <==> (exists k :: 12 <= k < 32 && Came(received, last, k))
  {
    hide Bit;
    if i: nat :| i < 20 && Bit(low, i) {
      var k := 31 - i;
      assert 12 <= k < 32 && Came(received, last, k);
    }
    if k :| 12 <= k < 32 && Came(received, last, k) {
      var i: nat := 31 - k;
      assert i < 20 && last - (31 - i) == last - k;
      assert Bit(low, i);
    }
  }

  lemma {:induction false} AllOnes(x: nat, n: nat)
    requires x < Pow2(n)
    ensures x == Pow2(n) - 1 <==> forall i: nat :: i < n ==> Bit(x, i)
  {
    if n > 0 {
      hide Bit;
      AllOnes(x / 2, n - 1);
      OddBit(x);
      forall i: nat | i < n - 1 ensures Bit(x, i + 1) == Bit(x / 2, i) { BitHalf(x, i); }
      if x / 2 == Pow2(n - 1) - 1 && x % 2 == 1 {
        forall i: nat | i < n ensures Bit(x, i) {
          if i > 0 { assert Bit(x / 2, i - 1); assert Bit(x, (i - 1) + 1); }
        }
      } else if x % 2 == 1 {
        var i: nat :| i < n - 1 && !Bit(x / 2, i);
        assert !Bit(x, i + 1);
      } else {
        assert !Bit(x, 0);
      }
    }
  }

  lemma OddBit(x: nat)
    ensures Bit(x, 0) <==> x % 2 == 1
  {
    assert Pow2(0) == 1;
  }

  lemma {:induction false} SomeOne(x: nat, n: nat)
    requires x < Pow2(n)
    ensures x > 0 <==> exists i: nat :: i < n && Bit(x, i)
  {
    if n > 0 {
      hide Bit;
      SomeOne(x / 2, n - 1);
      OddBit(x);
      forall i: nat | i < n - 1 ensures Bit(x, i + 1) == Bit(x / 2, i) { BitHalf(x, i); }
      if x % 2 == 1 {
        assert Bit(x, 0);
      } else if x > 0 {
        var i: nat :| i < n - 1 && Bit(x / 2, i);
        assert Bit(x, i + 1);
      } else {
        forall i: nat | i < n ensures !Bit(x, i) { ZeroBit(i); }
      }
    }
  }

  lemma {:induction false} BitOfLow(x: nat, n: nat, i: nat)
    requires i < n
    ensures Bit(x % Pow2(n), i) == Bit(x, i)
  {
    hide Bit;
    var h := Pow2(n - 1);
    var y := x % (2 * h);
    LowHalf(x, h);
    if i == 0 {
      OddBit(x);
      OddBit(y);
    } else {
      BitHalf(x, i - 1);
      BitHalf(y, i - 1);
      BitOfLow(x / 2, n - 1, i - 1);
    }
  }

  lemma LowHalf(x: nat, h: nat)
    requires h > 0
    ensures x % (2 * h) % 2 == x % 2 && x % (2 * h) / 2 == x / 2 % h
  {
    var half, low := Parts(x, 2);
    var q, r := Parts(half, h);
    DoubleProduct(h, q);
    Quotient(x, 2 * h, q, 2 * r + low);
    LowAndHigh(low, r);
  }

  // ---------------------------------------------------------------------
  // quality

  function Popcount(x: nat): nat {
    if x == 0 then 0 else x % 2 + Popcount(x / 2)
  }

  lemma {:induction false} AndSame(x: nat)
    ensures And(x, x) == x
  {
    hide And;
    if x > 0 {
      AndUnfold(x, x);
      AndSame(x / 2);
      BitSquare(x % 2);
    } else {
      AndZero(0);
    }
  }

  lemma BitSquare(b: nat)
    requires b < 2
    ensures b * b == b
  {
  }

  /** `x & (x - 1)` clears exactly one bit. */
  lemma {:induction false} ClearsOne(x: nat)
    requires x > 0
    ensures And(x, x - 1) < x && Popcount(And(x, x - 1)) == Popcount(x) - 1
  {
    hide And, Popcount;
    AndUnfold(x, x - 1);
    PopcountUnfold(x);
    var h := x / 2;
    if x % 2 == 1 {
      AndSame(h);
      LowAndHigh(0, h);
      PopcountUnfold(2 * h);
    } else {
      assert (x - 1) / 2 == h - 1;
      ClearsOne(h);
      LowAndHigh(0, And(h, h - 1));
      PopcountUnfold(And(x, x - 1));
    }
  }

  /** NodeDescr::quality. */
  method Quality(hist: nat) returns (n: nat)
    requires 0 < hist < WORD_RANGE
    ensures n == Popcount(hist)
  {
    hide And, Popcount;
    var x := hist;
    n := 1;
    ClearsOne(x);
    x := And(x, x - 1);
    while x != 0
      invariant Popcount(hist) == n + Popcount(x)
    {
      n := n + 1;
      ClearsOne(x);
      x := And(x, x - 1);
    }
    assert Popcount(0) == 0 by { NoBits(); }
  }

  lemma NoBits()
    ensures Popcount(0) == 0
  {
  }

  lemma {:induction false} PopcountSplit(a: nat, b: nat, n: nat)
    requires a < Pow2(n)
    ensures Popcount(a + Pow2(n) * b) == Popcount(a) + Popcount(b)
  {
    if n > 0 {
      var h := Pow2(n - 1);
      assert Pow2(n) == 2 * h;
      hide *;
      HalfSplit(a, b, Pow2(n), h);
      HalfBelow(a, h);
      PopcountSplit(a / 2, b, n - 1);
      Product(Pow2(n), b);
      PopcountStep(a, b, a + Pow2(n) * b);
    } else {
      hide *;
      NoBits();
      assert Pow2(0) == 1;
    }
  }

  lemma Product(a: nat, b: nat)
    ensures a * b >= 0
  {
  }

  lemma PopcountStep(a: nat, b: nat, x: nat)
    requires x % 2 == a % 2 && Popcount(x / 2) == Popcount(a / 2) + Popcount(b)
    ensures Popcount(x) == Popcount(a) + Popcount(b)
  {
    hide Popcount;
    PopcountUnfold(x);
    PopcountUnfold(a);
  }

  lemma HalfBelow(a: nat, h: nat)
    requires a < 2 * h
    ensures a / 2 < h
  {
  }

  /** A history has between 1 and 32 bits set. */
  lemma {:induction false} PopcountRange(x: nat, n: nat)
    requires x < Pow2(n)
    ensures Popcount(x) <= n && (x > 0 ==> Popcount(x) >= 1)
  {
    if n > 0 && x > 0 {
      hide Popcount;
      HalfBelow(x, Pow2(n - 1));
      PopcountUnfold(x);
      PopcountRange(x / 2, n - 1);
    }
  }

  lemma PopcountUnfold(x: nat)
    ensures Popcount(x) == x % 2 + Popcount(x / 2)
  {
  }

  /** The members of `received` in a window of `m` numbers from `c`. */
  ghost function Window(received: set<int>, c: int, m: nat): set<int> {
    set n | n in received && c <= n < c + m
  }

  lemma {:induction false} CountWindow(x: nat, m: nat, c: int, received: set<int>)
    requires x < Pow2(m) && forall i: nat | i < m :: Bit(x, i) <==> c + i in received
    ensures Popcount(x) == |Window(received, c, m)|
  {
    hide Bit, Popcount;
    if m == 0 {
      NoBits();
      assert Window(received, c, 0) == {};
    } else {
      var h := Pow2(m - 1);
      var low := x % h;
      forall i: nat | i < m - 1 ensures Bit(low, i) <==> c + i in received { BitOfLow(x, m - 1, i); }
      CountWindow(low, m - 1, c, received);
      TopBit(x, m - 1);
      PopcountSplit(low, x / h, m - 1);
      assert x == low + h * (x / h);
      var top := c + (m - 1);
      assert Bit(x, m - 1) <==> top in received;
      if Bit(x, m - 1) {
        PopcountUnfold(1);
        NoBits();
        assert Window(received, c, m) == Window(received, c, m - 1) + {top};
      } else {
        NoBits();
        assert Window(received, c, m) == Window(received, c, m - 1);
      }
    }
  }

  lemma TopBit(x: nat, n: nat)
    requires x < Pow2(n + 1)
    ensures x / Pow2(n) == if Bit(x, n) then 1 else 0
  {
    Quarter(x, Pow2(n));
  }

  lemma Quarter(x: nat, h: nat)
    requires x < 2 * h
    ensures x / h <= 1
  {
  }

  /** The quality is the number of beacons received among the last 32. */
  lemma QualityCounts(hist: nat, last: int, received: set<int>)
    requires Records(hist, last, received)
    ensures Popcount(hist) == |Window(received, last - 31, 32)|
    ensures last in received ==> 1 <= Popcount(hist) <= 32
  {
    hide Bit, Pow2, Popcount;
    PowerValues();
    forall i: nat | i < 32 ensures Bit(hist, i) <==> last - 31 + i in received {
      assert Bit(hist, i) <==> last - (31 - i) in received;
    }
    CountWindow(hist, 32, last - 31, received);
    var w := Window(received, last - 31, 32);
    if last in received { assert last in w; }
    WindowSize(received, last - 31, 32);
  }

  lemma {:induction false} WindowSize(received: set<int>, c: int, m: nat)
    ensures |Window(received, c, m)| <= m
  {
    if m == 0 {
      assert Window(received, c, 0) == {};
    } else {
      WindowSize(received, c, m - 1);
      var top := c + (m - 1);
      assert Window(received, c, m) == Window(received, c, m - 1) + if top in received then {top} else {};
    }
  }

  // ---------------------------------------------------------------------
  // ETX

  const MAX_QUALITY: nat := 0xFFFF
  const WEIGHT_LIMIT: nat := 4194303

  /** EtxMetric::my_get_quality from a bit count. */
  function EtxQuality(count: nat): nat
    requires count <= 32
  {
    (32 - count) * 2047
  }

  /** Metric::get_quality. */
  function Clamped(q: nat): nat {
    var low := if MAX_QUALITY < q then MAX_QUALITY else q;
    if low < 1 then 1 else low
  }

  /** EtxMetric::my_calculate, when it does not divide by zero. */
  function EtxWeight(forward: nat, backward: nat): nat
    requires EtxDefined(forward, backward)
  {
    var f, b := 32 - forward / 2047, 32 - backward / 2047;
    ProductRange(f, b);
    QuotientRange(f * b);
    2097152 / (f * b)
  }

  predicate EtxDefined(forward: nat, backward: nat) {
    forward / 2047 < 32 && backward / 2047 < 32
  }

  /** Metric::calculate on the two qualities of a link. */
  function Weight(forward: nat, backward: nat): nat
    requires EtxDefined(forward, backward)
  {
    var mw := EtxWeight(forward, backward);
    if WEIGHT_LIMIT < mw then WEIGHT_LIMIT else mw
  }

  /** floor(2^21 / (a * b)) */
  function ScaledReciprocal(a: nat, b: nat): nat
    requires 1 <= a <= 32 && 1 <= b <= 32
  {
    ProductRange(a, b);
    QuotientRange(a * b);
    2097152 / (a * b)
  }

  /** With `a` and `b` beacons counted at the two ends, the weight is the scaled
      reciprocal of the product of both delivery ratios; nothing is clamped and
      the wire value fits 16 bits and is never zero. */
  lemma EtxExact(a: nat, b: nat)
    requires 1 <= a <= 32 && 1 <= b <= 32
    ensures var f, g := Clamped(EtxQuality(a)), Clamped(EtxQuality(b));
      && 0 < f <= MAX_QUALITY && 0 < g <= MAX_QUALITY
      && EtxDefined(f, g) && Weight(f, g) == ScaledReciprocal(a, b) && 2048 <= Weight(f, g) <= 2097152
  {
    QualityReadBack(a);
    QualityReadBack(b);
    ProductRange(a, b);
    QuotientRange(a * b);
  }

  lemma QualityReadBack(a: nat)
    requires 1 <= a <= 32
    ensures 32 - Clamped(EtxQuality(a)) / 2047 == a && 0 < Clamped(EtxQuality(a)) <= MAX_QUALITY
  {
  }

  lemma ProductRange(a: nat, b: nat)
    requires 1 <= a <= 32 && 1 <= b <= 32
    ensures 1 <= a * b <= 1024
  {
    Monotone(b, 1, a);
    Monotone(b, a, 32);
  }

  lemma QuotientRange(d: nat)
    requires 1 <= d <= 1024
    ensures 2048 <= 2097152 / d <= 2097152
  {
    var q := 2097152 / d;
    assert q * d <= 2097152 < (q + 1) * d;
    if q < 2048 {
      Monotone(d, q + 1, 2048);
      assert false;
    }
    Monotone(q, 1, d);
  }

  lemma Monotone(a: nat, b: nat, c: nat)
    requires b <= c
    ensures b * a <= c * a && a * b <= a * c
  {
  }

  /** How many of the last 32 beacons of a run were received. */
  ghost function ReceivedOf32(ns: seq<nat>): nat
    requires ns != []
  {
    var last: int := ns[|ns| - 1];
    |Window(Members(ns), last - 31, 32)|
  }

  /** From beacons to the weight: for any beacons received at the two ends of a
      link, with gaps up to 31, the weight is 2^21 divided by the product of the
      numbers received among the last 32. */
  lemma EtxOfBeacons(ns: seq<nat>, ms: seq<nat>)
    requires ns != [] && ms != [] && GapsSmall(ns) && GapsSmall(ms)
    ensures var a, b := Popcount(History(ns)), Popcount(History(ms));
      && a == ReceivedOf32(ns) && b == ReceivedOf32(ms) && 1 <= a <= 32 && 1 <= b <= 32
      && EtxDefined(Clamped(EtxQuality(a)), Clamped(EtxQuality(b)))
      && Weight(Clamped(EtxQuality(a)), Clamped(EtxQuality(b))) == ScaledReciprocal(a, b)
  {
    hide Popcount, History, Records, Members, Window, GapsSmall, Weight, ScaledReciprocal, EtxQuality, Clamped;
    hide EtxDefined;
    HistoryRecords(ns);
    HistoryRecords(ms);
    MembersStep(ns);
    MembersStep(ms);
    QualityCounts(History(ns), ns[|ns| - 1], Members(ns));
    QualityCounts(History(ms), ms[|ms| - 1], Members(ms));
    EtxExact(Popcount(History(ns)), Popcount(History(ms)));
  }

  /** Received qualities from 65504 on make the divisor zero. */
  lemma EtxDefinedExactly(forward: nat, backward: nat)
    requires forward <= MAX_QUALITY && backward <= MAX_QUALITY
    ensures EtxDefined(forward, backward) <==> forward < 65504 && backward < 65504
    ensures EtxDefined(forward, backward) ==> 2048 <= Weight(forward, backward) <= 2097152
  {
    if EtxDefined(forward, backward) {
      ProductRange(32 - forward / 2047, 32 - backward / 2047);
      QuotientRange((32 - forward / 2047) * (32 - backward / 2047));
    }
  }
}
