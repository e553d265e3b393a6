/** src/sqrt_int.c and the adaptive topology period of src/AwdsRouting.cc. */
module Periods {
  import opened Bits

  /** Halleck's method on a `long` of `width` bits. */
  method Isqrt(x: int, width: nat) returns (root: nat)
    requires width >= 2 && width % 2 == 0 && x < Pow2(width - 1)
    ensures x < 1 ==> root == 0
    ensures x >= 1 ==> root * root <= x < (root + 1) * (root + 1)
  {
    hide *;
    if x < 1 { return 0; }
    var squaredbit := HighestEvenBit(width);
    var remainder: nat := x;
    root := 0;
    // The part `r` of the answer found so far is a multiple of 2^k.
    ghost var k: nat, high: nat, r: nat := width / 2, 0, 0;
    Begins(x, width / 2);
    while squaredbit > 0
      invariant squaredbit == (if k == 0 then 0 else Pow2(2 * k - 2))
      invariant r == high * Pow2(k) && Partial(x, r, Pow2(k), root, remainder)
      decreases squaredbit
    {
      TrialBits(k, high, root) by { RootOf(x, r, Pow2(k), root, remainder); }
      root, remainder, high, r := FormBit(x, squaredbit, root, remainder, k, high, r);
      squaredbit := squaredbit / 4;
      k := k - 1;
    }
    Finished(x, r, root, remainder);
  }

  lemma Begins(x: nat, h: nat)
    requires h >= 1 && x < Pow2(2 * h - 1)
    ensures 0 == 0 * Pow2(h) && Partial(x, 0, Pow2(h), 0, x) && Pow2(2 * h - 2) > 0
  {
    HalfPower(h);
  }

  lemma Finished(x: int, r: nat, root: nat, remainder: nat)
    requires Partial(x, r, Pow2(0), root, remainder)
    ensures root * root <= x < (root + 1) * (root + 1)
  {
    assert Pow2(0) == 1;
  }

  /** One bit of the answer (src/sqrt_int.c:24-31). */
  method FormBit(ghost x: int, squaredbit: nat, root: nat, remainder: nat, ghost k: nat, ghost high: nat, ghost r: nat)
    returns (root': nat, remainder': nat, ghost high': nat, ghost r': nat)
    requires k >= 1 && r == high * Pow2(k) && Partial(x, r, Pow2(k), root, remainder) && Pow2(k) == 2 * Pow2(k - 1)
    requires squaredbit == Pow2(k - 1) * Pow2(k - 1)
    requires Or(squaredbit, root) == squaredbit + root && Or(root / 2, squaredbit) == root / 2 + squaredbit
    ensures r' == high' * Pow2(k - 1) && Partial(x, r', Pow2(k - 1), root', remainder')
  {
    hide Pow2, Partial, Or;
    ghost var u := Pow2(k - 1);
    Multiples(high, u);
    var trial := Or(squaredbit, root);
    if remainder >= trial {
      TakeBit(x, r, u, root, remainder);
      remainder' := remainder - trial;
      root' := root / 2;
      root' := Or(root', squaredbit);
      high', r' := 2 * high + 1, r + u;
    } else {
      KeepBit(x, r, u, root, remainder);
      root', remainder' := root / 2, remainder;
      high', r' := 2 * high, r;
    }
  }

  /** With `unit` to go, `r` is the largest multiple of it whose square is at most
      x; `root` holds it shifted, which still fits. */
  ghost predicate Partial(x: int, r: nat, unit: nat, root: nat, remainder: nat) {
    && root == r * unit && root <= x
    && remainder + r * r == x && x < (r + unit) * (r + unit)
  }

  /** `(~0 >> 1) & ~(~0 >> 2)`. */
  method HighestEvenBit(width: nat) returns (b: nat)
    requires width >= 2
    ensures b == Pow2(width - 2)
  {
    hide And;
    var ones := Pow2(width) - 1;
    b := And(ones / 2, ones - ones / 4);
    ghost var t := Pow2(width - 2);
    assert Pow2(width) == 4 * t;
    AndSplit(t - 1, 0, 1, 3, width - 2);
    AndZero(t - 1);
    OneAndThree();
  }

  lemma OneAndThree()
    ensures And(1, 3) == 1
  {
    assert And(0, 1) == 0;
  }

  lemma HalfPower(h: nat)
    requires h >= 1
    ensures Pow2(2 * h - 1) <= Pow2(h) * Pow2(h)
    ensures h >= 1 ==> Pow2(2 * h - 2) == Pow2(h - 1) * Pow2(h - 1)
  {
    SquarePower(h);
    SquarePower(h - 1);
    assert Pow2(2 * h) == 2 * Pow2(2 * h - 1);
  }

  lemma {:induction false} SquarePower(h: nat)
    ensures Pow2(2 * h) == Pow2(h) * Pow2(h)
  {
    if h > 0 {
      SquarePower(h - 1);
      assert Pow2(2 * h) == 4 * Pow2(2 * (h - 1));
      var a := Pow2(h - 1);
      assert (2 * a) * (2 * a) == 4 * (a * a);
    }
  }

  lemma {:induction false} OrCommutes(a: nat, b: nat)
    ensures Or(a, b) == Or(b, a)
    decreases a + b
  {
    if a != 0 || b != 0 { OrCommutes(a / 2, b / 2); }
  }

  /** Or works as addition on the partial results. */
  lemma TrialBits(k: nat, high: nat, root: nat)
    requires k >= 1 && root == high * Pow2(k) * Pow2(k)
    ensures var s := Pow2(2 * k - 2);
      && Or(s, root) == s + root && Or(root / 2, s) == root / 2 + s
      && s == Pow2(k - 1) * Pow2(k - 1) && s / 4 == (if k == 1 then 0 else Pow2(2 * (k - 1) - 2))
    ensures Pow2(k) == 2 * Pow2(k - 1)
  {
    hide Or;
    var s := Pow2(2 * k - 2);
    HalfPower(k);
    SquarePower(k);
    SmallStep(k);
    Rearrange(high, Pow2(k));
    OrDisjoint(s, high, 2 * k);
    OrDisjoint(s, high, 2 * k - 1);
    assert root == 2 * (2 * s * high);
    OrCommutes(s, 2 * s * high);
  }

  lemma Rearrange(a: nat, b: nat)
    ensures a * b * b == (b * b) * a
  {
  }

  lemma SmallStep(k: nat)
    requires k >= 1
    ensures Pow2(2 * k) == 4 * Pow2(2 * k - 2) && Pow2(2 * k - 1) == 2 * Pow2(2 * k - 2)
    ensures Pow2(2 * k - 2) / 4 == (if k == 1 then 0 else Pow2(2 * (k - 1) - 2))
  {
    if k > 1 {
      assert Pow2(2 * k - 2) == 4 * Pow2(2 * k - 4);
    }
  }

  lemma TakeBit(x: int, r: nat, u: nat, root: nat, remainder: nat)
    requires Partial(x, r, 2 * u, root, remainder) && remainder >= u * u + root
    ensures Partial(x, r + u, u, root / 2 + u * u, remainder - (u * u + root))
  {
    var ru := r * u;
    assert r * (2 * u) == 2 * ru;
    assert (r + u) * u == ru + u * u;
    assert (r + u) * (r + u) == r * r + 2 * ru + u * u;
    assert r + u + u == r + 2 * u;
  }

  lemma Multiples(h: nat, u: nat)
    ensures (2 * h + 1) * u == h * (2 * u) + u && (2 * h) * u == h * (2 * u)
  {
  }

  lemma RootOf(x: int, r: nat, unit: nat, root: nat, remainder: nat)
    requires Partial(x, r, unit, root, remainder)
    ensures root == r * unit
  {
  }

  lemma KeepBit(x: int, r: nat, u: nat, root: nat, remainder: nat)
    requires Partial(x, r, 2 * u, root, remainder) && remainder < u * u + root
    ensures Partial(x, r, u, root / 2, remainder)
  {
    var ru := r * u;
    assert r * (2 * u) == 2 * ru;
    assert (r + u) * (r + u) == r * r + 2 * ru + u * u;
  }

  // ---------------------------------------------------------------------
  // The period

  /** The integer square root. */
  function Root(x: nat): (r: nat)
    ensures r * r <= x < (r + 1) * (r + 1)
  {
    if x == 0 then 0
    else
      var r := Root(x - 1);
      if (r + 1) * (r + 1) <= x then NextSquare(r); r + 1 else r
  }

  lemma NextSquare(r: nat)
    ensures (r + 1) * (r + 1) + 1 <= (r + 2) * (r + 2)
  {
  }

  lemma RootUnique(x: nat, r: nat)
    requires r * r <= x < (r + 1) * (r + 1)
    ensures Root(x) == r
  {
    var q := Root(x);
    if q < r {
      SquareMonotone(q + 1, r);
      assert false;
    } else if r < q {
      SquareMonotone(r + 1, q);
      assert false;
    }
  }

  /** The period of a network of `n` nodes, in milliseconds. */
  function Period(n: nat): (p: nat)
    requires n >= 1
  {
    RootRange(n, Root(16 * n));
    QuotientNatural(800 * (n * n), Root(16 * n));
    800 * (n * n) / Root(16 * n)
  }

  function Min(a: nat, b: nat): nat { if b < a then b else a }

  /** A `long` stored in a 32-bit `int`. */
  function ToInt(n: int): int { (n + 0x8000_0000) % 0x1_0000_0000 - 0x8000_0000 }

  /** The adaptive period and the validity field (src/AwdsRouting.cc:124-133):
      the new period depends on the number of nodes alone. */
  method AdaptivePeriod(n: nat, width: nat) returns (topoPeriod: int, validity: nat)
    requires n >= 1 && width >= 8 && width % 2 == 0 && 800 * (n * n) < Pow2(width - 1)
    ensures topoPeriod == ToInt(Period(n)) && validity == 3 * topoPeriod % 0x1_0000_0000
    ensures topoPeriod == Period(n) <==> n < 48658
    ensures validity == 3 * Period(n) < 0x8000_0000 <==> n < 23382
    ensures n < 48658 ==> validity > 0
  {
    hide Pow2, Root, Period, ToInt;
    var newPeriod := NewPeriod(n, width);
    topoPeriod := ToInt(newPeriod);
    validity := 3 * topoPeriod % 0x1_0000_0000;
    PeriodKept(n);
  }

  lemma PeriodKept(n: nat)
    requires n >= 1
    ensures var topoPeriod := ToInt(Period(n)); var validity := 3 * topoPeriod % 0x1_0000_0000;
      && (topoPeriod == Period(n) <==> n < 48658)
      && (validity == 3 * Period(n) < 0x8000_0000 <==> n < 23382)
      && (n < 48658 ==> validity > 0)
  {
    hide Root, Period, ToInt;
    PeriodBounds(n);
    Stored(Period(n));
    PeriodFitsExactly(n);
    ValidityFitsExactly(n);
  }

  /** The quotient, and a maximum that never takes effect. */
  method NewPeriod(n: nat, width: nat) returns (newPeriod: nat)
    requires n >= 1 && width >= 8 && width % 2 == 0 && 800 * (n * n) < Pow2(width - 1)
    ensures newPeriod == Period(n)
  {
    hide Pow2, Root, Period;
    Products(n);
    var root := Isqrt(n * 16, width);
    RootRange(n, root);
    PeriodOf(n, root);
    newPeriod := 200 * n * n * 4 / root;
    var maxNewPeriod := newPeriod + newPeriod / 5;
    newPeriod := Min(newPeriod, maxNewPeriod);
  }

  lemma PeriodOf(n: nat, root: nat)
    requires n >= 1 && root * root <= 16 * n < (root + 1) * (root + 1)
    ensures root > 0 && Period(n) == 800 * (n * n) / root
  {
    hide Root;
    RootRange(n, root);
    RootUnique(16 * n, root);
  }

  /** The facts about a period that name no quotient. */
  lemma PeriodFacts(n: nat) returns (r: nat)
    requires n >= 1
    ensures r >= 4 && r * r <= 16 * n < (r + 1) * (r + 1) && r == Root(16 * n)
    ensures Period(n) * r <= 800 * (n * n) < Period(n) * r + r
  {
    hide Root;
    r := Root(16 * n);
    RootRange(n, r);
    Division(800 * (n * n), r, Period(n));
    AddOnce(Period(n), r);
  }

  lemma AddOnce(a: nat, b: nat)
    ensures (a + 1) * b == a * b + b
  {
  }

  lemma Stored(p: nat)
    requires p > 0
    ensures ToInt(p) == p <==> p < 0x8000_0000
    ensures 3 * ToInt(p) % 0x1_0000_0000 == 3 * p % 0x1_0000_0000
    ensures p < 0x8000_0000 ==> 3 * p % 0x1_0000_0000 > 0
  {
    var k := (p + 0x8000_0000) / 0x1_0000_0000;
    assert ToInt(p) == p - 0x1_0000_0000 * k;
    assert 3 * ToInt(p) == 3 * p + 0x1_0000_0000 * (-3 * k);
    WordShift(3 * p, -3 * k);
  }

  lemma WordShift(x: int, k: int)
    ensures (x + 0x1_0000_0000 * k) % 0x1_0000_0000 == x % 0x1_0000_0000
  {
  }

  /** Twice quadratic up to the root: 40000 n^3 < (p + 1)^2 and p^2 < 62500 n^3. */
  lemma PeriodBounds(n: nat)
    requires n >= 1
    ensures 40000 * (n * n * n) < (Period(n) + 1) * (Period(n) + 1)
    ensures Period(n) * Period(n) < 62500 * (n * n * n)
    ensures Period(n) >= 200
  {
    hide Root;
    RootRange(n, Root(16 * n));
    PeriodRange(n, Root(16 * n), Period(n));
    Floor(n, Period(n));
  }

  // ---------------------------------------------------------------------
  // Growth

  /** With one node more the period grows by more than a fifth exactly in these
      networks, although the code means to limit the growth to a fifth. */
  lemma GrowthExact(n: nat)
    requires n >= 1
    ensures 5 * Period(n + 1) > 6 * Period(n) <==> 1 <= n <= 6 || n == 9
  {
    hide *;
    if n >= 11 {
      SlowGrowth(n);
    } else {
      SmallPeriods();
    }
  }

  /** From one node to two the period goes from 200 to 640 milliseconds. */
  lemma FirstGrowth()
    ensures Period(1) == 200 && Period(2) == 640 && Period(2) > Period(1) + Period(1) / 5
  {
    SmallPeriods();
  }

  lemma SmallPeriods()
    ensures Period(1) == 200 && Period(2) == 640 && Period(3) == 1200 && Period(4) == 1600
    ensures Period(5) == 2500 && Period(6) == 3200 && Period(7) == 3920 && Period(8) == 4654
    ensures Period(9) == 5400 && Period(10) == 6666 && Period(11) == 7446
  {
    hide Root;
    RootUnique(16, 4);
    RootUnique(32, 5);
    RootUnique(48, 6);
    RootUnique(64, 8);
    RootUnique(80, 8);
    RootUnique(96, 9);
    RootUnique(112, 10);
    RootUnique(128, 11);
    RootUnique(144, 12);
    RootUnique(160, 12);
    RootUnique(176, 13);
  }

  lemma SlowGrowth(n: nat)
    requires n >= 11
    ensures 5 * Period(n + 1) <= 6 * Period(n)
  {
    hide Period, Root;
    var s := PeriodFacts(n);
    var s' := PeriodFacts(n + 1);
    RootGrows(n);
    Scale(Period(n + 1), s, s');
    RootSmall(n, s);
    Squares(n);
    Growth(s, Period(n), Period(n + 1), 800 * (n * n), 800 * ((n + 1) * (n + 1)));
  }

  lemma Squares(n: nat)
    requires n >= 11
    ensures 800 * ((n + 1) * (n + 1)) == 800 * (n * n) + 1600 * n + 800 && 800 * (n * n) >= 8800 * n
  {
    Scale(n, 11, n);
  }

  lemma Growth(s: nat, p: nat, p': nat, a: nat, a': nat)
    requires s > 0 && a < p * s + s && p' * s <= a' && 5 * a' <= 6 * (a - s)
    ensures 5 * p' <= 6 * p
  {
    if 5 * p' > 6 * p {
      Scale(s, 6 * p + 1, 5 * p');
      Distribute(s, p, p');
      assert false;
    }
  }

  lemma Distribute(s: nat, p: nat, p': nat)
    ensures s * (6 * p + 1) == 6 * (p * s) + s && s * (5 * p') == 5 * (p' * s)
  {
  }

  lemma RootGrows(n: nat)
    ensures Root(16 * n) <= Root(16 * (n + 1))
  {
    var s, s' := Root(16 * n), Root(16 * (n + 1));
    if s' < s {
      SquareMonotone(s' + 1, s);
      assert false;
    }
  }

  lemma RootSmall(n: nat, s: nat)
    requires n >= 1 && s * s <= 16 * n
    ensures s <= 4 * n
  {
    if s > 4 * n {
      SquareMonotone(4 * n + 1, s);
      assert (4 * n + 1) * (4 * n + 1) == 16 * (n * n) + 8 * n + 1;
      Scale(n, 1, n);
      assert false;
    }
  }

  // ---------------------------------------------------------------------
  // Ranges

  /** Below the root `s`, periods stay below 50 (s + 1) (s^2 - 1) / 16. */
  lemma SmallRoot(n: nat, r: nat, s: nat, most: nat)
    requires n >= 1 && r >= 4 && r * r <= 16 * n < (r + 1) * (r + 1) && r < s && 16 * most >= s * s - 16
    ensures n <= most && 16 * n < s * s && 800 * (n * n) <= r * (50 * most * (s + 1))
  {
    SmallRootCount(n, r, s, most);
    SmallRootProduct(n, r, s, most);
  }

  lemma SmallRootCount(n: nat, r: nat, s: nat, most: nat)
    requires r * r <= 16 * n < (r + 1) * (r + 1) && r < s && 16 * most >= s * s - 16
    ensures n <= most && 16 * n < s * s && 16 * n <= r * (r + 2)
  {
    hide *;
    SquareMonotone(r + 1, s);
    NextRoot(r);
  }

  lemma SmallRootProduct(n: nat, r: nat, s: nat, most: nat)
    requires n <= most && r < s && 16 * n <= r * (r + 2)
    ensures 800 * (n * n) <= r * (50 * most * (s + 1))
  {
    hide *;
    var x := 50 * n;
    Scale(x, 16 * n, r * (r + 2));
    EightHundred(n);
    Rotate(x, r, r + 2);
    ScaleBoth(x, r + 2, 50 * most, s + 1);
    Scale(r, x * (r + 2), 50 * most * (s + 1));
  }

  lemma NextRoot(r: nat)
    ensures (r + 1) * (r + 1) == r * (r + 2) + 1
  {
  }

  lemma EightHundred(n: nat)
    ensures 50 * n * (16 * n) == 800 * (n * n)
  {
  }

  lemma Rotate(a: nat, b: nat, c: nat)
    ensures a * (b * c) == b * (a * c)
  {
    Associate(a, b, c);
    Associate(b, a, c);
    assert a * b == b * a;
  }

  lemma ScaleBoth(a: nat, b: nat, c: nat, d: nat)
    requires a <= c && b <= d
    ensures a * b <= c * d
  {
    Scale(a, b, d);
    Scale(d, a, c);
  }

  lemma Associate(a: nat, b: nat, c: nat)
    ensures a * b * c == a * (b * c)
  {
  }

  /** Above it they reach 50 (s + 1) (s + 1)^2 / 16. */
  lemma LargeRoot(n: nat, r: nat, s: nat, least: nat)
    requires r * r <= 16 * n && r > s && 16 * least <= (s + 1) * (s + 1) + 15
    ensures n >= least && 16 * n >= (s + 1) * (s + 1) && 800 * (n * n) >= r * (50 * least * (s + 1))
  {
    hide *;
    SquareMonotone(s + 1, r);
    Scale(50 * n, r * r, 16 * n);
    EightHundred(n);
    Rotate(50 * n, r, r);
    ScaleBoth(50 * least, s + 1, 50 * n, r);
    Scale(r, 50 * least * (s + 1), 50 * n * r);
  }

  /** The period reaches `limit` exactly from `from` nodes on, by facts about the
      root at that point. */
  lemma Crossing(n: nat, from: nat, s: nat, limit: nat, most: nat, least: nat)
    requires n >= 1 && from >= 1 && s >= 4 && s * s <= 16 * from < (s + 1) * (s + 1)
    requires limit * s <= 800 * (from * from) && 800 * ((from - 1) * (from - 1)) < limit * s
    requires s * s - 16 <= 16 * most && 16 * least <= (s + 1) * (s + 1) + 15
    requires 50 * most * (s + 1) < limit <= 50 * least * (s + 1)
    ensures Period(n) >= limit <==> n >= from
  {
    hide *;
    var r := PeriodFacts(n);
    if r < s {
      CrossingBelow(n, r, Period(n), from, s, limit, most);
    } else if r > s {
      CrossingAbove(n, r, Period(n), from, s, limit, least);
    } else {
      CrossingAt(n, Period(n), from, s, limit);
    }
  }

  lemma CrossingBelow(n: nat, r: nat, p: nat, from: nat, s: nat, limit: nat, most: nat)
    requires n >= 1 && 4 <= r < s && r * r <= 16 * n < (r + 1) * (r + 1) && p * r <= 800 * (n * n)
    requires s * s <= 16 * from && s * s - 16 <= 16 * most && 50 * most * (s + 1) < limit
    ensures p < limit && n < from
  {
    SmallRoot(n, r, s, most);
    AtMost(r, p, 50 * most * (s + 1));
  }

  lemma CrossingAbove(n: nat, r: nat, p: nat, from: nat, s: nat, limit: nat, least: nat)
    requires r * r <= 16 * n && r > s && 800 * (n * n) < p * r + r
    requires 16 * from < (s + 1) * (s + 1) && 16 * least <= (s + 1) * (s + 1) + 15 && limit <= 50 * least * (s + 1)
    ensures p >= limit && n >= from
  {
    LargeRoot(n, r, s, least);
    AtLeast(r, p, 50 * least * (s + 1));
  }

  lemma CrossingAt(n: nat, p: nat, from: nat, s: nat, limit: nat)
    requires s > 0 && from >= 1 && p * s <= 800 * (n * n) < p * s + s
    requires limit * s <= 800 * (from * from) && 800 * ((from - 1) * (from - 1)) < limit * s
    ensures p >= limit <==> n >= from
  {
    if n >= from {
      SquareMonotone(from, n);
      AtLeast(s, p, limit);
    } else {
      SquareMonotone(n, from - 1);
      Below(s, p, limit);
    }
  }

  lemma AtMost(d: nat, p: nat, q: nat)
    requires d > 0 && p * d <= d * q
    ensures p <= q
  {
    if p > q {
      Scale(d, q + 1, p);
      AddOnce(q, d);
      assert false;
    }
  }

  lemma AtLeast(d: nat, p: nat, q: nat)
    requires d > 0 && d * q < p * d + d
    ensures p >= q
  {
    if p < q {
      Scale(d, p + 1, q);
      AddOnce(p, d);
      assert false;
    }
  }

  lemma Below(d: nat, p: nat, q: nat)
    requires d > 0 && p * d < q * d
    ensures p < q
  {
    if p >= q {
      Scale(d, q, p);
      assert false;
    }
  }

  /** The period fits the `int` it is stored in exactly below 48658 nodes. */
  lemma PeriodFitsExactly(n: nat)
    requires n >= 1
    ensures Period(n) < 0x8000_0000 <==> n < 48658
  {
    Crossing(n, 48658, 882, 0x8000_0000, 48620, 48731);
  }

  /** The product for the validity field fits an `int` exactly below 23382 nodes. */
  lemma ValidityFitsExactly(n: nat)
    requires n >= 1
    ensures 3 * Period(n) < 0x8000_0000 <==> n < 23382
  {
    Crossing(n, 23382, 611, 715827883, 23332, 23409);
  }

  lemma Products(n: nat)
    requires n >= 1
    ensures 16 * n <= 800 * (n * n) && 200 * n * n * 4 == 800 * (n * n)
  {
    Scale(n, 1, n);
  }

  lemma RootRange(n: nat, root: nat)
    requires n >= 1 && root * root <= 16 * n < (root + 1) * (root + 1)
    ensures root >= 4 && 25 * (root * root) > 256 * n
  {
    if root < 4 {
      SquareMonotone(root + 1, 4);
      assert false;
    }
    assert 5 * root >= 4 * (root + 1);
    var t := root + 1;
    assert (5 * root) * (5 * root) >= (4 * t) * (4 * t) by { SquareMonotone(4 * t, 5 * root); }
    assert (5 * root) * (5 * root) == 25 * (root * root) && (4 * t) * (4 * t) == 16 * (t * t);
  }

  lemma SquareMonotone(a: nat, b: nat)
    requires a <= b
    ensures a * a <= b * b
  {
  }

  lemma PeriodRange(n: nat, root: nat, p: nat)
    requires n >= 1 && root >= 4 && root * root <= 16 * n && 25 * (root * root) > 256 * n
    requires p == 800 * (n * n) / root
    ensures 40000 * (n * n * n) < (p + 1) * (p + 1) && p * p < 62500 * (n * n * n)
  {
    var a := 800 * (n * n);
    Division(a, root, p);
    LowerBound(n, root, p);
    UpperBound(n, root, p);
  }

  lemma Division(a: nat, d: nat, q: nat)
    requires d > 0 && q == a / d
    ensures q * d <= a < (q + 1) * d
  {
    assert a == q * d + a % d;
  }

  lemma FourthPower(n: nat)
    ensures (800 * (n * n)) * (800 * (n * n)) == 640000 * (n * n * n) * n
  {
    var c := n * n;
    assert (800 * c) * (800 * c) == 640000 * (c * c);
    assert c * c == c * n * n;
  }

  lemma LowerBound(n: nat, root: nat, p: nat)
    requires n >= 1 && root * root <= 16 * n && 800 * (n * n) < (p + 1) * root
    ensures 40000 * (n * n * n) < (p + 1) * (p + 1)
  {
    var q, c := p + 1, n * n * n;
    var a := 800 * (n * n);
    FourthPower(n);
    StrictSquare(a, q * root);
    ProductSquare(q, root);
    var qq := q * q;
    assert qq * (root * root) <= qq * (16 * n) by { Scale(qq, root * root, 16 * n); }
    assert 640000 * c * n < qq * (16 * n);
    assert qq * (16 * n) == 16 * qq * n;
    Cancel(640000 * c, 16 * qq, n);
  }

  lemma UpperBound(n: nat, root: nat, p: nat)
    requires n >= 1 && 25 * (root * root) > 256 * n && p * root <= 800 * (n * n)
    ensures p * p < 62500 * (n * n * n)
  {
    hide *;
    FourthPower(n);
    SquareMonotone(p * root, 800 * (n * n));
    ProductSquare(p, root);
    CubePositive(n);
    SquareRatio(p * p, root * root, n * n * n, n);
  }

  lemma SquareRatio(pp: nat, s: nat, c: nat, n: nat)
    requires n >= 1 && c >= 1 && 25 * s > 256 * n && pp * s <= 640000 * c * n
    ensures pp < 62500 * c
  {
    if pp >= 1 {
      ScaleStrict(pp, 256 * n, 25 * s);
      Coefficients(pp, s, c, n);
      Cancel(256 * pp, 16000000 * c, n);
    }
  }

  lemma Coefficients(pp: nat, s: nat, c: nat, n: nat)
    ensures pp * (25 * s) == 25 * (pp * s) && pp * (256 * n) == 256 * pp * n
    ensures 25 * (640000 * c * n) == 16000000 * c * n
  {
  }

  lemma CubePositive(n: nat)
    requires n >= 1
    ensures n * n * n >= 1
  {
    assert n * n >= 1;
  }

  lemma StrictSquare(a: nat, b: nat)
    requires a < b
    ensures a * a < b * b
  {
    assert a * a <= a * b && a * b < b * b;
  }

  lemma ProductSquare(a: nat, b: nat)
    ensures (a * b) * (a * b) == (a * a) * (b * b)
  {
    assert (a * b) * (a * b) == a * (b * (a * b)) == a * (a * (b * b));
  }

  lemma Scale(a: nat, b: nat, c: nat)
    requires b <= c
    ensures a * b <= a * c
  {
  }

  lemma ScaleStrict(a: nat, b: nat, c: nat)
    requires b < c && a >= 1
    ensures a * b < a * c
  {
  }

  lemma Cancel(a: nat, b: nat, n: nat)
    requires a * n < b * n
    ensures a < b
  {
    if b <= a {
      Scale(n, b, a);
      assert false;
    }
  }

  lemma Floor(n: nat, p: nat)
    requires n >= 1 && 40000 * (n * n * n) < (p + 1) * (p + 1)
    ensures p >= 200
  {
    CubePositive(n);
    if p < 200 {
      SquareMonotone(p + 1, 200);
      assert false;
    }
  }
}
