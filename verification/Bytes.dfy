/** Bytes, node identifiers and the big-endian wire format
    (src/awds/toArray.h, src/awds/AbstractId.h). */
module Bytes {

  type byte = x: int | 0 <= x < 256

  /** A 48-bit station address; comparison of addresses is numeric comparison. */
  type NodeId = x: int | 0 <= x < 0x1_0000_0000_0000

  const ID_SIZE: nat := 6

  function Pow256(n: nat): (r: nat)
    ensures r >= 1
  {
    if n == 0 then 1 else 256 * Pow256(n - 1)
  }

  /** The value a most-significant-byte-first sequence stands for. */
  function Value(s: seq<byte>): nat {
    if s == [] then 0 else 256 * Value(s[..|s| - 1]) + s[|s| - 1]
  }

  /** The `n` low-order bytes of `v`, most significant first. */
  function BigEndian(v: nat, n: nat): (s: seq<byte>)
    ensures |s| == n
  {
    if n == 0 then [] else BigEndian(v / 256, n - 1) + [v % 256]
  }

  function IdBytes(id: NodeId): (s: seq<byte>)
    ensures |s| == ID_SIZE
  {
    BigEndian(id, ID_SIZE)
  }

  lemma {:induction false} ValueBound(s: seq<byte>)
    ensures Value(s) < Pow256(|s|)
  {
    if s != [] {
      ValueBound(s[..|s| - 1]);
    }
  }

  /** Writing a value and reading it back gives the value modulo 256^n. */
  lemma {:induction false} ValueOfBigEndian(v: nat, n: nat)
    requires v < Pow256(n)
    ensures Value(BigEndian(v, n)) == v
  {
    if n != 0 {
      var q, s := v / 256, BigEndian(v / 256, n - 1);
      assert BigEndian(v, n) == s + [v % 256] && Pow256(n) == 256 * Pow256(n - 1);
      hide Value, BigEndian, Pow256;
      Digits(v, Pow256(n - 1));
      ValueOfBigEndian(q, n - 1);
      ValueSnoc(s, v % 256);
    }
  }

  lemma Digits(v: nat, p: nat)
    requires v < 256 * p
    ensures v / 256 < p && v == 256 * (v / 256) + v % 256
  {
  }

  lemma ValueSnoc(s: seq<byte>, b: byte)
    ensures Value(s + [b]) == 256 * Value(s) + b
  {
    assert (s + [b])[..|s|] == s;
  }

  lemma {:induction false} BigEndianOfValue(s: seq<byte>)
    ensures BigEndian(Value(s), |s|) == s
  {
    if s != [] {
      BigEndianOfValue(s[..|s| - 1]);
      assert s == s[..|s| - 1] + [s[|s| - 1]];
    }
  }

  lemma Pow256Six()
    ensures Pow256(6) == 0x1_0000_0000_0000
  {
    assert Pow256(3) == 0x100_0000;
    assert Pow256(5) == 0x100_0000_0000;
  }

  function IdOf(s: seq<byte>): (id: NodeId)
    requires |s| == ID_SIZE
  {
    ValueBound(s);
    Pow256Six();
    Value(s)
  }

  /** An address written with toArray is read back by fromArray. */
  lemma IdRoundTrip(id: NodeId)
    ensures IdOf(IdBytes(id)) == id
  {
    Pow256Six();
    ValueOfBigEndian(id, 6);
  }

  lemma IdBytesOfId(s: seq<byte>)
    requires |s| == ID_SIZE
    ensures IdBytes(IdOf(s)) == s
  {
    BigEndianOfValue(s);
  }

  /** The sign of C's memcmp on two byte strings of equal length. */
  function Memcmp(a: seq<byte>, b: seq<byte>): int
    requires |a| == |b|
  {
    if a == [] then 0
    else if a[0] != b[0] then a[0] - b[0]
    else Memcmp(a[1..], b[1..])
  }

  lemma {:induction false} ValueHead(s: seq<byte>)
    requires s != []
    ensures Value(s) == s[0] * Pow256(|s| - 1) + Value(s[1..])
  {
    if |s| == 1 {
      assert s[..0] == [] && s[1..] == [];
    } else {
      hide Value, Pow256;
      var init, x := s[..|s| - 1], s[|s| - 1];
      ValueHead(init);
      ValueHeadStep(init, x);
      assert s == init + [x] && s[1..] == init[1..] + [x];
    }
  }

  lemma ValueHeadStep(s: seq<byte>, x: byte)
    requires s != [] && Value(s) == s[0] * Pow256(|s| - 1) + Value(s[1..])
    ensures Value(s + [x]) == s[0] * Pow256(|s|) + Value(s[1..] + [x])
  {
    assert Pow256(|s|) == 256 * Pow256(|s| - 1);
    hide Value, Pow256;
    ValueSnoc(s, x);
    ValueSnoc(s[1..], x);
    Times256(s[0], Pow256(|s| - 1), Pow256(|s|));
  }

  lemma Times256(a: nat, p: nat, p': nat)
    requires p' == 256 * p
    ensures 256 * (a * p) == a * p'
  {
  }

  /** On big-endian strings of one length memcmp orders as the numbers do. */
  lemma {:induction false} MemcmpIsNumeric(a: seq<byte>, b: seq<byte>)
    requires |a| == |b|
    ensures Memcmp(a, b) < 0 <==> Value(a) < Value(b)
    ensures Memcmp(a, b) == 0 <==> Value(a) == Value(b)
    ensures Memcmp(a, b) == 0 <==> a == b
  {
    if a != [] {
      ValueHead(a);
      ValueHead(b);
      MemcmpIsNumeric(a[1..], b[1..]);
      var p := Pow256(|a| - 1);
      ValueBound(a[1..]);
      ValueBound(b[1..]);
      if a[0] < b[0] {
        DigitDominates(a[0], b[0], p);
      } else if a[0] > b[0] {
        DigitDominates(b[0], a[0], p);
      } else {
        assert a == [a[0]] + a[1..] && b == [b[0]] + b[1..];
      }
    }
  }

  lemma DigitDominates(x: int, y: int, p: nat)
    requires x < y
    ensures x * p + p <= y * p
  {
    var k: nat := y - x - 1;
    calc {
      y * p;
      (x + 1 + k) * p;
      x * p + p + k * p;
    }
  }

  /** The 6 bytes at `off`. */
  function IdAt(b: seq<byte>, off: nat): NodeId
    requires off + ID_SIZE <= |b|
  {
    IdOf(b[off..off + ID_SIZE])
  }

  /** AbstractID<6>::toArray: least significant byte first, from the far end. */
  method StoreBytes(v: nat, a: array<byte>, off: nat, n: nat)
    requires off + n <= a.Length
    modifies a
    ensures a[..] == old(a[..off]) + BigEndian(v, n) + old(a[off + n..])
  {
    var d := v;
    ghost var before := a[..];
    var i := 0;
    assert a[..] == DigitsFrom(before, off, n, BigEndian(v, n), n);
    while i < n
      invariant 0 <= i <= n && BigEndian(v, n)[..n - i] == BigEndian(d, n - i)
      invariant a[..] == DigitsFrom(before, off, n, BigEndian(v, n), n - i)
    {
      hide DigitsFrom, BigEndian;
      DigitsNext(before, off, n, BigEndian(v, n), n - i);
      LastDigit(BigEndian(v, n), d, n - i);
      a[off + n - 1 - i] := d % 256;
      d := d / 256;
      i := i + 1;
    }
  }

  /** `s` with the digits of `v` from position `k` on written at `off`. */
  ghost function DigitsFrom(s: seq<byte>, off: nat, n: nat, v: seq<byte>, k: nat): seq<byte>
    requires off + n <= |s| && |v| == n && k <= n
  {
    s[..off + k] + v[k..] + s[off + n..]
  }

  lemma DigitsNext(s: seq<byte>, off: nat, n: nat, v: seq<byte>, k: nat)
    requires off + n <= |s| && |v| == n && 0 < k <= n
    ensures |DigitsFrom(s, off, n, v, k)| == |s|
    ensures DigitsFrom(s, off, n, v, k - 1) == DigitsFrom(s, off, n, v, k)[off + k - 1 := v[k - 1]]
  {
    assert v[k - 1..] == [v[k - 1]] + v[k..];
    assert s[..off + k] == s[..off + k - 1] + [s[off + k - 1]];
  }

  lemma LastDigit(s: seq<byte>, d: nat, k: nat)
    requires 0 < k <= |s| && s[..k] == BigEndian(d, k)
    ensures s[k - 1] == d % 256 && s[..k - 1] == BigEndian(d / 256, k - 1)
  {
    assert s[k - 1] == s[..k][k - 1] && s[..k - 1] == s[..k][..k - 1];
  }

  /** AbstractID<6>::fromArray and the fromArray template. */
  method LoadBytes(b: seq<byte>, off: nat, n: nat) returns (d: nat)
    requires off + n <= |b|
    ensures d == Value(b[off..off + n])
  {
    d := 0;
    for i := 0 to n
      invariant d == Value(b[off..off + i])
    {
      assert b[off..off + i + 1][..i] == b[off..off + i];
      d := d * 256 + b[off + i];
    }
  }

  method LoadId(b: seq<byte>, off: nat) returns (id: NodeId)
    requires off + ID_SIZE <= |b|
    ensures id == IdAt(b, off)
  {
    var d := LoadBytes(b, off, ID_SIZE);
    assert d == IdOf(b[off..off + ID_SIZE]);
    id := d;
  }
}
