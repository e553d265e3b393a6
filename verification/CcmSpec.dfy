/** Counter with CBC-MAC as RFC 3610 defines it (sections 2.2 to 2.5), for an
    arbitrary 16-byte block function. */
module CcmSpec {
  import opened Bytes
  import Bits

  type Block = b: seq<byte> | |b| == 16 witness seq(16, _ => 0)

  /** The block cipher under one key. */
  type Cipher = Block -> Block

  function Zeros(n: nat): (z: seq<byte>)
    ensures |z| == n
  {
    seq(n, _ => 0)
  }

  /** Exclusive or of two octets. */
  function Xor8(a: byte, b: byte): byte {
    OctetBound(a, b);
    Bits.Xor(a, b)
  }

  lemma OctetBound(a: byte, b: byte)
    ensures Bits.Xor(a, b) < 256
  {
    assert Bits.Pow2(4) == 16 && Bits.Pow2(8) == 256;
    Bits.XorBound(a, b, 8);
  }

  function Xor(a: Block, b: Block): Block {
    seq(16, i requires 0 <= i < 16 => Xor8(a[i], b[i]))
  }

  /** Zero-padded to whole blocks. */
  function Pad(s: seq<byte>): (p: seq<byte>)
    ensures |p| % 16 == 0
  {
    if |s| % 16 == 0 then s else s + Zeros(16 - |s| % 16)
  }

  /** X_{i+1} = E(X_i xor B_i) over the blocks of `s`. */
  function Cbc(E: Cipher, x: Block, s: seq<byte>): Block
    requires |s| % 16 == 0
    decreases |s|
  {
    if s == [] then x else Cbc(E, E(Xor(x, s[..16])), s[16..])
  }

  /** The parameters of one message: cipher, nonce, size of the length field and
      of the authentication field. */
  datatype Params = Params(E: Cipher, nonce: seq<byte>, L: nat, M: nat) {
    predicate Valid() {
      2 <= L <= 4 && |nonce| == 15 - L && 2 <= M <= 16 && M % 2 == 0
    }

    /** Counter block A_i of section 2.3. */
    function Counter(i: nat): Block
      requires Valid()
    {
      [L - 1] + nonce + BigEndian(i, L)
    }

    /** Block B_0 of section 2.2. */
    function FirstBlock(adata: bool, length: nat): Block
      requires Valid()
    {
      [(if adata then 64 else 0) + 8 * ((M - 2) / 2) + (L - 1)] + nonce + BigEndian(length, L)
    }

    /** The authenticated data with its two-octet length. */
    function AuthStream(a: seq<byte>): seq<byte> {
      if a == [] then [] else BigEndian(|a|, 2) + a
    }

    /** CBC state before the message. */
    function AfterAuth(a: seq<byte>, length: nat): Block
      requires Valid()
    {
      Cbc(E, E(FirstBlock(a != [], length)), Pad(AuthStream(a)))
    }

    /** The authentication value T. */
    function Mac(a: seq<byte>, m: seq<byte>): seq<byte>
      requires Valid()
    {
      Cbc(E, AfterAuth(a, |m|), Pad(m))[..M]
    }

    /** Octet `j` of the key stream S_1 | S_2 | ... */
    function KeyOctet(j: nat): byte
      requires Valid()
    {
      E(Counter(1 + j / 16))[j % 16]
    }

    /** A message combined with the key stream. */
    function Crypt(m: seq<byte>): (c: seq<byte>)
      requires Valid()
      ensures |c| == |m|
    {
      seq(|m|, j requires 0 <= j < |m| => Xor8(m[j], KeyOctet(j)))
    }

    /** The encrypted authentication value U. */
    function Tag(a: seq<byte>, m: seq<byte>): (u: seq<byte>)
      requires Valid()
      ensures |u| == M
    {
      seq(M, i requires 0 <= i < M => Xor8(Mac(a, m)[i], E(Counter(0))[i]))
    }

    function Seal(a: seq<byte>, m: seq<byte>): seq<byte>
      requires Valid()
    {
      Crypt(m) + Tag(a, m)
    }

    /** Section 2.5: the message, or nothing when the tag does not fit. */
    function Open(a: seq<byte>, c: seq<byte>): (r: Opened)
      requires Valid() && |c| >= M
    {
      var m := Crypt(c[..|c| - M]);
      if c[|c| - M..] == Tag(a, m) then Message(m) else Rejected
    }
  }

  datatype Opened = Message(m: seq<byte>) | Rejected

  /** Decryption undoes encryption, for every message and associated data. */
  lemma RoundTrip(p: Params, a: seq<byte>, m: seq<byte>)
    requires p.Valid()
    ensures p.Open(a, p.Seal(a, m)) == Message(m)
  {
    hide Bits.Xor;
    var c := p.Seal(a, m);
    forall j | 0 <= j < |m| ensures p.Crypt(p.Crypt(m))[j] == m[j] { Bits.XorCancels(m[j], p.KeyOctet(j)); }
    assert c[..|m|] == p.Crypt(m) && c[|m|..] == p.Tag(a, m);
    assert p.Crypt(p.Crypt(m)) == m;
  }

  // ---------------------------------------------------------------------
  // Octets and counters

  lemma EncodeInjective(a: nat, b: nat, len: nat)
    requires BigEndian(a, len) == BigEndian(b, len) && a < Pow256(len) && b < Pow256(len)
    ensures a == b
  {
    ValueOfBigEndian(a, len);
    ValueOfBigEndian(b, len);
  }

  /** Big-endian increment with carry. */
  function Inc(s: seq<byte>): (r: seq<byte>)
    ensures |r| == |s|
  {
    if s == [] then []
    else
      var k := |s| - 1;
      if s[k] == 255 then Inc(s[..k]) + [0] else s[..k] + [s[k] + 1]
  }

  lemma {:induction false} IncEncode(n: nat, len: nat)
    ensures Inc(BigEndian(n, len)) == BigEndian(n + 1, len)
  {
    if len > 0 {
      var s := BigEndian(n, len);
      assert s[..len - 1] == BigEndian(n / 256, len - 1) && s[len - 1] == n % 256;
      if n % 256 == 255 {
        IncEncode(n / 256, len - 1);
        assert (n + 1) / 256 == n / 256 + 1;
      } else {
        assert (n + 1) / 256 == n / 256;
      }
    }
  }

  /** All counter blocks of a message, including A_0, are pairwise distinct. */
  lemma CountersDistinct(p: Params, i: nat, j: nat, length: nat)
    requires p.Valid() && length < Pow256(p.L) && i < j <= 1 + length / 16
    ensures p.Counter(i) != p.Counter(j)
  {
    CounterBound(p.L, length);
    if p.Counter(i) == p.Counter(j) {
      assert BigEndian(i, p.L) == p.Counter(i)[16 - p.L..];
      assert BigEndian(j, p.L) == p.Counter(j)[16 - p.L..];
      EncodeInjective(i, j, p.L);
      assert false;
    }
  }

  lemma CounterBound(L: nat, length: nat)
    requires L >= 2 && length < Pow256(L)
    ensures 1 + length / 16 < Pow256(L)
  {
    assert Pow256(L) == 256 * Pow256(L - 1);
  }

  // ---------------------------------------------------------------------
  // CBC as a stream of octets

  /** `s` xored into the first octets of a block. */
  function Mix(x: Block, s: seq<byte>): Block
    requires |s| <= 16
  {
    seq(16, i requires 0 <= i < 16 => if i < |s| then Xor8(x[i], s[i]) else x[i])
  }

  /** The running CBC block after `k` octets of `s`: complete blocks are
      enciphered, the rest is only xored in. */
  function Running(E: Cipher, x: Block, s: seq<byte>, k: nat): Block
    requires k <= |s|
  {
    Mix(Cbc(E, x, s[..k - k % 16]), s[k - k % 16..k])
  }

  lemma {:induction false} CbcAppend(E: Cipher, x: Block, s: seq<byte>, t: seq<byte>)
    requires |s| % 16 == 0 && |t| % 16 == 0
    ensures Cbc(E, x, s + t) == Cbc(E, Cbc(E, x, s), t)
    decreases |s|
  {
    if s == [] {
      assert s + t == t;
    } else {
      assert (s + t)[..16] == s[..16] && (s + t)[16..] == s[16..] + t;
      CbcAppend(E, E(Xor(x, s[..16])), s[16..], t);
    }
  }

  lemma RunningStart(E: Cipher, x: Block, s: seq<byte>)
    ensures Running(E, x, s, 0) == x
  {
    assert s[..0] == [] && Mix(x, []) == x;
  }

  /** One more octet, at position `b` of the block that starts at `f`. */
  lemma RunningStep(E: Cipher, x: Block, s: seq<byte>, f: nat, b: nat)
    requires f % 16 == 0 && b < 16 && f + b < |s|
    ensures var r := Running(E, x, s, f + b); var r' := r[b := Xor8(r[b], s[f + b])];
            Running(E, x, s, f + b + 1) == if b == 15 then E(r') else r'
  {
    hide Mix, Cbc, Running, Xor8;
    var k := f + b;
    var y := Cbc(E, x, s[..f]);
    RunningAt(E, x, s, f, b);
    MixStep(y, s[f..k], s[k]);
    assert s[f..k] + [s[k]] == s[f..k + 1];
    if b == 15 {
      RunningFull(E, x, s, f);
    } else {
      RunningAt(E, x, s, f, b + 1);
    }
  }

  lemma RunningFull(E: Cipher, x: Block, s: seq<byte>, f: nat)
    requires f % 16 == 0 && f + 16 <= |s|
    ensures Running(E, x, s, f + 16) == E(Mix(Cbc(E, x, s[..f]), s[f..f + 16]))
  {
    hide Mix, Cbc, Running, Xor8;
    assert s[..f + 16] == s[..f] + s[f..f + 16];
    CbcAppend(E, x, s[..f], s[f..f + 16]);
    OneBlock(E, Cbc(E, x, s[..f]), s[f..f + 16]);
    RunningAtBoundary(E, x, s, f + 16);
  }

  lemma RunningAt(E: Cipher, x: Block, s: seq<byte>, f: nat, b: nat)
    requires f % 16 == 0 && b < 16 && f + b <= |s|
    ensures Running(E, x, s, f + b) == Mix(Cbc(E, x, s[..f]), s[f..f + b])
  {
    hide Mix, Cbc, Xor8;
    assert (f + b) % 16 == b;
  }

  lemma MixStep(y: Block, t: seq<byte>, o: byte)
    requires |t| < 16
    ensures Mix(y, t)[|t| := Xor8(Mix(y, t)[|t|], o)] == Mix(y, t + [o])
  {
    hide Xor8;
  }

  lemma OneBlock(E: Cipher, y: Block, t: seq<byte>)
    requires |t| == 16
    ensures Cbc(E, y, t) == E(Mix(y, t))
  {
    assert t[..16] == t && t[16..] == [];
    assert Xor(y, t) == Mix(y, t);
  }

  lemma RunningAtBoundary(E: Cipher, x: Block, s: seq<byte>, k: nat)
    requires k <= |s| && k % 16 == 0
    ensures Running(E, x, s, k) == Cbc(E, x, s[..k])
  {
    var y := Cbc(E, x, s[..k]);
    assert Mix(y, []) == y;
  }

  /** Enciphering a partial last block is what padding with zeros does. */
  lemma RunningFinish(E: Cipher, x: Block, s: seq<byte>)
    ensures Cbc(E, x, Pad(s)) ==
            if |s| % 16 == 0 then Running(E, x, s, |s|) else E(Running(E, x, s, |s|))
  {
    hide Bits.Xor, Cbc;
    var k := |s|;
    var b := k % 16;
    var f := k - b;
    if b == 0 {
      RunningAtBoundary(E, x, s, k);
      assert s[..k] == s;
    } else {
      var t := s[f..] + Zeros(16 - b);
      assert Pad(s) == s[..f] + t;
      CbcAppend(E, x, s[..f], t);
      var y := Cbc(E, x, s[..f]);
      OneBlock(E, y, t);
      assert s[f..k] == s[f..];
      forall i | 0 <= i < 16 ensures Mix(y, t)[i] == Mix(y, s[f..])[i] { Bits.XorZero(y[i]); }
      assert Mix(y, t) == Mix(y, s[f..]);
    }
  }
}
