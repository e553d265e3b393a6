/** src/crypto/gladman/ccm.c: CCM in place, on a context that holds the counter
    block, the running CBC block and the current key stream block. */
module Ccm {
  import opened Bytes
  import opened CcmSpec
  import Bits

  const CCM_OK: int := 0
  const CCM_BAD_KEY: int := -1
  const CCM_BAD_AUTH_FIELD_LENGTH: int := -2
  const CCM_BAD_AUTH_DATA_LENGTH: int := -3
  const CCM_AUTH_FAILURE: int := -4
  const CCM_MSG_LENGTH_ERROR: int := -5

  const WORD_RANGE: nat := 0x1_0000_0000

  /** Sums of `mlen_type` values. */
  function Add32(a: nat, b: nat): nat { (a + b) % 0x1_0000_0000 }

  /** Up to 2^32 - 16 the loop guards do not wrap around. */
  lemma NoWrap(k: nat, len: nat)
    requires (k == 0 || k < len) && len <= WORD_RANGE - 16
    ensures Add32(k, 16) == k + 16
  {
  }

  /** The value a 32-bit length has as a (32-bit) `ret_type`. */
  function AsLong(n: nat): int
    requires n < WORD_RANGE
  {
    if n < 0x8000_0000 then n else n - WORD_RANGE
  }

  /** `(md_len & 0xff000000 ? 3 : md_len & 0xffff0000 ? 2 : 1) + 1`: octets of
      the length field. */
  function LengthSize(n: nat): (L: nat)
    requires n < WORD_RANGE
    ensures 2 <= L <= 4 && n < Pow256(L) && (L > 2 ==> n >= Pow256(L - 1))
  {
    assert Pow256(2) == 0x1_0000 && Pow256(3) == 0x100_0000 && Pow256(4) == 256 * Pow256(3);
    if n >= 0x100_0000 then 4 else if n >= 0x1_0000 then 3 else 2
  }

  method StoreBlock(dst: array<byte>, b: Block)
    requires dst.Length == 16
    modifies dst
    ensures dst[..] == b
  {
    for i := 0 to 16
      invariant dst[..i] == b[..i]
    {
      dst[i] := b[i];
      assert dst[..i + 1] == dst[..i] + [b[i]] && b[..i + 1] == b[..i] + [b[i]];
    }
    assert dst[..16] == dst[..] && b[..16] == b;
  }

  function XorFour(s: seq<byte>, i: nat, t: seq<byte>, j: nat): (r: seq<byte>)
    requires i + 4 <= |s| && j + 4 <= |t|
    ensures |r| == 4
  {
    [Xor8(s[i], t[j]), Xor8(s[i + 1], t[j + 1]), Xor8(s[i + 2], t[j + 2]), Xor8(s[i + 3], t[j + 3])]
  }

  /** A 32-bit word of four octets, least significant first. */
  function Word(b0: byte, b1: byte, b2: byte, b3: byte): nat {
    b0 + 0x100 * (b1 + 0x100 * (b2 + 0x100 * b3))
  }

  /** Xor of two words is xor of their octets. */
  lemma WordXor(a0: byte, a1: byte, a2: byte, a3: byte, b0: byte, b1: byte, b2: byte, b3: byte)
    ensures Bits.Xor(Word(a0, a1, a2, a3), Word(b0, b1, b2, b3)) ==
        Word(Xor8(a0, b0), Xor8(a1, b1), Xor8(a2, b2), Xor8(a3, b3))
  {
    hide Bits.Xor;
    assert Bits.Pow2(4) == 16 && Bits.Pow2(8) == 0x100;
    Bits.XorSplit(a2, b2, a3, b3, 8);
    Bits.XorSplit(a1, b1, a2 + 0x100 * a3, b2 + 0x100 * b3, 8);
    Bits.XorSplit(a0, b0, a1 + 0x100 * (a2 + 0x100 * a3), b1 + 0x100 * (b2 + 0x100 * b3), 8);
  }

  /** Octet `n` of a word, least significant first. */
  function WordOctet(w: nat, n: nat): byte
    requires n < 4
  {
    (if n == 0 then w else if n == 1 then w / 0x100 else if n == 2 then w / 0x1_0000 else w / 0x100_0000) % 256
  }

  lemma WordOctets(b0: byte, b1: byte, b2: byte, b3: byte)
    ensures var w := Word(b0, b1, b2, b3);
      WordOctet(w, 0) == b0 && WordOctet(w, 1) == b1 && WordOctet(w, 2) == b2 && WordOctet(w, 3) == b3
  {
    var w := Word(b0, b1, b2, b3);
    assert w / 0x100 == b1 + 0x100 * (b2 + 0x100 * b3);
    assert w / 0x1_0000 == b2 + 0x100 * b3;
    assert w / 0x100_0000 == b3;
  }

  /** `*lp(s + i)`: four octets as a word, in the machine's byte order. */
  function LoadWord(little: bool, s: seq<byte>, i: nat): nat
    requires i + 4 <= |s|
  {
    if little then Word(s[i], s[i + 1], s[i + 2], s[i + 3]) else Word(s[i + 3], s[i + 2], s[i + 1], s[i])
  }

  /** The octets a word occupies in memory. */
  function WordBytes(little: bool, w: nat): (r: seq<byte>) {
    if little then [WordOctet(w, 0), WordOctet(w, 1), WordOctet(w, 2), WordOctet(w, 3)]
    else [WordOctet(w, 3), WordOctet(w, 2), WordOctet(w, 1), WordOctet(w, 0)]
  }

  /** The octets of `*lp(s + i) ^ *lp(t + j)` are the octets xored one by one, in
      either byte order. */
  function WordXored(little: bool, s: seq<byte>, i: nat, t: seq<byte>, j: nat): (r: seq<byte>)
    requires i + 4 <= |s| && j + 4 <= |t|
    ensures r == XorFour(s, i, t, j)
  {
    hide Word, WordOctet, Xor8, Bits.Xor;
    if little then
      WordXor(s[i], s[i + 1], s[i + 2], s[i + 3], t[j], t[j + 1], t[j + 2], t[j + 3]);
      WordOctets(Xor8(s[i], t[j]), Xor8(s[i + 1], t[j + 1]), Xor8(s[i + 2], t[j + 2]), Xor8(s[i + 3], t[j + 3]));
      WordBytes(little, Bits.Xor(LoadWord(little, s, i), LoadWord(little, t, j)))
    else
      WordXor(s[i + 3], s[i + 2], s[i + 1], s[i], t[j + 3], t[j + 2], t[j + 1], t[j]);
      WordOctets(Xor8(s[i + 3], t[j + 3]), Xor8(s[i + 2], t[j + 2]), Xor8(s[i + 1], t[j + 1]), Xor8(s[i], t[j]));
      WordBytes(little, Bits.Xor(LoadWord(little, s, i), LoadWord(little, t, j)))
  }

  /** Four octets stored at once. */
  method StoreFour(a: array<byte>, i: nat, four: seq<byte>)
    requires i + 4 <= a.Length && |four| == 4
    modifies a
    ensures a[..] == old(a[..i]) + four + old(a[i + 4..])
  {
    ghost var was := a[..];
    a[i], a[i + 1], a[i + 2], a[i + 3] := four[0], four[1], four[2], four[3];
    assert a[..] == was[..i] + four + was[i + 4..];
  }

  class CcmCtx {
    const blk: array<byte>
    const cbc: array<byte>
    const sii: array<byte>
    var afLen: nat
    var mdLen: nat
    var cnt: nat
    var aes: Cipher

    ghost predicate Valid() {
      blk.Length == 16 && cbc.Length == 16 && sii.Length == 16 && blk != cbc && blk != sii && cbc != sii
    }

    constructor ()
      ensures Valid() && fresh(blk) && fresh(cbc) && fresh(sii)
    {
      blk := new byte[16];
      cbc := new byte[16];
      sii := new byte[16];
      afLen, mdLen, cnt, aes := 0, 0, 0, b => b;
    }

    /** set_ctr: the switch falls through from the longer counters. */
    method SetCtr(v: nat, ghost L: nat)
      requires Valid() && 2 <= L <= 4 && blk[0] == L - 1
      modifies blk
      ensures blk[..] == old(blk[..16 - L]) + BigEndian(v, L)
    {
      ghost var was := blk[..];
      if blk[0] == 3 { blk[12] := v / 0x100_0000 % 256; }
      if blk[0] == 3 || blk[0] == 2 { blk[13] := v / 0x1_0000 % 256; }
      blk[14] := v / 256 % 256;
      blk[15] := v % 256;
      EncodeSmall(v);
      assert blk[..16 - L] == was[..16 - L];
      assert blk[..] == blk[..16 - L] + blk[16 - L..];
    }

    /** inc_ctr: increment with carry, as far as the counter reaches. */
    method IncCtr(ghost L: nat)
      requires Valid() && 2 <= L <= 4 && blk[0] == L - 1
      modifies blk
      ensures blk[..] == old(blk[..16 - L]) + Inc(old(blk[16 - L..]))
    {
      hide Inc;
      ghost var was := blk[..];
      IncSmall(was, L);
      blk[15] := if blk[15] == 255 then 0 else blk[15] + 1;
      if blk[15] != 0 {
        assert blk[..] == was[15 := was[15] + 1];
        return;
      }
      blk[14] := if blk[14] == 255 then 0 else blk[14] + 1;
      if blk[0] == 1 || blk[14] != 0 {
        assert blk[..] == was[14 := if was[14] == 255 then 0 else was[14] + 1][15 := 0];
        return;
      }
      blk[13] := if blk[13] == 255 then 0 else blk[13] + 1;
      if blk[0] == 2 || blk[13] != 0 {
        assert blk[..] == was[13 := if was[13] == 255 then 0 else was[13] + 1][14 := 0][15 := 0];
        return;
      }
      blk[12] := if blk[12] == 255 then 0 else blk[12] + 1;
      assert blk[..] == was[12 := if was[12] == 255 then 0 else was[12] + 1][13 := 0][14 := 0][15 := 0];
    }

    /** The context while block `f` of message `m` is worked on: `b` of its
        octets are mixed into the CBC block. */
    ghost predicate InBlock(p: Params, x0: Block, m: seq<byte>, f: nat, b: nat)
      reads this`aes, blk, cbc, sii
    {
      && Valid() && p.Valid() && aes == p.E
      && f % 16 == 0 && b <= 16 && f + b <= |m|
      && blk[..] == p.Counter(1 + f / 16)
      && sii[..] == p.E(p.Counter(1 + f / 16))
      && cbc[..] == Mix(Cbc(p.E, x0, m[..f]), m[f..f + b])
    }

    /** A full block: next counter, next key stream block, CBC enciphered. */
    method NextBlock(ghost p: Params, ghost x0: Block, ghost m: seq<byte>, ghost f: nat)
      requires InBlock(p, x0, m, f, 16)
      modifies blk, cbc, sii
      ensures InBlock(p, x0, m, f + 16, 0)
    {
      hide Mix, Cbc, BigEndian, Inc;
      ghost var i := 1 + f / 16;
      CounterParts(p, i);
      IncCtr(p.L);
      IncEncode(i, p.L);
      CounterParts(p, i + 1);
      assert (f + 16) / 16 == f / 16 + 1;
      StoreBlock(sii, aes(blk[..]));
      StoreBlock(cbc, aes(cbc[..]));
      CbcBlock(p.E, x0, m, f);
    }

    /** One octet of plaintext, encrypted in place (src/crypto/gladman/ccm.c:272-273). */
    method EncryptByte(mbuf: array<byte>, k: nat, b: nat, ghost p: Params, ghost x0: Block, ghost m: seq<byte>)
      requires b < 16 && b <= k < |m| && InBlock(p, x0, m, k - b, b)
      requires mbuf != blk && mbuf != cbc && mbuf != sii && k < mbuf.Length && mbuf[k] == m[k]
      modifies cbc, mbuf
      ensures InBlock(p, x0, m, k - b, b + 1)
      ensures mbuf[..] == old(mbuf[..])[k := Xor8(m[k], p.KeyOctet(k))]
    {
      hide Cbc, BigEndian, Mix, Xor8;
      KeyAt(p, k, b);
      cbc[b] := Xor8(cbc[b], mbuf[k]);
      mbuf[k] := Xor8(mbuf[k], sii[b]);
      MixStep(Cbc(p.E, x0, m[..k - b]), m[k - b..k], m[k]);
      assert m[k - b..k] + [m[k]] == m[k - b..k + 1];
    }

    /** One octet of ciphertext, decrypted in place (src/crypto/gladman/ccm.c:376-377). */
    method DecryptByte(mbuf: array<byte>, k: nat, b: nat, ghost p: Params, ghost x0: Block, ghost m: seq<byte>)
      requires b < 16 && b <= k < |m| && InBlock(p, x0, m, k - b, b)
      requires mbuf != blk && mbuf != cbc && mbuf != sii && k < mbuf.Length && mbuf[k] == Xor8(m[k], p.KeyOctet(k))
      modifies cbc, mbuf
      ensures InBlock(p, x0, m, k - b, b + 1)
      ensures mbuf[..] == old(mbuf[..])[k := m[k]]
    {
      hide Cbc, BigEndian, Mix, Xor8;
      KeyAt(p, k, b);
      XorBack(m[k], sii[b]);
      mbuf[k] := Xor8(mbuf[k], sii[b]);
      cbc[b] := Xor8(cbc[b], mbuf[k]);
      MixStep(Cbc(p.E, x0, m[..k - b]), m[k - b..k], m[k]);
      assert m[k - b..k] + [m[k]] == m[k - b..k + 1];
    }

    /** Four octets at once through word access (src/crypto/gladman/ccm.c:246-249). */
    method EncryptWord(mbuf: array<byte>, k: nat, w: nat, little: bool,
                       ghost p: Params, ghost x0: Block, ghost m: seq<byte>)
      requires p.Valid() && w < 4 && 4 * w <= k && k + 4 <= |m| && InBlock(p, x0, m, k - 4 * w, 4 * w)
      requires mbuf != blk && mbuf != cbc && mbuf != sii && k + 4 <= mbuf.Length && mbuf[k..k + 4] == m[k..k + 4]
      modifies cbc, mbuf
      ensures InBlock(p, x0, m, k - 4 * w, 4 * w + 4)
      ensures mbuf[..] == old(mbuf[..k]) + p.Crypt(m)[k..k + 4] + old(mbuf[k + 4..])
    {
      hide Cbc, BigEndian, Mix, XorFour, WordXored, Params.Crypt, Params.Counter;
      ghost var s, c, f, b := mbuf[..], cbc[..], k - 4 * w, 4 * w;
      assert s[k..k + 4] == mbuf[k..k + 4] && c[..b] == cbc[..b] && c[b + 4..] == cbc[b + 4..];
      EncryptFour(p, m, k, b, s);
      MixNext(Cbc(p.E, x0, m[..f]), m, f, b, s, k);
      StoreFour(cbc, 4 * w, WordXored(little, cbc[..], 4 * w, mbuf[..], k));
      StoreFour(mbuf, k, WordXored(little, mbuf[..], k, sii[..], 4 * w));
    }

    method DecryptWord(mbuf: array<byte>, k: nat, w: nat, little: bool,
                       ghost p: Params, ghost x0: Block, ghost m: seq<byte>)
      requires p.Valid() && w < 4 && 4 * w <= k && k + 4 <= |m| && InBlock(p, x0, m, k - 4 * w, 4 * w)
      requires mbuf != blk && mbuf != cbc && mbuf != sii && k + 4 <= mbuf.Length
      requires mbuf[k..k + 4] == p.Crypt(m)[k..k + 4]
      modifies cbc, mbuf
      ensures InBlock(p, x0, m, k - 4 * w, 4 * w + 4)
      ensures mbuf[..] == old(mbuf[..k]) + m[k..k + 4] + old(mbuf[k + 4..])
    {
      hide Cbc, BigEndian, Mix, XorFour, WordXored, Params.Crypt, Params.Counter;
      ghost var c, f, b := cbc[..], k - 4 * w, 4 * w;
      assert mbuf[..][k..k + 4] == mbuf[k..k + 4] && c[..b] == cbc[..b] && c[b + 4..] == cbc[b + 4..];
      DecryptFour(p, m, k, b, mbuf[..], sii[..]);
      StoreFour(mbuf, k, WordXored(little, mbuf[..], k, sii[..], 4 * w));
      assert mbuf[..][k..k + 4] == m[k..k + 4];
      MixNext(Cbc(p.E, x0, m[..f]), m, f, b, mbuf[..], k);
      StoreFour(cbc, 4 * w, WordXored(little, cbc[..], 4 * w, mbuf[..], k));
    }

    /** `mbuf` is none of the context's own blocks. */
    ghost predicate Apart(mbuf: array<byte>) {
      mbuf != blk && mbuf != cbc && mbuf != sii
    }

    /** CCM_init. `keyed` is the block cipher, `keyed(key)` the result of its key
        schedule. */
    method Init(keyed: seq<byte> -> Cipher, key: seq<byte>, nonce: seq<byte>, auth: seq<byte>, msgLen: nat,
                authFieldLen: nat)
      returns (r: int)
      requires Valid() && msgLen < WORD_RANGE && |nonce| >= 15 - LengthSize(msgLen)
      modifies this, blk, cbc, sii
      ensures r == InitResult(|key|, authFieldLen, |auth|)
      ensures r == CCM_OK ==>
        var p := ParamsFor(keyed(key), nonce, msgLen, authFieldLen);
        && cnt == 0 && mdLen == msgLen && afLen == authFieldLen
        && p.Valid() && Ready(p, p.AfterAuth(auth, msgLen))
    {
      hide Cbc, BigEndian, Mix, Pad, Running;
      if |key| != 16 && |key| != 24 && |key| != 32 { return CCM_BAD_KEY; }
      aes := keyed(key);
      if authFieldLen < 2 || authFieldLen > 16 || authFieldLen % 2 == 1 { return CCM_BAD_AUTH_FIELD_LENGTH; }
      if |auth| >= 65536 - 256 { return CCM_BAD_AUTH_DATA_LENGTH; }
      mdLen, afLen := msgLen, authFieldLen;
      ghost var p := ParamsFor(keyed(key), nonce, msgLen, authFieldLen);
      var L := LengthSize(msgLen);
      FirstBlocks(L, nonce, |auth|, p);
      AuthBlocks(auth, p);
      cnt := 0;
      return CCM_OK;
    }

    /** Blocks B_0 and A_1 (src/crypto/gladman/ccm.c:147-169). */
    method FirstBlocks(L: nat, nonce: seq<byte>, adLen: nat, ghost p: Params)
      requires Valid() && p.Valid() && p.L == L && |nonce| >= 15 - L
      requires nonce[..15 - L] == p.nonce && aes == p.E && afLen == p.M
      modifies blk, cbc, sii
      ensures blk[..] == p.Counter(1) && sii[..] == p.E(p.Counter(1))
      ensures cbc[..] == p.E(p.FirstBlock(adLen != 0, mdLen))
    {
      hide BigEndian, Bits.Or, Params.Counter, Params.FirstBlock;
      HeaderBlocks(p, adLen != 0, mdLen);
      StoreNonce(L, nonce);
      assert blk[0] == blk[..16 - L][0] == L - 1;
      SetCtr(mdLen, L);
      StoreFlags(p, adLen != 0);
      SetCtr(1, L);
      StoreBlock(cbc, aes(cbc[..]));
      StoreBlock(sii, aes(blk[..]));
    }

    /** B_0 from the counter block (src/crypto/gladman/ccm.c:164-165). */
    method StoreFlags(ghost p: Params, adata: bool)
      requires Valid() && p.Valid() && blk[0] == p.L - 1 && afLen == p.M
      modifies cbc
      ensures cbc[..] == blk[..][0 := (if adata then 64 else 0) + 8 * ((p.M - 2) / 2) + (p.L - 1)]
    {
      hide Bits.Or;
      StoreBlock(cbc, blk[..]);
      FlagBits(p.L - 1, adata, afLen);
      cbc[0] := Bits.Or(cbc[0], (if adata then 0x40 else 0) + (afLen - 2) * 4);
    }

    method StoreNonce(L: nat, nonce: seq<byte>)
      requires Valid() && 2 <= L <= 4 && |nonce| >= 15 - L
      modifies blk
      ensures blk[..16 - L] == [L - 1] + nonce[..15 - L]
    {
      blk[0] := L - 1;
      for i := 0 to 15 - L
        invariant blk[0] == L - 1 && blk[1..1 + i] == nonce[..i]
      {
        blk[i + 1] := nonce[i];
        assert blk[1..i + 2] == blk[1..1 + i] + [nonce[i]];
      }
    }

    /** CBC over the additional authenticated data (src/crypto/gladman/ccm.c:171-186). */
    method AuthBlocks(auth: seq<byte>, ghost p: Params)
      requires Valid() && p.Valid() && aes == p.E && |auth| < 65536 - 256
      requires cbc[..] == p.E(p.FirstBlock(auth != [], mdLen))
      modifies cbc
      ensures cbc[..] == p.AfterAuth(auth, mdLen)
    {
      hide Cbc, BigEndian, Mix, Pad, Running, Xor8;
      ghost var x, s := p.E(p.FirstBlock(auth != [], mdLen)), p.AuthStream(auth);
      if auth == [] {
        assert Pad([]) == [] && Cbc(p.E, x, []) == x by { NothingToAuth(p.E, x); }
        return;
      }
      AuthStart(auth, x, s, p);
      var i := 0;
      while i < |auth|
        invariant i <= |auth|
        invariant i < |auth| ==> cbc[..] == Running(p.E, x, s, i + 2)
        invariant i == |auth| ==> cbc[..] == Cbc(p.E, x, Pad(s))
      {
        AuthOctet(auth, i, x, s, p);
        i := i + 1;
      }
    }

    method AuthStart(auth: seq<byte>, ghost x: Block, ghost s: seq<byte>, ghost p: Params)
      requires Valid() && 0 < |auth| < 65536 - 256 && s == BigEndian(|auth|, 2) + auth && cbc[..] == x
      modifies cbc
      ensures cbc[..] == Running(p.E, x, s, 2)
    {
      hide Cbc, BigEndian, Mix, Running, Xor8;
      AuthLength(auth);
      RunningStart(p.E, x, s);
      RunningStep(p.E, x, s, 0, 0);
      cbc[0] := Xor8(cbc[0], |auth| / 256 % 256);
      RunningStep(p.E, x, s, 0, 1);
      cbc[1] := Xor8(cbc[1], |auth| % 256);
    }

    method AuthOctet(auth: seq<byte>, i: nat, ghost x: Block, ghost s: seq<byte>, ghost p: Params)
      requires Valid() && aes == p.E && i < |auth| && s == BigEndian(|auth|, 2) + auth
      requires cbc[..] == Running(p.E, x, s, i + 2)
      modifies cbc
      ensures i + 1 < |auth| ==> cbc[..] == Running(p.E, x, s, i + 3)
      ensures i + 1 == |auth| ==> cbc[..] == Cbc(p.E, x, Pad(s))
    {
      hide Cbc, BigEndian, Mix, Pad, Running, Xor8;
      var b := (i + 2) % 16;
      assert s[i + 2] == auth[i];
      RunningStep(p.E, x, s, i + 2 - b, b);
      RunningFinish(p.E, x, s);
      cbc[b] := Xor8(cbc[b], auth[i]);
      if (i + 3) % 16 == 0 || i + 1 == |auth| {
        assert b == 15 <==> (i + 3) % 16 == 0;
        StoreBlock(cbc, aes(cbc[..]));
      }
    }

    /** The word loop (src/crypto/gladman/ccm.c:244-254): whole blocks, except
        the last one. */
    method EncryptBlocks(mbuf: array<byte>, len: nat, little: bool,
                         ghost p: Params, ghost x0: Block, ghost m: seq<byte>, ghost from: seq<byte>)
      returns (k: nat)
      requires p.Valid() && len == |m| <= WORD_RANGE - 16 && InBlock(p, x0, m, 0, 0) && Apart(mbuf)
      requires len <= |from| && from[..len] == m && mbuf[..] == from
      modifies blk, cbc, sii, mbuf
      ensures k % 16 == 0 && (k == 0 || k < len) && InBlock(p, x0, m, k, 0)
      ensures Part(mbuf[..], from, p.Crypt(m), k)
    {
      hide Cbc, BigEndian, Mix, Params.Crypt, CcmCtx.InBlock, Part, Add32;
      k := 0;
      NonePart(from, p.Crypt(m));
      NoWrap(k, len);
      while Add32(k, 16) < len
        invariant k % 16 == 0 && (k == 0 || k < len) && InBlock(p, x0, m, k, 0)
        invariant Part(mbuf[..], from, p.Crypt(m), k) && Add32(k, 16) == k + 16
        decreases len - k
      {
        EncryptWords(mbuf, k, little, p, x0, m, from);
        NextBlock(p, x0, m, k);
        k := k + 16;
        NoWrap(k, len);
      }
    }

    method EncryptWords(mbuf: array<byte>, f: nat, little: bool,
                        ghost p: Params, ghost x0: Block, ghost m: seq<byte>, ghost from: seq<byte>)
      requires p.Valid() && f + 16 <= |m| <= |from| && f % 16 == 0 && InBlock(p, x0, m, f, 0) && Apart(mbuf)
      requires from[..|m|] == m && Part(mbuf[..], from, p.Crypt(m), f)
      modifies cbc, mbuf
      ensures InBlock(p, x0, m, f, 16) && Part(mbuf[..], from, p.Crypt(m), f + 16)
    {
      hide Cbc, BigEndian, Mix, Params.Crypt, CcmCtx.InBlock, Part;
      for w := 0 to 4
        invariant InBlock(p, x0, m, f, 4 * w)
        invariant Part(mbuf[..], from, p.Crypt(m), f + 4 * w)
      {
        EncryptNext(mbuf, f + 4 * w, w, little, p, x0, m, from);
      }
    }

    method EncryptNext(mbuf: array<byte>, k: nat, w: nat, little: bool,
                       ghost p: Params, ghost x0: Block, ghost m: seq<byte>, ghost from: seq<byte>)
      requires p.Valid() && w < 4 && 4 * w <= k && k + 4 <= |m| <= |from|
      requires InBlock(p, x0, m, k - 4 * w, 4 * w) && Apart(mbuf)
      requires from[..|m|] == m && Part(mbuf[..], from, p.Crypt(m), k)
      modifies cbc, mbuf
      ensures InBlock(p, x0, m, k - 4 * w, 4 * w + 4) && Part(mbuf[..], from, p.Crypt(m), k + 4)
    {
      hide Cbc, BigEndian, Mix, Params.Crypt, CcmCtx.InBlock, Part;
      PartNext(mbuf[..], from, p.Crypt(m), k, m);
      EncryptWord(mbuf, k, w, little, p, x0, m);
    }

    method DecryptNext(mbuf: array<byte>, k: nat, w: nat, little: bool,
                       ghost p: Params, ghost x0: Block, ghost m: seq<byte>, ghost from: seq<byte>)
      requires p.Valid() && w < 4 && 4 * w <= k && k + 4 <= |m| <= |from|
      requires InBlock(p, x0, m, k - 4 * w, 4 * w) && Apart(mbuf)
      requires from[..|m|] == p.Crypt(m) && Part(mbuf[..], from, m, k)
      modifies cbc, mbuf
      ensures InBlock(p, x0, m, k - 4 * w, 4 * w + 4) && Part(mbuf[..], from, m, k + 4)
    {
      hide Cbc, BigEndian, Mix, Params.Crypt, CcmCtx.InBlock, Part;
      PartNext(mbuf[..], from, m, k, p.Crypt(m));
      DecryptWord(mbuf, k, w, little, p, x0, m);
    }

    /** The byte loops (src/crypto/gladman/ccm.c:257-281). */
    method EncryptRest(mbuf: array<byte>, len: nat, start: nat,
                       ghost p: Params, ghost x0: Block, ghost m: seq<byte>, ghost from: seq<byte>)
      returns (b: nat)
      requires p.Valid() && len == |m| <= WORD_RANGE - 16 && start % 16 == 0
      requires (start == 0 || start < len) && InBlock(p, x0, m, start, 0) && Apart(mbuf)
      requires len <= |from| && from[..len] == m && Part(mbuf[..], from, p.Crypt(m), start)
      modifies blk, cbc, sii, mbuf
      ensures b < 16 && b <= len && InBlock(p, x0, m, len - b, b)
      ensures Part(mbuf[..], from, p.Crypt(m), len)
    {
      hide Cbc, BigEndian, Mix, Params.Crypt, Xor8, CcmCtx.InBlock, Part, Add32;
      var k := start;
      NoWrap(k, len);
      while Add32(k, 16) < len
        invariant k % 16 == 0 && (k == 0 || k < len) && InBlock(p, x0, m, k, 0)
        invariant Part(mbuf[..], from, p.Crypt(m), k) && Add32(k, 16) == k + 16
        decreases len - k
      {
        EncryptBlock(mbuf, k, p, x0, m, from);
        k := k + 16;
        NoWrap(k, len);
      }
      b := EncryptTail(mbuf, len, k, p, x0, m, from);
    }

    /** A whole block, byte by byte (src/crypto/gladman/ccm.c:257-268). */
    method EncryptBlock(mbuf: array<byte>, f: nat, ghost p: Params, ghost x0: Block, ghost m: seq<byte>,
                        ghost from: seq<byte>)
      requires p.Valid() && f + 16 <= |m| <= |from| && f % 16 == 0 && InBlock(p, x0, m, f, 0) && Apart(mbuf)
      requires from[..|m|] == m && Part(mbuf[..], from, p.Crypt(m), f)
      modifies blk, cbc, sii, mbuf
      ensures InBlock(p, x0, m, f + 16, 0) && Part(mbuf[..], from, p.Crypt(m), f + 16)
    {
      hide Cbc, BigEndian, Mix, Params.Crypt, Xor8, CcmCtx.InBlock, Part;
      var b := 0;
      while b < 16
        invariant b <= 16 && InBlock(p, x0, m, f, b)
        invariant Part(mbuf[..], from, p.Crypt(m), f + b)
      {
        EncryptOne(mbuf, f + b, b, p, x0, m, from);
        b := b + 1;
      }
      NextBlock(p, x0, m, f);
    }

    /** The rest of the message (src/crypto/gladman/ccm.c:270-281). */
    method EncryptTail(mbuf: array<byte>, len: nat, start: nat,
                       ghost p: Params, ghost x0: Block, ghost m: seq<byte>, ghost from: seq<byte>)
      returns (b: nat)
      requires p.Valid() && len == |m| && start % 16 == 0 && start <= len && InBlock(p, x0, m, start, 0) && Apart(mbuf)
      requires len <= |from| && from[..len] == m && Part(mbuf[..], from, p.Crypt(m), start)
      modifies blk, cbc, sii, mbuf
      ensures b < 16 && b <= len && InBlock(p, x0, m, len - b, b)
      ensures Part(mbuf[..], from, p.Crypt(m), len)
    {
      hide Cbc, BigEndian, Mix, Params.Crypt, Xor8, CcmCtx.InBlock, Part;
      var k := start;
      b := 0;
      while k < len
        invariant b < 16 && b <= k <= len && InBlock(p, x0, m, k - b, b)
        invariant Part(mbuf[..], from, p.Crypt(m), k)
      {
        EncryptOne(mbuf, k, b, p, x0, m, from);
        k, b := k + 1, b + 1;
        if b == 16 {
          NextBlock(p, x0, m, k - b);
          b := 0;
        }
      }
    }

    method EncryptOne(mbuf: array<byte>, k: nat, b: nat, ghost p: Params, ghost x0: Block, ghost m: seq<byte>,
                      ghost from: seq<byte>)
      requires p.Valid() && b < 16 && b <= k < |m| <= |from| && InBlock(p, x0, m, k - b, b) && Apart(mbuf)
      requires from[..|m|] == m && Part(mbuf[..], from, p.Crypt(m), k)
      modifies cbc, mbuf
      ensures InBlock(p, x0, m, k - b, b + 1) && Part(mbuf[..], from, p.Crypt(m), k + 1)
    {
      hide Cbc, BigEndian, Mix, Params.Crypt, Xor8, CcmCtx.InBlock, Part;
      PartStep(mbuf[..], from, p.Crypt(m), k, m);
      CryptAt(p, m, k);
      EncryptByte(mbuf, k, b, p, x0, m);
    }

    /** The word loop of decryption (src/crypto/gladman/ccm.c:361-371). */
    method DecryptBlocks(mbuf: array<byte>, len: nat, little: bool,
                         ghost p: Params, ghost x0: Block, ghost m: seq<byte>, ghost from: seq<byte>)
      returns (k: nat)
      requires p.Valid() && len == |m| <= WORD_RANGE - 16 && InBlock(p, x0, m, 0, 0) && Apart(mbuf)
      requires len <= |from| && from[..len] == p.Crypt(m) && mbuf[..] == from
      modifies blk, cbc, sii, mbuf
      ensures k % 16 == 0 && (k == 0 || k < len) && InBlock(p, x0, m, k, 0)
      ensures Part(mbuf[..], from, m, k)
    {
      hide Cbc, BigEndian, Mix, Params.Crypt, CcmCtx.InBlock, Part, Add32;
      k := 0;
      NonePart(from, m);
      NoWrap(k, len);
      while Add32(k, 16) < len
        invariant k % 16 == 0 && (k == 0 || k < len) && InBlock(p, x0, m, k, 0)
        invariant Part(mbuf[..], from, m, k) && Add32(k, 16) == k + 16
        decreases len - k
      {
        DecryptWords(mbuf, k, little, p, x0, m, from);
        NextBlock(p, x0, m, k);
        k := k + 16;
        NoWrap(k, len);
      }
    }

    method DecryptWords(mbuf: array<byte>, f: nat, little: bool,
                        ghost p: Params, ghost x0: Block, ghost m: seq<byte>, ghost from: seq<byte>)
      requires p.Valid() && f + 16 <= |m| <= |from| && f % 16 == 0 && InBlock(p, x0, m, f, 0) && Apart(mbuf)
      requires from[..|m|] == p.Crypt(m) && Part(mbuf[..], from, m, f)
      modifies cbc, mbuf
      ensures InBlock(p, x0, m, f, 16) && Part(mbuf[..], from, m, f + 16)
    {
      hide Cbc, BigEndian, Mix, Params.Crypt, CcmCtx.InBlock, Part;
      for w := 0 to 4
        invariant InBlock(p, x0, m, f, 4 * w)
        invariant Part(mbuf[..], from, m, f + 4 * w)
      {
        DecryptNext(mbuf, f + 4 * w, w, little, p, x0, m, from);
      }
    }

    /** The byte loop of decryption (src/crypto/gladman/ccm.c:374-385). */
    method DecryptRest(mbuf: array<byte>, len: nat, start: nat,
                       ghost p: Params, ghost x0: Block, ghost m: seq<byte>, ghost from: seq<byte>)
      returns (b: nat)
      requires p.Valid() && len == |m| && start % 16 == 0 && start <= len && InBlock(p, x0, m, start, 0) && Apart(mbuf)
      requires len <= |from| && from[..len] == p.Crypt(m) && Part(mbuf[..], from, m, start)
      modifies blk, cbc, sii, mbuf
      ensures b < 16 && b <= len && InBlock(p, x0, m, len - b, b)
      ensures Part(mbuf[..], from, m, len)
    {
      hide Cbc, BigEndian, Mix, Params.Crypt, Xor8, CcmCtx.InBlock, Part;
      var k := start;
      b := 0;
      while k < len
        invariant b < 16 && b <= k <= len && InBlock(p, x0, m, k - b, b)
        invariant Part(mbuf[..], from, m, k)
      {
        DecryptOne(mbuf, k, b, p, x0, m, from);
        k, b := k + 1, b + 1;
        if b == 16 {
          NextBlock(p, x0, m, k - b);
          b := 0;
        }
      }
    }

    method DecryptOne(mbuf: array<byte>, k: nat, b: nat, ghost p: Params, ghost x0: Block, ghost m: seq<byte>,
                      ghost from: seq<byte>)
      requires p.Valid() && b < 16 && b <= k < |m| <= |from| && InBlock(p, x0, m, k - b, b) && Apart(mbuf)
      requires from[..|m|] == p.Crypt(m) && Part(mbuf[..], from, m, k)
      modifies cbc, mbuf
      ensures InBlock(p, x0, m, k - b, b + 1) && Part(mbuf[..], from, m, k + 1)
    {
      hide Cbc, BigEndian, Mix, Params.Crypt, Xor8, CcmCtx.InBlock, Part;
      PartStep(mbuf[..], from, m, k, p.Crypt(m));
      CryptAt(p, m, k);
      DecryptByte(mbuf, k, b, p, x0, m);
    }

    /** The state `CCM_init` leaves: counter 1, CBC value of the header. */
    ghost predicate Ready(p: Params, x0: Block)
      reads this`aes, blk, cbc, sii
    {
      && Valid() && p.Valid() && aes == p.E
      && blk[..] == p.Counter(1) && sii[..] == p.E(p.Counter(1)) && cbc[..] == x0
    }

    lemma ReadyStarts(p: Params, x0: Block, m: seq<byte>)
      requires Ready(p, x0)
      ensures InBlock(p, x0, m, 0, 0)
    {
      assert m[..0] == [] && Mix(x0, []) == x0;
    }

    /** CCM_encrypt for a whole message (`cnt` is 0). `aligned` tells whether the
        message is word-aligned like the context. */
    method Encrypt(mbuf: array<byte>, len: nat, aligned: bool, little: bool, ghost p: Params, ghost a: seq<byte>)
      returns (r: int)
      requires Valid() && p.Valid() && mdLen < WORD_RANGE && Ready(p, p.AfterAuth(a, mdLen))
      requires cnt == 0 && afLen == p.M && Apart(mbuf)
      requires len <= WORD_RANGE - 17 && len + p.M <= mbuf.Length
      modifies this`cnt, blk, cbc, sii, mbuf
      ensures len > mdLen ==> r == CCM_MSG_LENGTH_ERROR && mbuf[..] == old(mbuf[..])
      ensures len < mdLen ==> r == AsLong(len) && mbuf[..] == p.Crypt(old(mbuf[..len])) + old(mbuf[len..])
      ensures len == mdLen ==> r == AsLong(len + p.M)
      ensures len == mdLen ==> mbuf[..] == p.Seal(a, old(mbuf[..len])) + old(mbuf[len + p.M..])
    {
      hide Cbc, BigEndian, Mix, Params.Crypt, Params.AfterAuth, Params.Tag, Params.Seal, Pad, Xor8, CcmCtx.Ready,
        CcmCtx.InBlock;
      if len > mdLen { return CCM_MSG_LENGTH_ERROR; }
      ghost var m, x0 := mbuf[..len], p.AfterAuth(a, mdLen);
      Sealing(p, a, m, mbuf[len..]);
      assert mbuf[len + p.M..] == mbuf[len..][p.M..];
      var b := EncryptMessage(mbuf, len, aligned, little, p, x0, m);
      cnt := cnt + len;
      r := AsLong(len);
      if cnt == mdLen {
        Finish(b, p, x0, m);
        WriteTag(mbuf, len, p, a, m);
        r := AsLong(len + afLen);
      }
    }

    /** Ciphertext, tag and what lies behind them. */
    lemma Sealing(p: Params, a: seq<byte>, m: seq<byte>, behind: seq<byte>)
      requires p.Valid() && p.M <= |behind|
      ensures var c := p.Crypt(m) + behind;
        c[..|m|] + p.Tag(a, m) + c[|m| + p.M..] == p.Seal(a, m) + behind[p.M..]
    {
      hide Params.Crypt, Params.Tag;
      var c := p.Crypt(m) + behind;
      assert c[..|m|] == p.Crypt(m) && c[|m| + p.M..] == behind[p.M..];
    }

    method EncryptMessage(mbuf: array<byte>, len: nat, aligned: bool, little: bool,
                          ghost p: Params, ghost x0: Block, ghost m: seq<byte>)
      returns (b: nat)
      requires Valid() && p.Valid() && Ready(p, x0) && Apart(mbuf)
      requires len <= WORD_RANGE - 17 && len <= mbuf.Length && m == mbuf[..len]
      modifies blk, cbc, sii, mbuf
      ensures b < 16 && b <= len && InBlock(p, x0, m, len - b, b)
      ensures mbuf[..] == p.Crypt(m) + old(mbuf[len..])
    {
      hide Cbc, BigEndian, Mix, Params.Crypt, CcmCtx.Ready, CcmCtx.InBlock;
      ghost var from := mbuf[..];
      ReadyStarts(p, x0, m);
      var k := 0;
      if aligned {
        k := EncryptBlocks(mbuf, len, little, p, x0, m, from);
      }
      b := EncryptRest(mbuf, len, k, p, x0, m, from);
      assert p.Crypt(m)[..len] == p.Crypt(m);
    }

    /** Encrypt and store the authentication value (src/crypto/gladman/ccm.c:293-294). */
    method WriteTag(mbuf: array<byte>, len: nat, ghost p: Params, ghost a: seq<byte>, ghost m: seq<byte>)
      requires Valid() && p.Valid() && afLen == p.M && len + p.M <= mbuf.Length && Apart(mbuf)
      requires cbc[..] == Cbc(p.E, p.AfterAuth(a, |m|), Pad(m)) && sii[..] == p.E(p.Counter(0))
      modifies mbuf
      ensures mbuf[..] == old(mbuf[..len]) + p.Tag(a, m) + old(mbuf[len + p.M..])
    {
      hide Cbc, BigEndian, Params.AfterAuth, Pad, Xor8;
      ghost var was := mbuf[..];
      for b := 0 to afLen
        invariant mbuf[..len] == was[..len] && mbuf[len + b..] == was[len + b..]
        invariant mbuf[len..len + b] == p.Tag(a, m)[..b]
      {
        TagAt(p, a, m, b);
        mbuf[len + b] := Xor8(cbc[b], sii[b]);
        assert mbuf[len..len + b + 1] == mbuf[len..len + b] + [mbuf[len + b]];
        assert p.Tag(a, m)[..b + 1] == p.Tag(a, m)[..b] + [p.Tag(a, m)[b]];
        assert mbuf[len + b + 1..] == was[len + b..][1..];
      }
      assert p.Tag(a, m)[..afLen] == p.Tag(a, m);
      assert mbuf[..] == mbuf[..len] + mbuf[len..len + afLen] + mbuf[len + afLen..];
    }

    /** CCM_decrypt for a whole message and its authentication field. */
    method Decrypt(mbuf: array<byte>, len: nat, aligned: bool, little: bool, ghost p: Params, ghost a: seq<byte>)
      returns (r: int)
      requires Valid() && p.Valid() && mdLen <= WORD_RANGE - 17
      requires Ready(p, p.AfterAuth(a, mdLen)) && cnt == 0 && afLen == p.M && Apart(mbuf)
      requires len == mdLen + p.M <= mbuf.Length
      modifies this`cnt, blk, cbc, sii, mbuf
      ensures match p.Open(a, old(mbuf[..len]))
        case Message(m) => r == AsLong(mdLen) && mbuf[..] == m + old(mbuf[mdLen..])
        case Rejected => r == CCM_AUTH_FAILURE && mbuf[..] == Zeros(len) + old(mbuf[len..])
    {
      hide Cbc, BigEndian, Mix, Params.Crypt, Params.AfterAuth, Params.Tag, Params.Open, Pad, Xor8, CcmCtx.Ready;
      ghost var from := mbuf[..];
      ghost var m := p.Crypt(from[..mdLen]);
      assert mbuf[..len] == from[..len] && mbuf[mdLen..] == from[mdLen..] && mbuf[len..] == from[len..];
      Opening(p, a, from, mdLen);
      Recover(mbuf, aligned, little, p, a, m);
      assert mbuf[mdLen..len] == mbuf[..][mdLen..len] == from[mdLen..len];
      assert mbuf[len..] == mbuf[..][len..] == from[len..];
      var good := CheckTag(mbuf, p, a, m);
      if good {
        r := AsLong(mdLen);
      } else {
        Clear(mbuf, len);
        r := CCM_AUTH_FAILURE;
      }
    }

    /** Opening the first octets of a buffer: ciphertext, then the tag. */
    lemma Opening(p: Params, a: seq<byte>, from: seq<byte>, n: nat)
      requires p.Valid() && n + p.M <= |from|
      ensures var m := p.Crypt(from[..n]);
        && p.Open(a, from[..n + p.M]) == (if from[n..n + p.M] == p.Tag(a, m) then Message(m) else Rejected)
        && |m| == n && (m + from[n..])[n..n + p.M] == from[n..n + p.M]
        && (m + from[n..])[n + p.M..] == from[n + p.M..]
    {
      hide Params.Crypt, Params.Tag;
      var c := from[..n + p.M];
      assert c[..n] == from[..n] && c[n..] == from[n..n + p.M];
    }

    /** Everything before the tag is checked: the plaintext in place, the
        authentication value and its key stream block computed. */
    method Recover(mbuf: array<byte>, aligned: bool, little: bool, ghost p: Params, ghost a: seq<byte>,
                   ghost m: seq<byte>)
      requires Valid() && p.Valid() && mdLen <= WORD_RANGE - 17
      requires Ready(p, p.AfterAuth(a, mdLen)) && cnt == 0 && Apart(mbuf)
      requires mdLen <= mbuf.Length && m == p.Crypt(mbuf[..mdLen])
      modifies this`cnt, blk, cbc, sii, mbuf
      ensures cnt == mdLen && mbuf[..] == m + old(mbuf[mdLen..])
      ensures cbc[..] == Cbc(p.E, p.AfterAuth(a, |m|), Pad(m)) && sii[..] == p.E(p.Counter(0))
    {
      hide Cbc, BigEndian, Mix, Params.Crypt, Params.AfterAuth, Pad, CcmCtx.Ready, CcmCtx.InBlock;
      ghost var from, x0 := mbuf[..], p.AfterAuth(a, mdLen);
      CryptTwice(p, from[..mdLen]);
      ReadyStarts(p, x0, m);
      var k := 0;
      if aligned {
        k := DecryptBlocks(mbuf, mdLen, little, p, x0, m, from);
      }
      var b := DecryptRest(mbuf, mdLen, k, p, x0, m, from);
      assert m[..mdLen] == m;
      cnt := cnt + mdLen;
      Finish(b, p, x0, m);
    }

    /** Verify the encrypted authentication value (src/crypto/gladman/ccm.c:397-398). */
    method CheckTag(mbuf: array<byte>, ghost p: Params, ghost a: seq<byte>, ghost m: seq<byte>) returns (good: bool)
      requires Valid() && p.Valid() && afLen == p.M && mdLen == |m| && mdLen + p.M <= mbuf.Length
      requires cbc[..] == Cbc(p.E, p.AfterAuth(a, |m|), Pad(m)) && sii[..] == p.E(p.Counter(0))
      ensures good <==> mbuf[mdLen..mdLen + p.M] == p.Tag(a, m)
    {
      hide Cbc, BigEndian, Params.AfterAuth, Params.Tag, Pad, Xor8;
      for b := 0 to afLen
        invariant mbuf[mdLen..mdLen + b] == p.Tag(a, m)[..b]
      {
        TagAt(p, a, m, b);
        if mbuf[mdLen + b] != Xor8(cbc[b], sii[b]) {
          assert mbuf[mdLen..mdLen + p.M][b] != p.Tag(a, m)[b];
          return false;
        }
        assert mbuf[mdLen..mdLen + b + 1] == mbuf[mdLen..mdLen + b] + [mbuf[mdLen + b]];
        assert p.Tag(a, m)[..b + 1] == p.Tag(a, m)[..b] + [p.Tag(a, m)[b]];
      }
      assert p.Tag(a, m)[..afLen] == p.Tag(a, m);
      return true;
    }

    /** The end of a message: CBC value final, key stream block of counter 0. */
    method Finish(b: nat, ghost p: Params, ghost x0: Block, ghost m: seq<byte>)
      requires b < 16 && b <= |m| && InBlock(p, x0, m, |m| - b, b)
      modifies blk, cbc, sii
      ensures cbc[..] == Cbc(p.E, x0, Pad(m)) && sii[..] == p.E(p.Counter(0))
    {
      hide Cbc, BigEndian, Mix;
      FinishCbc(p.E, x0, m, b);
      if b != 0 {
        StoreBlock(cbc, aes(cbc[..]));
      }
      CounterParts(p, 1 + (|m| - b) / 16);
      SetCtr(0, p.L);
      CounterParts(p, 0);
      assert blk[..] == p.Counter(0);
      StoreBlock(sii, aes(blk[..]));
    }
  }

  lemma EncodeSmall(v: nat)
    ensures BigEndian(v, 2) == [v / 256 % 256, v % 256]
    ensures BigEndian(v, 3) == [v / 0x1_0000 % 256, v / 256 % 256, v % 256]
    ensures BigEndian(v, 4) == [v / 0x100_0000 % 256, v / 0x1_0000 % 256, v / 256 % 256, v % 256]
  {
    assert v / 256 / 256 == v / 0x1_0000 && v / 256 / 256 / 256 == v / 0x100_0000;
    assert BigEndian(v / 0x100_0000, 1) == [v / 0x100_0000 % 256];
    assert BigEndian(v / 0x1_0000, 1) == [v / 0x1_0000 % 256];
    assert BigEndian(v / 256, 1) == [v / 256 % 256];
    assert BigEndian(v / 0x1_0000, 2) == [v / 0x100_0000 % 256, v / 0x1_0000 % 256];
    assert BigEndian(v / 256, 2) == [v / 0x1_0000 % 256, v / 256 % 256];
    assert BigEndian(v / 256, 3) == [v / 0x100_0000 % 256, v / 0x1_0000 % 256, v / 256 % 256];
  }

  /** The carry chain, octet by octet. */
  lemma IncSmall(b: Block, L: nat)
    requires 2 <= L <= 4
    ensures b[..16 - L] + Inc(b[16 - L..]) ==
      if b[15] != 255 then b[15 := b[15] + 1]
      else if b[14] != 255 then b[14 := b[14] + 1][15 := 0]
      else if L == 2 then b[14 := 0][15 := 0]
      else if b[13] != 255 then b[13 := b[13] + 1][14 := 0][15 := 0]
      else if L == 3 then b[13 := 0][14 := 0][15 := 0]
      else b[12 := if b[12] == 255 then 0 else b[12] + 1][13 := 0][14 := 0][15 := 0]
  {
    var s := b[16 - L..];
    assert s[..L - 1] == b[16 - L..15];
    if b[15] == 255 {
      assert Inc(s) == Inc(b[16 - L..15]) + [0];
      assert b[16 - L..15][..L - 2] == b[16 - L..14];
      if b[14] == 255 {
        assert Inc(b[16 - L..15]) == Inc(b[16 - L..14]) + [0];
        if L > 2 {
          assert b[16 - L..14][..L - 3] == b[16 - L..13];
          if b[13] == 255 {
            assert Inc(b[16 - L..14]) == Inc(b[16 - L..13]) + [0];
            if L > 3 { assert b[12..13][..0] == []; }
          }
        }
      }
    }
  }

  lemma CounterParts(p: Params, i: nat)
    requires p.Valid()
    ensures p.Counter(i)[0] == p.L - 1
    ensures p.Counter(i)[..16 - p.L] == [p.L - 1] + p.nonce
    ensures p.Counter(i)[16 - p.L..] == BigEndian(i, p.L)
  {
    hide BigEndian;
  }

  lemma KeyAt(p: Params, k: nat, b: nat)
    requires p.Valid() && b < 16 && b <= k && (k - b) % 16 == 0
    ensures p.KeyOctet(k) == p.E(p.Counter(1 + (k - b) / 16))[b]
  {
    hide BigEndian;
    assert k % 16 == b && k / 16 == (k - b) / 16;
  }

  lemma CbcBlock(E: Cipher, x: Block, s: seq<byte>, f: nat)
    requires f % 16 == 0 && f + 16 <= |s|
    ensures E(Mix(Cbc(E, x, s[..f]), s[f..f + 16])) == Mix(Cbc(E, x, s[..f + 16]), s[f + 16..f + 16])
  {
    hide Cbc, Xor8;
    RunningFull(E, x, s, f);
  }

  lemma XorBack(a: byte, b: byte)
    ensures Xor8(Xor8(a, b), b) == a
  {
    hide Bits.Xor;
    Bits.XorCancels(a, b);
  }

  lemma FourSame(s: seq<byte>, m: seq<byte>, k: nat)
    requires k + 4 <= |s| && k + 4 <= |m| && s[k..k + 4] == m[k..k + 4]
    ensures s[k] == m[k] && s[k + 1] == m[k + 1] && s[k + 2] == m[k + 2] && s[k + 3] == m[k + 3]
  {
    assert s[k] == s[k..k + 4][0] && s[k + 1] == s[k..k + 4][1];
    assert s[k + 2] == s[k..k + 4][2] && s[k + 3] == s[k..k + 4][3];
    assert m[k] == m[k..k + 4][0] && m[k + 1] == m[k..k + 4][1];
    assert m[k + 2] == m[k..k + 4][2] && m[k + 3] == m[k..k + 4][3];
  }

  lemma MixFour(y: Block, t: seq<byte>, s: seq<byte>, k: nat)
    requires |t| + 4 <= 16 && k + 4 <= |s|
    ensures var r := Mix(y, t); var b := |t|;
            r[..b] + XorFour(r, b, s, k) + r[b + 4..] == Mix(y, t + s[k..k + 4])
  {
    hide Xor8;
    var r, b := Mix(y, t), |t|;
    var u := t + s[k..k + 4];
    var left := r[..b] + XorFour(r, b, s, k) + r[b + 4..];
    forall i | 0 <= i < 16 ensures left[i] == Mix(y, u)[i] {
      if b <= i < b + 4 { assert u[i] == s[k + (i - b)]; }
    }
  }

  /** Four octets of key stream stand in the key stream block. */
  lemma CryptFour(p: Params, m: seq<byte>, k: nat, b: nat)
    requires p.Valid() && b + 4 <= 16 && b <= k && (k - b) % 16 == 0 && k + 4 <= |m|
    ensures p.Crypt(m)[k..k + 4] == XorFour(m, k, p.E(p.Counter(1 + (k - b) / 16)), b)
  {
    hide BigEndian, Xor8;
    KeyAt(p, k, b);
    KeyAt(p, k + 1, b + 1);
    KeyAt(p, k + 2, b + 2);
    KeyAt(p, k + 3, b + 3);
  }

  lemma EncryptFour(p: Params, m: seq<byte>, k: nat, b: nat, s: seq<byte>)
    requires p.Valid() && b + 4 <= 16 && b <= k && (k - b) % 16 == 0 && k + 4 <= |m| && k + 4 <= |s|
    requires s[k..k + 4] == m[k..k + 4]
    ensures XorFour(s, k, p.E(p.Counter(1 + (k - b) / 16)), b) == p.Crypt(m)[k..k + 4]
  {
    hide BigEndian, Xor8, Params.Crypt;
    CryptFour(p, m, k, b);
    FourSame(s, m, k);
  }

  /** Four more octets of `m`, taken from `s` at `k`, are mixed in. */
  lemma MixNext(y: Block, m: seq<byte>, f: nat, b: nat, s: seq<byte>, k: nat)
    requires b + 4 <= 16 && f + b + 4 <= |m| && k == f + b && k + 4 <= |s| && s[k..k + 4] == m[k..k + 4]
    ensures var r := Mix(y, m[f..f + b]);
            r[..b] + XorFour(r, b, s, k) + r[b + 4..] == Mix(y, m[f..f + (b + 4)])
  {
    hide Mix, XorFour;
    MixFour(y, m[f..k], s, k);
    assert m[f..k] + s[k..k + 4] == m[f..f + (b + 4)];
  }

  lemma DecryptFour(p: Params, m: seq<byte>, k: nat, b: nat, s: seq<byte>, key: seq<byte>)
    requires p.Valid() && b + 4 <= 16 && b <= k && (k - b) % 16 == 0 && k + 4 <= |m| && k + 4 <= |s|
    requires key == p.E(p.Counter(1 + (k - b) / 16)) && s[k..k + 4] == p.Crypt(m)[k..k + 4]
    ensures XorFour(s, k, key, b) == m[k..k + 4]
  {
    hide BigEndian, Xor8;
    CryptFour(p, m, k, b);
    FourSame(s, p.Crypt(m), k);
    XorBack(m[k], key[b]);
    XorBack(m[k + 1], key[b + 1]);
    XorBack(m[k + 2], key[b + 2]);
    XorBack(m[k + 3], key[b + 3]);
  }

  /** The first `k` octets of `buf` are those of `to`, the rest those of `from`. */
  ghost predicate Part(buf: seq<byte>, from: seq<byte>, to: seq<byte>, k: nat) {
    k <= |to| <= |from| && buf == to[..k] + from[k..]
  }

  lemma NonePart(from: seq<byte>, to: seq<byte>)
    requires |to| <= |from|
    ensures Part(from, from, to, 0)
  {
  }

  lemma PartStep(buf: seq<byte>, from: seq<byte>, to: seq<byte>, k: nat, m: seq<byte>)
    requires Part(buf, from, to, k) && k < |to| && |m| == |to| && from[..|m|] == m
    ensures |buf| == |from| && buf[k] == m[k] && Part(buf[k := to[k]], from, to, k + 1)
  {
    assert from[k] == from[..|m|][k];
    assert buf[k := to[k]] == to[..k + 1] + from[k + 1..];
  }

  lemma PartNext(buf: seq<byte>, from: seq<byte>, to: seq<byte>, k: nat, m: seq<byte>)
    requires Part(buf, from, to, k) && k + 4 <= |to| && |m| == |to| && from[..|m|] == m
    ensures |buf| == |from| && buf[k..k + 4] == m[k..k + 4]
    ensures Part(buf[..k] + to[k..k + 4] + buf[k + 4..], from, to, k + 4)
  {
    assert buf[k..k + 4] == from[k..k + 4] == from[..|m|][k..k + 4];
    assert buf[..k] + to[k..k + 4] + buf[k + 4..] == to[..k + 4] + from[k + 4..];
  }

  lemma CryptAt(p: Params, m: seq<byte>, k: nat)
    requires p.Valid() && k < |m|
    ensures p.Crypt(m)[k] == Xor8(m[k], p.KeyOctet(k))
  {
    hide Xor8, BigEndian;
  }

  lemma FinishCbc(E: Cipher, x0: Block, m: seq<byte>, b: nat)
    requires b < 16 && b <= |m| && (|m| - b) % 16 == 0
    ensures var c := Mix(Cbc(E, x0, m[..|m| - b]), m[|m| - b..|m| - b + b]);
            Cbc(E, x0, Pad(m)) == if b == 0 then c else E(c)
  {
    hide Cbc, Mix, Pad, Running;
    RunningAt(E, x0, m, |m| - b, b);
    RunningFinish(E, x0, m);
    assert |m| % 16 == b;
  }

  /** memset of the first `n` octets to zero. */
  method Clear(buf: array<byte>, n: nat)
    requires n <= buf.Length
    modifies buf
    ensures buf[..] == Zeros(n) + old(buf[n..])
  {
    ghost var was := buf[..];
    for i := 0 to n
      invariant buf[..i] == Zeros(i) && buf[i..] == was[i..]
    {
      buf[i] := 0;
      assert buf[..i + 1] == buf[..i] + [0];
      assert buf[i + 1..] == was[i..][1..];
    }
    assert buf[..] == buf[..n] + buf[n..];
  }

  lemma TagAt(p: Params, a: seq<byte>, m: seq<byte>, b: nat)
    requires p.Valid() && b < p.M
    ensures p.Tag(a, m)[b] == Xor8(Cbc(p.E, p.AfterAuth(a, |m|), Pad(m))[b], p.E(p.Counter(0))[b])
  {
    hide Cbc, BigEndian, Params.AfterAuth, Pad, Xor8;
  }

  lemma CryptTwice(p: Params, m: seq<byte>)
    requires p.Valid()
    ensures p.Crypt(p.Crypt(m)) == m
  {
    hide Xor8, BigEndian;
    forall j | 0 <= j < |m| ensures p.Crypt(p.Crypt(m))[j] == m[j] { XorBack(m[j], p.KeyOctet(j)); }
  }

  /** The 32-bit block guard `cnt + 16 < len` is right at every block boundary
      exactly for messages of at most 2^32 - 16 octets. */
  lemma BlockGuardExact(len: nat)
    requires len < WORD_RANGE
    ensures (forall k: nat | k % 16 == 0 && k < len :: Add32(k, 16) < len <==> k + 16 < len) <==> len <= WORD_RANGE - 16
  {
    if len > WORD_RANGE - 16 {
      var k: nat := WORD_RANGE - 16;
      assert k % 16 == 0 && k < len && Add32(k, 16) == 0;
    }
  }

  function InitResult(keyLen: nat, authFieldLen: nat, adLen: nat): int {
    if keyLen != 16 && keyLen != 24 && keyLen != 32 then CCM_BAD_KEY
    else if authFieldLen < 2 || authFieldLen > 16 || authFieldLen % 2 == 1 then CCM_BAD_AUTH_FIELD_LENGTH
    else if adLen >= 65280 then CCM_BAD_AUTH_DATA_LENGTH
    else CCM_OK
  }

  function ParamsFor(E: Cipher, nonce: seq<byte>, msgLen: nat, authFieldLen: nat): Params
    requires msgLen < WORD_RANGE && |nonce| >= 15 - LengthSize(msgLen)
  {
    var L := LengthSize(msgLen);
    Params(E, nonce[..15 - L], L, authFieldLen)
  }

  /** The counter block and B_0 differ in the flags and the last octets. */
  lemma HeaderBlocks(p: Params, adata: bool, n: nat)
    requires p.Valid()
    ensures var b := [p.L - 1] + p.nonce + BigEndian(n, p.L);
      && b[..16 - p.L] == [p.L - 1] + p.nonce
      && b[0 := (if adata then 64 else 0) + 8 * ((p.M - 2) / 2) + (p.L - 1)] == p.FirstBlock(adata, n)
    ensures p.Counter(1) == [p.L - 1] + p.nonce + BigEndian(1, p.L)
  {
    hide BigEndian;
  }

  /** The flags octet is put together by `|=` from disjoint bits. */
  lemma FlagBits(l: nat, adata: bool, M: nat)
    requires 1 <= l <= 3 && 2 <= M <= 16 && M % 2 == 0
    ensures Bits.Or(l, (if adata then 0x40 else 0) + (M - 2) * 4) == (if adata then 64 else 0) + 8 * ((M - 2) / 2) + l
  {
    hide Bits.Or;
    assert Bits.Pow2(3) == 8;
    var k := (if adata then 8 else 0) + (M - 2) / 2;
    assert (if adata then 0x40 else 0) + (M - 2) * 4 == 8 * k;
    Bits.OrDisjoint(l, k, 3);
  }

  lemma NothingToAuth(E: Cipher, x: Block)
    ensures Pad([]) == [] && Cbc(E, x, []) == x
  {
  }

  lemma AuthLength(a: seq<byte>)
    requires |a| < 65536
    ensures BigEndian(|a|, 2) == [|a| / 256 % 256, |a| % 256]
  {
    EncodeSmall(|a|);
  }

  /** CCM_mode: the whole of it, in one call on one buffer. */
  method CcmMode(keyed: seq<byte> -> Cipher, key: seq<byte>, nonce: seq<byte>, auth: seq<byte>,
                 msg: array<byte>, msgLen: nat, authFieldLen: nat, decrypt: bool, aligned: bool, little: bool)
    returns (r: int)
    requires msgLen <= WORD_RANGE - 17 && |nonce| >= 15 - LengthSize(msgLen) && msgLen + authFieldLen <= msg.Length
    modifies msg
    ensures var keyOk := |key| in {16, 24, 32}; var tagOk := authFieldLen in {2, 4, 6, 8, 10, 12, 14, 16};
      && (!keyOk ==> r == -1 && msg[..] == old(msg[..]))
      && (keyOk && !tagOk ==> r == -2 && msg[..] == old(msg[..]))
      && (keyOk && tagOk && |auth| >= 65280 ==> r == -3 && msg[..] == old(msg[..]))
    ensures |key| in {16, 24, 32} && authFieldLen in {2, 4, 6, 8, 10, 12, 14, 16} && |auth| < 65280 ==>
      var p := ParamsFor(keyed(key), nonce, msgLen, authFieldLen); var n := msgLen + authFieldLen;
      && p.Valid()
      && (!decrypt ==> r == AsLong(n) && msg[..] == p.Seal(auth, old(msg[..msgLen])) + old(msg[n..]))
      && (!decrypt ==> (r < 0 <==> n >= 0x8000_0000) && (IsErrorCode(r) <==> n >= WORD_RANGE - 5))
      && (decrypt ==> match p.Open(auth, old(msg[..n]))
            case Message(m) => r == AsLong(msgLen) && !IsErrorCode(r) && msg[..] == m + old(msg[msgLen..])
            case Rejected => r == CCM_AUTH_FAILURE && msg[..] == Zeros(n) + old(msg[n..]))
  {
    hide Params.Seal, Params.Open, Params.AfterAuth, CcmCtx.Ready, LengthSize, AsLong, IsErrorCode, Zeros;
    ResultRange(msgLen + authFieldLen);
    ResultRange(msgLen);
    var ctx := new CcmCtx();
    r := ctx.Init(keyed, key, nonce, auth, msgLen, authFieldLen);
    if r == CCM_OK {
      ghost var p := ParamsFor(keyed(key), nonce, msgLen, authFieldLen);
      r := Process(ctx, msg, msgLen, authFieldLen, decrypt, aligned, little, p, auth);
    }
  }

  /** The call behind a successful CCM_init (src/crypto/gladman/ccm.c:426-428). */
  method Process(ctx: CcmCtx, msg: array<byte>, msgLen: nat, authFieldLen: nat, decrypt: bool, aligned: bool,
                 little: bool, ghost p: Params, ghost auth: seq<byte>)
    returns (r: int)
    requires ctx.Valid() && p.Valid() && ctx.cnt == 0 && ctx.mdLen == msgLen && ctx.afLen == authFieldLen == p.M
    requires ctx.Ready(p, p.AfterAuth(auth, msgLen)) && ctx.Apart(msg)
    requires msgLen <= WORD_RANGE - 17 && msgLen + authFieldLen <= msg.Length
    modifies ctx`cnt, ctx.blk, ctx.cbc, ctx.sii, msg
    ensures var n := msgLen + authFieldLen;
      && (!decrypt ==> r == AsLong(n) && msg[..] == p.Seal(auth, old(msg[..msgLen])) + old(msg[n..]))
      && (decrypt ==> match p.Open(auth, old(msg[..n]))
            case Message(m) => r == AsLong(msgLen) && msg[..] == m + old(msg[msgLen..])
            case Rejected => r == CCM_AUTH_FAILURE && msg[..] == Zeros(n) + old(msg[n..]))
  {
    hide Params.Seal, Params.Open, Params.AfterAuth, CcmCtx.Ready, AsLong, Zeros;
    if decrypt {
      r := ctx.Decrypt(msg, msgLen + authFieldLen, aligned, little, p, auth);
    } else {
      r := ctx.Encrypt(msg, msgLen, aligned, little, p, auth);
    }
  }

  /** Encrypting and then decrypting in place restores every message, whatever
      the block function and however the buffers are aligned. */
  method SealThenOpen(keyed: seq<byte> -> Cipher, key: seq<byte>, nonce: seq<byte>, auth: seq<byte>,
                      msg: array<byte>, msgLen: nat, authFieldLen: nat, aligned: bool, aligned': bool, little: bool)
    returns (r: int)
    requires msgLen <= WORD_RANGE - 17 && |nonce| >= 15 - LengthSize(msgLen) && msgLen + authFieldLen <= msg.Length
    requires InitResult(|key|, authFieldLen, |auth|) == CCM_OK
    modifies msg
    ensures msg[..msgLen] == old(msg[..msgLen]) && r == AsLong(msgLen)
  {
    hide Params.Seal, Params.Open, LengthSize;
    ghost var p := ParamsFor(keyed(key), nonce, msgLen, authFieldLen);
    ghost var m := msg[..msgLen];
    r := CcmMode(keyed, key, nonce, auth, msg, msgLen, authFieldLen, false, aligned, little);
    SealLength(p, auth, m);
    assert msg[..msgLen + authFieldLen] == p.Seal(auth, m);
    RoundTrip(p, auth, m);
    r := CcmMode(keyed, key, nonce, auth, msg, msgLen, authFieldLen, true, aligned', little);
  }

  lemma SealLength(p: Params, a: seq<byte>, m: seq<byte>)
    requires p.Valid()
    ensures |p.Seal(a, m)| == |m| + p.M
  {
    hide BigEndian, Xor8, Cbc;
  }

  /** One of the five error codes. */
  predicate IsErrorCode(r: int) { CCM_MSG_LENGTH_ERROR <= r <= CCM_BAD_KEY }

  lemma ResultRange(n: nat)
    ensures n < WORD_RANGE ==>
      (AsLong(n) < 0 <==> n >= 0x8000_0000) && (IsErrorCode(AsLong(n)) <==> n >= WORD_RANGE - 5)
  {
  }

  /** A message of 2^32 - 17 octets sealed with a tag of 16 octets is answered
      with the code for a bad key. */
  method LongestMessage(keyed: seq<byte> -> Cipher, key: seq<byte>, nonce: seq<byte>, auth: seq<byte>,
                        msg: array<byte>, aligned: bool, little: bool) returns (r: int)
    requires InitResult(|key|, 16, |auth|) == CCM_OK && |nonce| >= 11 && msg.Length == WORD_RANGE - 1
    modifies msg
    ensures r == CCM_BAD_KEY
  {
    r := CcmMode(keyed, key, nonce, auth, msg, WORD_RANGE - 17, 16, false, aligned, little);
  }
}
